/** The progress history of an autonomous run: recent fingerprints and how long nothing has changed. */
module Autonomous {
  import opened Bytes

  const MAX_RECENT_PROGRESS_FINGERPRINTS: nat := 16

  /** The end of the list, at most `n` long. */
  function Last<T>(s: seq<T>, n: nat): seq<T> {
    if |s| <= n then s else s[|s| - n..]
  }

  /** How many entries at the end of the list equal the last one. */
  function TrailingRun(s: seq<string>): (n: nat)
    ensures n <= |s|
    ensures s != [] ==> n > 0
  {
    if |s| < 2 then |s|
    else if s[|s| - 1] == s[|s| - 2] then 1 + TrailingRun(s[..|s| - 1])
    else 1
  }

  /** The counter after all of `s` was recorded: the length of the trailing run less one, up to the largest `u32`. */
  function NoProgress(s: seq<string>): u32 {
    if s == [] then 0
    else if TrailingRun(s) - 1 > U32_MAX then U32_MAX
    else TrailingRun(s) - 1
  }

  /** The run ends the list, and is as long as it can be. */
  lemma {:induction false} TrailingRunIsLongest(s: seq<string>)
    requires s != []
    ensures var n := TrailingRun(s);
            && (forall i | |s| - n <= i < |s| :: s[i] == s[|s| - 1])
            && (n < |s| ==> s[|s| - n - 1] != s[|s| - 1])
  {
    if |s| >= 2 && s[|s| - 1] == s[|s| - 2] {
      var front := s[..|s| - 1];
      TrailingRunIsLongest(front);
      forall i | |s| - TrailingRun(s) <= i < |s| ensures s[i] == s[|s| - 1] {
        if i < |s| - 1 {
          assert front[i] == front[|front| - 1];
        }
      }
    }
  }

  class AutonomousRunState {
    var recentFingerprints: seq<string>
    var consecutiveNoProgress: u32

    /** Everything recorded on this run, which the program does not keep. */
    ghost var history: seq<string>

    ghost predicate Valid()
      reads this
    {
      && recentFingerprints == Last(history, MAX_RECENT_PROGRESS_FINGERPRINTS)
      && consecutiveNoProgress == NoProgress(history)
    }

    constructor ()
      ensures Valid() && history == []
    {
      recentFingerprints, consecutiveNoProgress := [], 0;
      history := [];
    }

    /** `record_progress_fingerprint`. */
    method RecordProgressFingerprint(fingerprint: string) returns (progressed: bool)
      requires Valid()
      modifies `recentFingerprints, `consecutiveNoProgress, `history
      ensures Valid() && history == old(history) + [fingerprint]
      ensures progressed <==> (old(history) == [] || old(history)[|old(history)| - 1] != fingerprint)
    {
      RecordStep(history, fingerprint);
      progressed := recentFingerprints == [] || recentFingerprints[|recentFingerprints| - 1] != fingerprint;
      if progressed {
        consecutiveNoProgress := 0;
      } else {
        consecutiveNoProgress := if consecutiveNoProgress < U32_MAX then consecutiveNoProgress + 1 else U32_MAX;
      }
      recentFingerprints := recentFingerprints + [fingerprint];
      var extra := if |recentFingerprints| > MAX_RECENT_PROGRESS_FINGERPRINTS
                   then |recentFingerprints| - MAX_RECENT_PROGRESS_FINGERPRINTS else 0;
      if extra > 0 {
        recentFingerprints := recentFingerprints[extra..];
      }
      history := history + [fingerprint];
    }
  }

  lemma RecordStep(s: seq<string>, fingerprint: string)
    ensures var next := s + [fingerprint];
            && NoProgress(next) == (if s == [] || s[|s| - 1] != fingerprint then 0
                                    else if NoProgress(s) < U32_MAX then NoProgress(s) + 1 else U32_MAX)
            && Last(next, MAX_RECENT_PROGRESS_FINGERPRINTS) ==
               Last(Last(s, MAX_RECENT_PROGRESS_FINGERPRINTS) + [fingerprint], MAX_RECENT_PROGRESS_FINGERPRINTS)
  {
  }

  /** After any sequence of fingerprints on a new run, its list and its counter are those of the whole sequence. */
  method RecordAll(fingerprints: seq<string>) returns (run: AutonomousRunState)
    ensures fresh(run)
    ensures run.recentFingerprints == Last(fingerprints, MAX_RECENT_PROGRESS_FINGERPRINTS)
    ensures run.consecutiveNoProgress == NoProgress(fingerprints)
  {
    run := new AutonomousRunState();
    for i := 0 to |fingerprints|
      invariant fresh(run) && run.Valid() && run.history == fingerprints[..i]
    {
      var _ := run.RecordProgressFingerprint(fingerprints[i]);
      assert fingerprints[..i + 1] == fingerprints[..i] + [fingerprints[i]];
    }
    assert fingerprints[..|fingerprints|] == fingerprints;
  }
}
