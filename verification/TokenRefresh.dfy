/**
Credential refresh by any number of concurrent callers: `access_credential` looks at the stored
credential without the lock and again under it, `force_refresh` only under it, and both exchange
the stored refresh token for a new credential while they hold the process-wide lock. The model
interleaves the callers' steps arbitrarily, lets the clock jump, requests fail at any point and
calls be dropped. On the other side is a server that may rotate the refresh token (section 6 of
RFC 6749) and may answer a request at any time after it was sent, also when its call has timed out
or was dropped.
*/
module TokenRefresh {
  import opened Bytes
  import opened Wrappers

  const U64_MAX: nat := 0xFFFF_FFFF_FFFF_FFFF

  datatype Credential = Credential(
    access: string, refresh: string, expiresAt: u64, scopes: seq<string>, project: string)

  /** A token response that passed validation; no scopes when the scope field was blank. */
  datatype Reply = Reply(access: string, expiresIn: u64, refresh: Option<string>, scopes: Option<seq<string>>)

  datatype Secret = Missing | Corrupt | Has(credential: Credential)

  datatype Failure = CredentialMissing | NotAuthenticated | ExchangeFailed | StoreFailed

  datatype Kind = Access | Force

  datatype Phase =
    | Begin                                    // access_credential, nothing read yet
    | Peeked(seen: Credential)                 // read without the lock
    | Waiting                                  // queued for the lock
    | Locked
    | Deciding(held: Credential)               // read again under the lock
    | Renewing(held: Credential)               // about to send
    | Requested(held: Credential, request: nat)
    | Granted(held: Credential, reply: Reply)  // answered by the server
    | Renewed(held: Credential, reply: Reply, at: u64)
    | Done(result: Result<Credential, Failure>)
    | Dropped

  datatype Caller = Caller(kind: Kind, phase: Phase)

  /** A request on its way or answered: who sent it, the token in it, and what was stored then. */
  datatype Sent = Sent(sender: nat, token: string, stored: Secret, answered: bool)

  /**
  `current` is the refresh token the server honours and `issued` all it has honoured so far; `grants`
  are the replies whose credential was saved, with the time of each.
  */
  datatype State = State(
    store: Secret, now: u64, lock: Option<nat>, callers: map<nat, Caller>,
    current: string, issued: set<string>, sent: seq<Sent>, grants: seq<(Reply, u64)>, accessSaves: nat)

  function SatAdd(a: u64, b: u64): u64 {
    if a + b > U64_MAX then U64_MAX else a + b
  }

  /** `refresh_token`, given the server's reply. */
  function Renew(c: Credential, r: Reply, now: u64): Credential {
    Credential(r.access, Or(r.refresh, c.refresh), SatSub(SatAdd(now, r.expiresIn), 60), Or(r.scopes, c.scopes), c.project)
  }

  predicate IsFresh(c: Credential, now: u64) {
    c.expiresAt > SatAdd(now, 60)
  }

  predicate InCritical(p: Phase) {
    p.Locked? || p.Deciding? || p.Renewing? || p.Requested? || p.Granted? || p.Renewed?
  }

  // ---------- the steps ----------

  datatype Action =
    | Clock(now: u64)
    | Call(id: nat, kind: Kind)
    | Peek(id: nat)
    | CheckPeeked(id: nat)
    | Acquire(id: nat)
    | ReadLocked(id: nat)
    | Decide(id: nat)
    | Send(id: nat)
    | Grant(request: nat, reply: Reply)
    | Receive(id: nat)
    | Save(id: nat)
    | Fail(id: nat)
    | Drop(id: nat)

  function To(s: State, id: nat, p: Phase): State
    requires id in s.callers
  {
    s.(callers := s.callers[id := Caller(s.callers[id].kind, p)])
  }

  /** Leaves the critical section: the guard is dropped with the call. */
  function Leave(s: State, id: nat, p: Phase): State
    requires id in s.callers
  {
    To(s, id, p).(lock := if s.lock == Some(id) then None else s.lock)
  }

  /** The call that sent the request still waits for the answer. */
  predicate IsAwaited(s: State, k: nat)
    requires k < |s.sent|
  {
    var id := s.sent[k].sender;
    id in s.callers && s.callers[id].phase.Requested? && s.callers[id].phase.request == k
  }

  /** The server answers a request; the answer is lost when nobody waits for it. */
  function Answer(s: State, k: nat, r: Reply): State
    requires k < |s.sent|
  {
    var e := s.sent[k];
    var next := Or(r.refresh, e.token);
    var t := s.(current := next, issued := s.issued + {next}, sent := s.sent[k := e.(answered := true)]);
    if IsAwaited(s, k) then To(t, e.sender, Granted(s.callers[e.sender].phase.held, r)) else t
  }

  predicate PhaseIs(s: State, id: nat, p: Phase -> bool) {
    id in s.callers && p(s.callers[id].phase)
  }

  predicate Enabled(s: State, a: Action) {
    match a
    case Clock(_) => true
    case Call(id, _) => id !in s.callers
    case Peek(id) => PhaseIs(s, id, (p: Phase) => p.Begin?)
    case CheckPeeked(id) => PhaseIs(s, id, (p: Phase) => p.Peeked?)
    case Acquire(id) => PhaseIs(s, id, (p: Phase) => p.Waiting?) && s.lock == None
    case ReadLocked(id) => PhaseIs(s, id, (p: Phase) => p.Locked?)
    case Decide(id) => PhaseIs(s, id, (p: Phase) => p.Deciding?)
    case Send(id) => PhaseIs(s, id, (p: Phase) => p.Renewing?)
    case Grant(k, _) => k < |s.sent| && !s.sent[k].answered && s.sent[k].token == s.current
    case Receive(id) => PhaseIs(s, id, (p: Phase) => p.Granted?)
    case Save(id) => PhaseIs(s, id, (p: Phase) => p.Renewed?)
    case Fail(id) => PhaseIs(s, id, (p: Phase) => p.Requested? || p.Granted? || p.Renewed?)
    case Drop(id) => PhaseIs(s, id, (p: Phase) => !p.Done? && !p.Dropped?)
  }

  function Step(s: State, a: Action): State
    requires Enabled(s, a)
  {
    match a
    case Clock(now) => s.(now := now)
    case Call(id, kind) => s.(callers := s.callers[id := Caller(kind, if kind.Access? then Begin else Waiting)])
    case Peek(id) =>
      (match s.store
       case Missing => To(s, id, Done(Err(CredentialMissing)))
       case Corrupt => To(s, id, Done(Err(NotAuthenticated)))
       case Has(c) => To(s, id, Peeked(c)))
    case CheckPeeked(id) =>
      var c := s.callers[id].phase.seen;
      if IsFresh(c, s.now) then To(s, id, Done(Ok(c))) else To(s, id, Waiting)
    case Acquire(id) => To(s, id, Locked).(lock := Some(id))
    case ReadLocked(id) =>
      (match s.store
       case Missing => Leave(s, id, Done(Err(CredentialMissing)))
       case Corrupt => Leave(s, id, Done(Err(NotAuthenticated)))
       case Has(c) => To(s, id, if s.callers[id].kind.Access? then Deciding(c) else Renewing(c)))
    case Decide(id) =>
      var c := s.callers[id].phase.held;
      if IsFresh(c, s.now) then Leave(s, id, Done(Ok(c))) else To(s, id, Renewing(c))
    case Send(id) =>
      var c := s.callers[id].phase.held;
      To(s, id, Requested(c, |s.sent|)).(sent := s.sent + [Sent(id, c.refresh, s.store, false)])
    case Grant(k, r) => Answer(s, k, r)
    case Receive(id) =>
      var p := s.callers[id].phase;
      To(s, id, Renewed(p.held, p.reply, s.now))
    case Save(id) =>
      var p := s.callers[id].phase;
      var c := Renew(p.held, p.reply, p.at);
      Leave(s, id, Done(Ok(c))).(
        store := Has(c),
        grants := s.grants + [(p.reply, p.at)],
        accessSaves := s.accessSaves + if s.callers[id].kind.Access? then 1 else 0)
    case Fail(id) =>
      var p := s.callers[id].phase;
      Leave(s, id, Done(Err(if p.Renewed? then StoreFailed else ExchangeFailed)))
    case Drop(id) => Leave(s, id, Dropped)
  }

  function Start(c: Credential, now: u64): State {
    State(Has(c), now, None, map[], c.refresh, {c.refresh}, [], [], 0)
  }

  /** Every action of the run is enabled when its turn comes. */
  predicate IsRun(s: State, run: seq<Action>)
    decreases |run|
  {
    run == [] || (Enabled(s, run[0]) && IsRun(Step(s, run[0]), run[1..]))
  }

  function Run(s: State, run: seq<Action>): State
    requires IsRun(s, run)
    decreases |run|
  {
    if run == [] then s else Run(Step(s, run[0]), run[1..])
  }

  // ---------- the invariant ----------

  /** The credential reached by renewing `c` with each reply in turn. */
  function Chain(c: Credential, grants: seq<(Reply, u64)>): Credential {
    if grants == [] then c
    else
      var last := grants[|grants| - 1];
      Renew(Chain(c, grants[..|grants| - 1]), last.0, last.1)
  }

  /** Only the owner of the lock is in the critical section. */
  ghost predicate Exclusive(s: State) {
    && (s.lock.Some? ==> s.lock.value in s.callers && InCritical(s.callers[s.lock.value].phase))
    && forall id | id in s.callers && InCritical(s.callers[id].phase) :: s.lock == Some(id)
  }

  /** What the owner of the lock has read is what is stored, and is what it asked the server about. */
  ghost predicate OwnerKnowsStore(s: State) {
    s.lock.Some? && s.lock.value in s.callers ==>
      var p := s.callers[s.lock.value].phase;
      && (p.Deciding? || p.Renewing? || p.Requested? || p.Granted? || p.Renewed? ==> s.store == Has(p.held))
      && (p.Requested? ==> p.request < |s.sent| && s.sent[p.request].token == p.held.refresh
                           && s.sent[p.request].sender == s.lock.value)
  }

  ghost predicate SentStoredToken(e: Sent) {
    e.stored.Has? && e.token == e.stored.credential.refresh
  }

  ghost predicate Inv(s: State, origin: Credential) {
    && Exclusive(s)
    && OwnerKnowsStore(s)
    && s.store == Has(Chain(origin, s.grants))
    && Tracked(s)
    && forall i | 0 <= i < |s.sent| :: SentStoredToken(s.sent[i])
  }

  lemma ToKeepsExclusive(s: State, id: nat, p: Phase)
    requires Exclusive(s) && id in s.callers && InCritical(s.callers[id].phase) == InCritical(p)
    ensures Exclusive(To(s, id, p))
  {
  }

  lemma LeaveKeepsExclusive(s: State, id: nat, p: Phase)
    requires Exclusive(s) && id in s.callers && !InCritical(p)
    ensures Exclusive(Leave(s, id, p))
    ensures InCritical(s.callers[id].phase) ==> Leave(s, id, p).lock == None
  {
  }

  lemma EntryKeepsExclusive(s: State, a: Action)
    requires Exclusive(s) && Enabled(s, a) && (a.Clock? || a.Call? || a.Acquire? || a.Grant?)
    ensures Exclusive(Step(s, a))
  {
  }

  lemma StepKeepsExclusive(s: State, a: Action)
    requires Exclusive(s) && Enabled(s, a)
    ensures Exclusive(Step(s, a))
  {
    hide Exclusive, IsFresh, Renew, Answer;
    if a.Clock? || a.Call? || a.Acquire? || a.Grant? {
      EntryKeepsExclusive(s, a);
    } else {
      var p := Step(s, a).callers[a.id].phase;
      if InCritical(p) == InCritical(s.callers[a.id].phase) {
        ToKeepsExclusive(s, a.id, p);
      }
      if !InCritical(p) {
        LeaveKeepsExclusive(s, a.id, p);
      }
      SameOwners(Step(s, a), if InCritical(p) == InCritical(s.callers[a.id].phase) && Step(s, a).lock == s.lock
                             then To(s, a.id, p) else Leave(s, a.id, p));
    }
  }

  lemma SameOwners(s: State, t: State)
    requires s.lock == t.lock && s.callers == t.callers
    ensures Exclusive(s) == Exclusive(t)
  {
  }

  lemma StepKeepsOwner(s: State, a: Action)
    requires Exclusive(s) && OwnerKnowsStore(s) && Enabled(s, a)
    ensures OwnerKnowsStore(Step(s, a))
  {
    hide IsFresh, Renew, SatAdd, SatSub;
  }

  lemma StepKeepsChain(s: State, a: Action, origin: Credential)
    requires Exclusive(s) && OwnerKnowsStore(s) && s.store == Has(Chain(origin, s.grants)) && Enabled(s, a)
    ensures Step(s, a).store == Has(Chain(origin, Step(s, a).grants))
  {
    if a.Save? {
      var p := s.callers[a.id].phase;
      var g := s.grants + [(p.reply, p.at)];
      assert g[..|g| - 1] == s.grants;
    }
  }

  lemma StepKeepsSent(s: State, a: Action)
    requires Exclusive(s) && OwnerKnowsStore(s) && Enabled(s, a)
    requires forall i | 0 <= i < |s.sent| :: SentStoredToken(s.sent[i])
    ensures forall i | 0 <= i < |Step(s, a).sent| :: SentStoredToken(Step(s, a).sent[i])
  {
  }

  lemma StepKeepsInv(s: State, a: Action, origin: Credential)
    requires Inv(s, origin) && Enabled(s, a)
    ensures Inv(Step(s, a), origin)
  {
    StepKeepsExclusive(s, a);
    StepKeepsOwner(s, a);
    StepKeepsChain(s, a, origin);
    StepKeepsSent(s, a);
    StepKeepsTracked(s, a);
    hide Step, Enabled, Chain, Exclusive, OwnerKnowsStore, Tracked, SentStoredToken;
  }

  lemma {:induction false} RunKeepsInv(s: State, run: seq<Action>, origin: Credential)
    requires Inv(s, origin) && IsRun(s, run)
    ensures Inv(Run(s, run), origin)
    decreases |run|
  {
    hide Inv, Step, Enabled;
    if run != [] {
      StepKeepsInv(s, run[0], origin);
      RunKeepsInv(Step(s, run[0]), run[1..], origin);
    }
  }

  // ---------- what holds over whole runs ----------

  /** Renewing never touches the project, and keeps the refresh token unless the server sends another. */
  lemma {:induction false} ChainKeepsIdentity(c: Credential, grants: seq<(Reply, u64)>)
    ensures Chain(c, grants).project == c.project
    ensures (forall i | 0 <= i < |grants| :: grants[i].0.refresh == None) ==> Chain(c, grants).refresh == c.refresh
    ensures forall i | 0 <= i < |grants| && grants[i].0.refresh.Some?
                       && (forall j | i < j < |grants| :: grants[j].0.refresh == None) ::
              Chain(c, grants).refresh == grants[i].0.refresh.value
  {
    if grants != [] {
      var prev := grants[..|grants| - 1];
      ChainKeepsIdentity(c, prev);
      hide Renew;
    }
  }

  /**
  Every refresh presents exactly the refresh token stored at that moment; the stored credential is
  the initial one renewed by the saved replies in order.
  */
  lemma RunsPresentStoredToken(origin: Credential, now: u64, run: seq<Action>)
    requires IsRun(Start(origin, now), run)
    ensures var s := Run(Start(origin, now), run);
            && s.store == Has(Chain(origin, s.grants))
            && s.store.credential.project == origin.project
            && forall i | 0 <= i < |s.sent| :: SentStoredToken(s.sent[i])
  {
    RunKeepsInv(Start(origin, now), run, origin);
    ChainKeepsIdentity(origin, Run(Start(origin, now), run).grants);
  }

  // ---------- what a renewal takes from the reply ----------

  /** The expiry recorded for a lifetime granted at some time: a minute early, within the 64 bits. */
  predicate ExpiresEarly(expiresAt: u64, at: u64, expiresIn: u64) {
    if at + expiresIn > U64_MAX then expiresAt == U64_MAX - 60
    else if at + expiresIn < 60 then expiresAt == 0
    else expiresAt == at + expiresIn - 60
  }

  /** The last reply of the list that gave any scopes, or else `origin`'s scopes. */
  ghost predicate ScopesFrom(scopes: seq<string>, origin: Credential, grants: seq<(Reply, u64)>) {
    if forall i | 0 <= i < |grants| :: grants[i].0.scopes == None then scopes == origin.scopes
    else
      exists i | 0 <= i < |grants| :: grants[i].0.scopes == Some(scopes)
                                      && forall j | i < j < |grants| :: grants[j].0.scopes == None
  }

  lemma ScopesStep(before: seq<string>, c: Credential, prev: seq<(Reply, u64)>, last: (Reply, u64))
    requires ScopesFrom(before, c, prev)
    ensures ScopesFrom(Or(last.0.scopes, before), c, prev + [last])
  {
    var grants, n := prev + [last], |prev|;
    assert grants[n] == last && forall i | 0 <= i < n :: grants[i] == prev[i];
    if last.0.scopes == None && !(forall i | 0 <= i < n :: prev[i].0.scopes == None) {
      var i :| 0 <= i < n && prev[i].0.scopes == Some(before) && forall j | i < j < n :: prev[j].0.scopes == None;
      assert grants[i].0.scopes == Some(before);
    }
  }

  lemma {:induction false} ChainScopes(c: Credential, grants: seq<(Reply, u64)>)
    ensures ScopesFrom(Chain(c, grants).scopes, c, grants)
  {
    if grants != [] {
      hide ScopesFrom, SatAdd, SatSub;
      var prev, last := grants[..|grants| - 1], grants[|grants| - 1];
      assert prev + [last] == grants;
      ChainScopes(c, prev);
      ScopesStep(Chain(c, prev).scopes, c, prev, last);
    } else {
      assert ScopesFrom(c.scopes, c, []);
    }
  }

  lemma ChainOfLast(c: Credential, grants: seq<(Reply, u64)>)
    ensures var n := |grants|;
            if n == 0 then Chain(c, grants) == c
            else
              && Chain(c, grants).access == grants[n - 1].0.access
              && ExpiresEarly(Chain(c, grants).expiresAt, grants[n - 1].1, grants[n - 1].0.expiresIn)
  {
    if grants != [] {
      var prev := Chain(c, grants[..|grants| - 1]);
      assert Chain(c, grants) == Renew(prev, grants[|grants| - 1].0, grants[|grants| - 1].1);
      hide Chain;
    }
  }

  /**
  The stored credential after any run, on the fields of the saved replies: the last access token and
  expiry, the last refresh token and scopes that were given, and the project of the beginning.
  */
  lemma StoredIsFromReplies(origin: Credential, now: u64, run: seq<Action>)
    requires IsRun(Start(origin, now), run)
    ensures var s := Run(Start(origin, now), run);
            && s.store.Has?
            && var c, n := s.store.credential, |s.grants|;
               && (n == 0 ==> c == origin)
               && (n > 0 ==> c.access == s.grants[n - 1].0.access
                             && ExpiresEarly(c.expiresAt, s.grants[n - 1].1, s.grants[n - 1].0.expiresIn))
               && ScopesFrom(c.scopes, origin, s.grants)
               && c.project == origin.project
               && ((forall i | 0 <= i < n :: s.grants[i].0.refresh == None) ==> c.refresh == origin.refresh)
               && (forall i | 0 <= i < n && s.grants[i].0.refresh.Some?
                              && (forall j | i < j < n :: s.grants[j].0.refresh == None) ::
                     c.refresh == s.grants[i].0.refresh.value)
  {
    StartAgrees(origin, now);
    RunKeepsInv(Start(origin, now), run, origin);
    hide Run, IsRun, ScopesFrom, ExpiresEarly, Agrees, Known, Exclusive, OwnerKnowsStore, Tracked, SentStoredToken, Chain;
    var grants := Run(Start(origin, now), run).grants;
    ChainKeepsIdentity(origin, grants);
    ChainScopes(origin, grants);
    ChainOfLast(origin, grants);
  }

  /** A call that saves returns what it has stored, with the access token of the reply it was given. */
  lemma SavedCallReturnsStored(origin: Credential, now: u64, run: seq<Action>, id: nat)
    requires IsRun(Start(origin, now), run) && Enabled(Run(Start(origin, now), run), Save(id))
    ensures var s := Run(Start(origin, now), run);
            var t := Step(s, Save(id));
            && t.store.Has? && t.callers[id].phase == Done(Ok(t.store.credential))
            && t.store.credential.access == s.callers[id].phase.reply.access
            && t.store.credential.project == origin.project
            && t.grants == s.grants + [(s.callers[id].phase.reply, s.callers[id].phase.at)]
  {
    StartAgrees(origin, now);
    RunKeepsInv(Start(origin, now), run, origin);
    hide Run, IsRun, Agrees, Known, Tracked, SentStoredToken, Chain;
    ChainKeepsIdentity(origin, Run(Start(origin, now), run).grants);
  }

  ghost predicate ForcedSkipChecks(s: State) {
    forall id | id in s.callers && s.callers[id].kind.Force? ::
      !s.callers[id].phase.Begin? && !s.callers[id].phase.Peeked? && !s.callers[id].phase.Deciding?
  }

  lemma StepKeepsForced(s: State, a: Action)
    requires Enabled(s, a) && ForcedSkipChecks(s)
    ensures ForcedSkipChecks(Step(s, a))
  {
    hide IsFresh, Renew;
  }

  lemma {:induction false} RunKeepsForced(s: State, run: seq<Action>)
    requires IsRun(s, run) && ForcedSkipChecks(s)
    ensures ForcedSkipChecks(Run(s, run))
    decreases |run|
  {
    hide Step, Enabled, ForcedSkipChecks;
    if run != [] {
      StepKeepsForced(s, run[0]);
      RunKeepsForced(Step(s, run[0]), run[1..]);
    }
  }

  /** The step makes the call return a credential. */
  predicate GetsCredential(s: State, a: Action, id: nat)
    requires Enabled(s, a)
  {
    && id in s.callers && !s.callers[id].phase.Done?
    && id in Step(s, a).callers && Step(s, a).callers[id].phase.Done? && Step(s, a).callers[id].phase.result.Ok?
  }

  lemma AnswerEndsNoCall(s: State, k: nat, r: Reply, id: nat)
    requires k < |s.sent| && id in s.callers && !s.callers[id].phase.Done?
    ensures id in Answer(s, k, r).callers && !Answer(s, k, r).callers[id].phase.Done?
  {
  }

  /**
  A call that ends with a credential has just saved it, or did not force a refresh and was content
  with one that lasts for more than another minute.
  */
  lemma ReturnsSavedOrLasting(origin: Credential, now: u64, run: seq<Action>, a: Action, id: nat)
    requires IsRun(Start(origin, now), run)
    requires Enabled(Run(Start(origin, now), run), a) && GetsCredential(Run(Start(origin, now), run), a, id)
    ensures var s := Run(Start(origin, now), run);
            var c := Step(s, a).callers[id].phase.result.value;
            a == Save(id) || (s.callers[id].kind.Access? && c.expiresAt > s.now + 60)
  {
    RunKeepsForced(Start(origin, now), run);
    hide Run, IsRun, Renew, Start, SatSub;
    var s := Run(Start(origin, now), run);
    if a.Grant? {
      AnswerEndsNoCall(s, a.request, a.reply, id);
    }
    hide Answer;
  }

  /** The replies the server gave in the run. */
  function RepliesOf(run: seq<Action>): set<Reply> {
    set a | a in run && a.Grant? :: a.reply
  }

  /** Every reply held or saved is one of these. */
  ghost predicate OnlyReplies(s: State, replies: set<Reply>) {
    && (forall i | 0 <= i < |s.grants| :: s.grants[i].0 in replies)
    && (forall id | id in s.callers && (s.callers[id].phase.Granted? || s.callers[id].phase.Renewed?) ::
          s.callers[id].phase.reply in replies)
  }

  lemma StepKeepsReplies(s: State, a: Action, replies: set<Reply>)
    requires Enabled(s, a) && OnlyReplies(s, replies)
    ensures OnlyReplies(Step(s, a), if a.Grant? then replies + {a.reply} else replies)
  {
    hide IsFresh, Renew;
  }

  lemma {:induction false} RunKeepsReplies(s: State, run: seq<Action>, replies: set<Reply>)
    requires IsRun(s, run) && OnlyReplies(s, replies)
    ensures OnlyReplies(Run(s, run), replies + RepliesOf(run))
    decreases |run|
  {
    hide Step, Enabled, OnlyReplies;
    if run == [] {
      assert replies + RepliesOf(run) == replies;
    } else {
      var next := if run[0].Grant? then replies + {run[0].reply} else replies;
      StepKeepsReplies(s, run[0], replies);
      RunKeepsReplies(Step(s, run[0]), run[1..], next);
      assert run == [run[0]] + run[1..];
      assert next + RepliesOf(run[1..]) == replies + RepliesOf(run);
    }
  }

  /** Nothing is saved that the server did not grant in the run. */
  lemma SavedWasGranted(origin: Credential, now: u64, run: seq<Action>)
    requires IsRun(Start(origin, now), run)
    ensures forall i | 0 <= i < |Run(Start(origin, now), run).grants| ::
              Run(Start(origin, now), run).grants[i].0 in RepliesOf(run)
  {
    RunKeepsReplies(Start(origin, now), run, {});
    assert {} + RepliesOf(run) == RepliesOf(run);
  }

  // ---------- when the server honours the stored token ----------

  /** The answer replaces the token the server honours. */
  predicate Rotates(s: State, a: Action) {
    a.Grant? && Or(a.reply.refresh, s.current) != s.current
  }

  /** Some answer of the run rotates the token and is not saved later in the run by the call that asked. */
  predicate Loses(s: State, run: seq<Action>)
    requires IsRun(s, run)
    decreases |run|
  {
    run != [] && (
      || (Rotates(s, run[0]) && Save(s.sent[run[0].request].sender) !in run[1..])
      || Loses(Step(s, run[0]), run[1..]))
  }

  /** The server never rotates back to a token it has honoured before. */
  predicate IssuesFresh(s: State, run: seq<Action>)
    requires IsRun(s, run)
    decreases |run|
  {
    run != [] ==>
      && (Rotates(s, run[0]) ==> run[0].reply.refresh.value !in s.issued)
      && IssuesFresh(Step(s, run[0]), run[1..])
  }

  predicate IsFinished(s: State, id: nat) {
    id in s.callers && (s.callers[id].phase.Done? || s.callers[id].phase.Dropped?)
  }

  /** Whoever sent an unanswered request waits for the answer or is gone. */
  ghost predicate Tracked(s: State) {
    forall k | 0 <= k < |s.sent| && !s.sent[k].answered :: IsAwaited(s, k) || IsFinished(s, s.sent[k].sender)
  }

  predicate InFlight(s: State) {
    s.lock.Some? && s.lock.value in s.callers
    && (s.callers[s.lock.value].phase.Granted? || s.callers[s.lock.value].phase.Renewed?)
  }

  /** The refresh token that the answer in flight will have saved. */
  function NextToken(s: State): string
    requires InFlight(s)
  {
    var p := s.callers[s.lock.value].phase;
    Or(p.reply.refresh, p.held.refresh)
  }

  ghost predicate Agrees(s: State) {
    s.store.Has? && s.current == if InFlight(s) then NextToken(s) else s.store.credential.refresh
  }

  /** A rotated token is in flight. */
  predicate Pending(s: State) {
    InFlight(s) && s.store.Has? && s.current != s.store.credential.refresh
  }

  lemma AnswerKeepsTracked(s: State, k: nat, r: Reply)
    requires OwnerKnowsStore(s) && Exclusive(s) && Tracked(s) && Enabled(s, Grant(k, r))
    ensures Tracked(Answer(s, k, r))
  {
  }

  lemma StepKeepsTracked(s: State, a: Action)
    requires Exclusive(s) && OwnerKnowsStore(s) && Tracked(s) && Enabled(s, a)
    ensures Tracked(Step(s, a))
  {
    hide IsFresh, Renew, SatAdd, SatSub;
    if a.Grant? {
      AnswerKeepsTracked(s, a.request, a.reply);
    }
  }

  lemma StepKeepsFinished(s: State, a: Action, id: nat)
    requires Enabled(s, a) && IsFinished(s, id)
    ensures IsFinished(Step(s, a), id) && a != Save(id)
  {
    hide IsFresh, Renew;
  }

  lemma {:induction false} FinishedNeverSaves(s: State, run: seq<Action>, id: nat)
    requires IsRun(s, run) && IsFinished(s, id)
    ensures Save(id) !in run
    decreases |run|
  {
    hide Step, Enabled, IsFinished;
    if run != [] {
      StepKeepsFinished(s, run[0], id);
      FinishedNeverSaves(Step(s, run[0]), run[1..], id);
      assert run == [run[0]] + run[1..];
    }
  }

  /** An answer to a call that is gone cannot have rotated the token without losing it. */
  lemma GrantKeepsAgreement(s: State, a: Action, rest: seq<Action>)
    requires Exclusive(s) && OwnerKnowsStore(s) && Tracked(s) && Agrees(s) && a.Grant? && Enabled(s, a)
    requires IsRun(Step(s, a), rest)
    requires Rotates(s, a) ==> Save(s.sent[a.request].sender) in rest
    requires Pending(s) ==> Save(s.lock.value) in rest
    ensures Agrees(Step(s, a))
    ensures Pending(Step(s, a)) ==> Save(Step(s, a).lock.value) in rest
  {
    if !IsAwaited(s, a.request) {
      FinishedNeverSaves(Step(s, a), rest, s.sent[a.request].sender);
    }
  }

  /** A call that leaves never saves any more. */
  lemma LeavingKeepsAgreement(s: State, a: Action, rest: seq<Action>)
    requires Exclusive(s) && OwnerKnowsStore(s) && Agrees(s) && (a.Fail? || a.Drop?) && Enabled(s, a)
    requires IsRun(Step(s, a), rest)
    requires Pending(s) ==> Save(s.lock.value) in rest
    ensures Agrees(Step(s, a)) && (Pending(Step(s, a)) ==> Save(Step(s, a).lock.value) in rest)
  {
    FinishedNeverSaves(Step(s, a), rest, a.id);
  }

  lemma OtherKeepsAgreement(s: State, a: Action)
    requires Exclusive(s) && OwnerKnowsStore(s) && Agrees(s) && Enabled(s, a)
    requires !a.Grant? && !a.Fail? && !a.Drop?
    ensures Agrees(Step(s, a))
    ensures Pending(Step(s, a)) ==> Pending(s) && Step(s, a).lock == s.lock && a != Save(s.lock.value)
  {
    hide IsFresh, SatAdd, SatSub;
  }

  /** One step of a run that loses nothing. */
  lemma StepKeepsAgreement(s: State, a: Action, rest: seq<Action>)
    requires Exclusive(s) && OwnerKnowsStore(s) && Tracked(s) && Agrees(s)
    requires Enabled(s, a) && IsRun(Step(s, a), rest)
    requires Rotates(s, a) ==> Save(s.sent[a.request].sender) in rest
    requires Pending(s) ==> Save(s.lock.value) in [a] + rest
    ensures Agrees(Step(s, a))
    ensures Pending(Step(s, a)) ==> Save(Step(s, a).lock.value) in rest
  {
    hide Exclusive, OwnerKnowsStore, Tracked, Agrees, Step, Enabled, Rotates;
    if a.Grant? {
      GrantKeepsAgreement(s, a, rest);
    } else if a.Fail? || a.Drop? {
      LeavingKeepsAgreement(s, a, rest);
    } else {
      OtherKeepsAgreement(s, a);
    }
  }

  lemma {:induction false} RunKeepsAgreement(s: State, run: seq<Action>, origin: Credential)
    requires Inv(s, origin) && Agrees(s) && IsRun(s, run) && !Loses(s, run)
    requires Pending(s) ==> Save(s.lock.value) in run
    ensures Agrees(Run(s, run))
    decreases |run|
  {
    hide Exclusive, OwnerKnowsStore, Tracked, Agrees, Step, Enabled, Rotates, Chain, SentStoredToken;
    if run != [] {
      assert run == [run[0]] + run[1..];
      StepKeepsInv(s, run[0], origin);
      StepKeepsAgreement(s, run[0], run[1..]);
      RunKeepsAgreement(Step(s, run[0]), run[1..], origin);
    }
  }

  // ---------- a lost token stays lost ----------

  /** No request presents the token the server honours, nothing stored or in flight is it. */
  ghost predicate Stranded(s: State) {
    && s.store.Has? && s.store.credential.refresh != s.current
    && (InFlight(s) ==> NextToken(s) != s.current)
    && forall k | 0 <= k < |s.sent| :: s.sent[k].token != s.current
  }

  /** The same, but for the answer in flight. */
  ghost predicate Hanging(s: State) {
    && s.store.Has? && s.store.credential.refresh != s.current
    && InFlight(s)
    && forall k | 0 <= k < |s.sent| :: s.sent[k].token != s.current
  }

  /** Every token stored, sent or in flight has been honoured at some time. */
  ghost predicate Known(s: State) {
    && s.current in s.issued
    && (s.store.Has? ==> s.store.credential.refresh in s.issued)
    && (InFlight(s) ==> NextToken(s) in s.issued)
    && forall k | 0 <= k < |s.sent| :: s.sent[k].token in s.issued
  }

  lemma StepKeepsKnown(s: State, a: Action)
    requires Exclusive(s) && OwnerKnowsStore(s) && Known(s) && Enabled(s, a)
    ensures Known(Step(s, a))
  {
    hide IsFresh, SatAdd, SatSub;
  }

  lemma StepKeepsStranded(s: State, a: Action)
    requires Exclusive(s) && OwnerKnowsStore(s) && Stranded(s) && Enabled(s, a)
    ensures Stranded(Step(s, a)) && !a.Grant?
  {
    hide IsFresh, SatAdd, SatSub;
  }

  lemma {:induction false} RunKeepsStranded(s: State, run: seq<Action>, origin: Credential)
    requires Inv(s, origin) && Stranded(s) && IsRun(s, run)
    ensures Stranded(Run(s, run)) && forall a | a in run :: !a.Grant?
    decreases |run|
  {
    hide Exclusive, OwnerKnowsStore, Tracked, Stranded, Step, Enabled, Chain, SentStoredToken;
    if run != [] {
      StepKeepsInv(s, run[0], origin);
      StepKeepsStranded(s, run[0]);
      RunKeepsStranded(Step(s, run[0]), run[1..], origin);
      assert run == [run[0]] + run[1..];
    }
  }

  lemma StepKeepsHanging(s: State, a: Action)
    requires Exclusive(s) && OwnerKnowsStore(s) && Hanging(s) && Enabled(s, a) && a != Save(s.lock.value)
    ensures Stranded(Step(s, a)) || (Hanging(Step(s, a)) && Step(s, a).lock == s.lock)
  {
    hide IsFresh, SatAdd, SatSub;
  }

  /** A fresh token just issued hangs on the answer in flight, or nobody has it. */
  lemma RotationHangs(s: State, a: Action)
    requires Exclusive(s) && OwnerKnowsStore(s) && Known(s) && s.store.Has? && Enabled(s, a)
    requires Rotates(s, a) && a.reply.refresh.value !in s.issued
    ensures var t := Step(s, a);
            Stranded(t) || (Hanging(t) && t.lock == Some(s.sent[a.request].sender))
  {
  }

  lemma {:induction false} HangingRun(s: State, run: seq<Action>, origin: Credential)
    requires Inv(s, origin) && Hanging(s) && IsRun(s, run)
    requires Save(s.lock.value) !in run && !InFlight(Run(s, run))
    ensures Stranded(Run(s, run))
    decreases |run|
  {
    hide Exclusive, OwnerKnowsStore, Tracked, Stranded, Step, Enabled, Chain, SentStoredToken;
    if run != [] {
      assert run == [run[0]] + run[1..];
      StepKeepsInv(s, run[0], origin);
      StepKeepsHanging(s, run[0]);
      if Stranded(Step(s, run[0])) {
        RunKeepsStranded(Step(s, run[0]), run[1..], origin);
      } else {
        HangingRun(Step(s, run[0]), run[1..], origin);
      }
    }
  }

  lemma {:induction false} LosingRun(s: State, run: seq<Action>, origin: Credential)
    requires Inv(s, origin) && Known(s) && IsRun(s, run) && IssuesFresh(s, run) && Loses(s, run)
    requires !InFlight(Run(s, run))
    ensures Stranded(Run(s, run))
    decreases |run|
  {
    hide Exclusive, OwnerKnowsStore, Tracked, Stranded, Hanging, Known, Rotates, Step, Enabled, Chain, SentStoredToken;
    var t, rest := Step(s, run[0]), run[1..];
    StepKeepsInv(s, run[0], origin);
    StepKeepsKnown(s, run[0]);
    if Loses(t, rest) {
      LosingRun(t, rest, origin);
    } else {
      RotationHangs(s, run[0]);
      if Stranded(t) {
        RunKeepsStranded(t, rest, origin);
      } else {
        HangingRun(t, rest, origin);
      }
    }
  }

  lemma StartAgrees(origin: Credential, now: u64)
    ensures Inv(Start(origin, now), origin) && Agrees(Start(origin, now)) && Known(Start(origin, now))
  {
  }

  /**
  The server honours the token about to be presented exactly when every answer that rotated it was
  saved by the call that asked, however late the answers came. That a lost token is not honoured
  needs a server that issues new tokens; that a saved one is does not.
  */
  lemma HonouredUnlessLost(origin: Credential, now: u64, run: seq<Action>, id: nat)
    requires IsRun(Start(origin, now), run) && Enabled(Run(Start(origin, now), run), Send(id))
    ensures var s := Run(Start(origin, now), run);
            && (!Loses(Start(origin, now), run) ==> s.callers[id].phase.held.refresh == s.current)
            && (IssuesFresh(Start(origin, now), run) ==>
                  (s.callers[id].phase.held.refresh == s.current <==> !Loses(Start(origin, now), run)))
  {
    var s0 := Start(origin, now);
    StartAgrees(origin, now);
    RunKeepsInv(s0, run, origin);
    hide Run, IsRun, IssuesFresh, Chain, Tracked, SentStoredToken;
    if !Loses(s0, run) {
      RunKeepsAgreement(s0, run, origin);
    } else if IssuesFresh(s0, run) {
      LosingRun(s0, run, origin);
    }
  }

  /** After a loss the server answers no request any more, whatever the callers do. */
  lemma LostIsForever(origin: Credential, now: u64, run: seq<Action>, more: seq<Action>)
    requires IsRun(Start(origin, now), run) && IsRun(Run(Start(origin, now), run), more)
    requires IssuesFresh(Start(origin, now), run) && Loses(Start(origin, now), run)
    requires !InFlight(Run(Start(origin, now), run))
    ensures forall a | a in more :: !a.Grant?
  {
    StartAgrees(origin, now);
    RunKeepsInv(Start(origin, now), run, origin);
    LosingRun(Start(origin, now), run, origin);
    RunKeepsStranded(Run(Start(origin, now), run), more, origin);
  }

  // ---------- runs that lose a token, and one that gets it back ----------

  /** A call up to the sending of its request. */
  function SendRun(id: nat): seq<Action> {
    [Call(id, Force), Acquire(id), ReadLocked(id), Send(id)]
  }

  lemma RunOne(s: State, a: Action, rest: seq<Action>)
    requires Enabled(s, a) && IsRun(Step(s, a), rest)
    ensures IsRun(s, [a] + rest) && Run(s, [a] + rest) == Run(Step(s, a), rest)
    ensures Loses(Step(s, a), rest) ==> Loses(s, [a] + rest)
    ensures Rotates(s, a) && Save(s.sent[a.request].sender) !in rest ==> Loses(s, [a] + rest)
    ensures IssuesFresh(Step(s, a), rest) && (Rotates(s, a) ==> a.reply.refresh.value !in s.issued)
            ==> IssuesFresh(s, [a] + rest)
  {
    assert ([a] + rest)[1..] == rest;
  }

  lemma {:induction false} RunConcat(s: State, first: seq<Action>, second: seq<Action>)
    requires IsRun(s, first) && IsRun(Run(s, first), second)
    ensures IsRun(s, first + second) && Run(s, first + second) == Run(Run(s, first), second)
    ensures Loses(Run(s, first), second) ==> Loses(s, first + second)
    ensures IssuesFresh(s, first) && IssuesFresh(Run(s, first), second) ==> IssuesFresh(s, first + second)
    decreases |first|
  {
    hide Step, Enabled, Rotates;
    if first == [] {
      assert first + second == second;
    } else {
      RunConcat(Step(s, first[0]), first[1..], second);
      assert first + second == [first[0]] + (first[1..] + second);
      RunOne(s, first[0], first[1..] + second);
    }
  }

  lemma OneStep(s: State, a: Action)
    requires Enabled(s, a)
    ensures IsRun(s, [a]) && Run(s, [a]) == Step(s, a)
    ensures Rotates(s, a) ==> Loses(s, [a])
    ensures (Rotates(s, a) ==> a.reply.refresh.value !in s.issued) ==> IssuesFresh(s, [a])
  {
    hide Step, Enabled, Rotates;
    assert [a] + [] == [a];
    RunOne(s, a, []);
  }

  lemma TwoSteps(s: State, a: Action, b: Action)
    requires Enabled(s, a) && Enabled(Step(s, a), b)
    ensures IsRun(s, [a, b]) && Run(s, [a, b]) == Step(Step(s, a), b)
    ensures Rotates(Step(s, a), b) ==> Loses(s, [a, b])
    ensures Rotates(s, a) && b != Save(s.sent[a.request].sender) ==> Loses(s, [a, b])
    ensures (&& (Rotates(s, a) ==> a.reply.refresh.value !in s.issued)
             && (Rotates(Step(s, a), b) ==> b.reply.refresh.value !in Step(s, a).issued)) ==> IssuesFresh(s, [a, b])
  {
    hide Step, Enabled, Rotates;
    OneStep(Step(s, a), b);
    assert [a, b] == [a] + [b];
    RunOne(s, a, [b]);
  }

  /** The state after a call has sent the token of `c`. */
  function AfterSend(s: State, id: nat, c: Credential): State {
    s.(lock := Some(id), callers := s.callers[id := Caller(Force, Requested(c, |s.sent|))],
       sent := s.sent + [Sent(id, c.refresh, Has(c), false)])
  }

  lemma SendRuns(s: State, id: nat, c: Credential)
    requires s.lock == None && id !in s.callers && s.store == Has(c)
    ensures IsRun(s, SendRun(id)) && IssuesFresh(s, SendRun(id))
    ensures Run(s, SendRun(id)) == AfterSend(s, id, c)
  {
    hide Run, IsRun, Loses, IssuesFresh, IsFresh, Renew;
    var s2 := Step(Step(s, Call(id, Force)), Acquire(id));
    var s4 := Step(Step(s2, ReadLocked(id)), Send(id));
    assert s4 == AfterSend(s, id, c);
    var first, second := [Call(id, Force), Acquire(id)], [ReadLocked(id), Send(id)];
    TwoSteps(s, Call(id, Force), Acquire(id));
    TwoSteps(s2, ReadLocked(id), Send(id));
    RunConcat(s, first, second);
    assert SendRun(id) == first + second;
  }

  /** One call, dropped just before or just after the server answers it. */
  function DroppedRun(r: Reply, early: bool): seq<Action> {
    SendRun(0) + if early then [Drop(0), Grant(0, r)] else [Grant(0, r), Drop(0)]
  }

  /** A call dropped around the server's answer ends the session for good. */
  lemma DroppedCallStrandsSession(c: Credential, now: u64, r: Reply, early: bool)
    requires r.refresh.Some? && r.refresh.value != c.refresh
    ensures var run := DroppedRun(r, early);
            && IsRun(Start(c, now), run) && IssuesFresh(Start(c, now), run) && Loses(Start(c, now), run)
            && !InFlight(Run(Start(c, now), run))
            && Run(Start(c, now), run).store == Has(c) && Run(Start(c, now), run).current == r.refresh.value
  {
    hide Run, IsRun, Loses, IssuesFresh, Step, Enabled, SendRun, InFlight;
    var s0 := Start(c, now);
    var s4 := AfterSend(s0, 0, c);
    assert Asked(s4, c);
    hide AfterSend;
    SendRuns(s0, 0, c);
    if early {
      AnsweredLate(s4, c, r);
      RunConcat(s0, SendRun(0), [Drop(0), Grant(0, r)]);
    } else {
      AnsweredInVain(s4, c, r);
      RunConcat(s0, SendRun(0), [Grant(0, r), Drop(0)]);
    }
  }

  /** The call whose request 0 is under way, with the first token in it. */
  predicate Asked(s: State, c: Credential) {
    && s.store == Has(c) && s.current == c.refresh && s.issued == {c.refresh} && s.lock == Some(0)
    && s.sent == [Sent(0, c.refresh, Has(c), false)]
    && 0 in s.callers && s.callers[0].phase == Requested(c, 0)
  }

  lemma AnsweredLate(s: State, c: Credential, r: Reply)
    requires Asked(s, c) && r.refresh.Some? && r.refresh.value != c.refresh
    ensures var last := [Drop(0), Grant(0, r)];
            && IsRun(s, last) && Loses(s, last) && IssuesFresh(s, last) && !InFlight(Run(s, last))
            && Run(s, last).store == Has(c) && Run(s, last).current == r.refresh.value
  {
    var t := Step(s, Drop(0));
    var u := Step(t, Grant(0, r));
    assert !InFlight(u) && u.store == Has(c) && u.current == r.refresh.value;
    hide Run, IsRun, Loses, IssuesFresh, InFlight;
    TwoSteps(s, Drop(0), Grant(0, r));
  }

  lemma AnsweredInVain(s: State, c: Credential, r: Reply)
    requires Asked(s, c) && r.refresh.Some? && r.refresh.value != c.refresh
    ensures var last := [Grant(0, r), Drop(0)];
            && IsRun(s, last) && Loses(s, last) && IssuesFresh(s, last) && !InFlight(Run(s, last))
            && Run(s, last).store == Has(c) && Run(s, last).current == r.refresh.value
  {
    var t := Step(s, Grant(0, r));
    var u := Step(t, Drop(0));
    assert !InFlight(u) && u.store == Has(c) && u.current == r.refresh.value;
    hide Run, IsRun, Loses, IssuesFresh, InFlight;
    TwoSteps(s, Grant(0, r), Drop(0));
  }

  lemma SendAndDropRuns(s: State, id: nat, c: Credential)
    requires s.lock == None && id !in s.callers && s.store == Has(c)
    ensures IsRun(s, SendRun(id) + [Drop(id)])
    ensures Run(s, SendRun(id) + [Drop(id)]) ==
              AfterSend(s, id, c).(lock := None, callers := s.callers[id := Caller(Force, Dropped)])
  {
    SendRuns(s, id, c);
    var t := AfterSend(s, id, c);
    assert t.callers[id := Caller(Force, Dropped)] == s.callers[id := Caller(Force, Dropped)];
    var u := Step(t, Drop(id));
    assert u == t.(lock := None, callers := s.callers[id := Caller(Force, Dropped)]);
    hide Run, IsRun, Loses, IssuesFresh, Step, Enabled, SendRun;
    OneStep(t, Drop(id));
    RunConcat(s, SendRun(id), [Drop(id)]);
  }

  /** How a request is answered and the answer saved. */
  function SaveRun(id: nat, k: nat, r: Reply): seq<Action> {
    [Grant(k, r)] + [Receive(id), Save(id)]
  }

  lemma SaveRuns(s: State, id: nat, c: Credential, r: Reply)
    requires s.lock == None && id !in s.callers && s.store == Has(c) && s.current == c.refresh
    ensures IsRun(AfterSend(s, id, c), SaveRun(id, |s.sent|, r))
    ensures var t := Run(AfterSend(s, id, c), SaveRun(id, |s.sent|, r));
            && t.lock == None && t.store == Has(Renew(c, r, s.now)) && t.current == Or(r.refresh, c.refresh)
            && t.sent == s.sent + [Sent(id, c.refresh, Has(c), true)]
            && t.callers.Keys == s.callers.Keys + {id}
            && forall other | other in s.callers :: t.callers[other] == s.callers[other]
  {
    hide Run, IsRun, Loses, IssuesFresh, IsFresh, Renew, Rotates;
    var k, s4 := |s.sent|, AfterSend(s, id, c);
    assert s4.sent[k] == Sent(id, c.refresh, Has(c), false);
    var s5 := Step(s4, Grant(k, r));
    assert s5.sent == s.sent + [Sent(id, c.refresh, Has(c), true)];
    var s7 := Step(Step(s5, Receive(id)), Save(id));
    assert s7.sent == s5.sent && s7.store == Has(Renew(c, r, s.now)) && s7.lock == None;
    hide Step, Enabled;
    OneStep(s4, Grant(k, r));
    TwoSteps(s5, Receive(id), Save(id));
    RunConcat(s4, [Grant(k, r)], [Receive(id), Save(id)]);
  }

  lemma SendAndSaveRuns(s: State, id: nat, c: Credential, r: Reply)
    requires s.lock == None && id !in s.callers && s.store == Has(c) && s.current == c.refresh
    ensures IsRun(s, SendRun(id) + SaveRun(id, |s.sent|, r))
    ensures var t := Run(s, SendRun(id) + SaveRun(id, |s.sent|, r));
            && t.lock == None && t.store == Has(Renew(c, r, s.now)) && t.current == Or(r.refresh, c.refresh)
            && t.sent == s.sent + [Sent(id, c.refresh, Has(c), true)]
            && t.callers.Keys == s.callers.Keys + {id}
            && forall other | other in s.callers :: t.callers[other] == s.callers[other]
  {
    hide Run, IsRun, Loses, IssuesFresh, Step, Enabled, Renew, SendRun, SaveRun, AfterSend;
    SendRuns(s, id, c);
    SaveRuns(s, id, c, r);
    RunConcat(s, SendRun(id), SaveRun(id, |s.sent|, r));
  }

  /** The server rotates to `r`'s token, then back in a late answer, then to it again in another. */
  function ReusingRun(r: Reply, back: Reply): seq<Action> {
    (SendRun(0) + [Drop(0)]) + ((SendRun(1) + SaveRun(1, 1, r)) + ((SendRun(2) + [Drop(2)]) + [Grant(2, back), Grant(0, r)]))
  }

  /** Why the server has to issue new tokens: otherwise a lost token may be honoured again. */
  lemma ReusedTokenIsHonoured(c: Credential, now: u64, r: Reply, back: Reply)
    requires r.refresh.Some? && r.refresh.value != c.refresh && back.refresh == Some(c.refresh)
    ensures var run := ReusingRun(r, back);
            && IsRun(Start(c, now), run) && Loses(Start(c, now), run)
            && Run(Start(c, now), run).store.Has?
            && Run(Start(c, now), run).store.credential.refresh == Run(Start(c, now), run).current
  {
    hide Run, IsRun, Loses, IssuesFresh, Step, Enabled, SendRun, SaveRun;
    var s0, d := Start(c, now), Renew(c, r, now);
    SendAndDropRuns(s0, 0, c);
    var s1 := Run(s0, SendRun(0) + [Drop(0)]);
    SendAndSaveRuns(s1, 1, c, r);
    var s2 := Run(s1, SendRun(1) + SaveRun(1, 1, r));
    SendAndDropRuns(s2, 2, d);
    var s3 := Run(s2, SendRun(2) + [Drop(2)]);
    assert s3.sent[0] == Sent(0, c.refresh, Has(c), false) && s3.sent[2] == Sent(2, r.refresh.value, Has(d), false);
    TwoLateAnswers(s3, c.refresh, r, back);
    var last := [Grant(2, back), Grant(0, r)];
    RunConcat(s2, SendRun(2) + [Drop(2)], last);
    RunConcat(s1, SendRun(1) + SaveRun(1, 1, r), (SendRun(2) + [Drop(2)]) + last);
    RunConcat(s0, SendRun(0) + [Drop(0)], (SendRun(1) + SaveRun(1, 1, r)) + ((SendRun(2) + [Drop(2)]) + last));
  }

  lemma TwoLateAnswers(s: State, first: string, r: Reply, back: Reply)
    requires |s.sent| == 3 && s.store.Has? && r.refresh.Some? && r.refresh.value != first && back.refresh == Some(first)
    requires s.sent[0].token == first && !s.sent[0].answered && s.sent[0].sender == 0 && IsFinished(s, 0)
    requires s.sent[2].token == r.refresh.value == s.current && !s.sent[2].answered && s.sent[2].sender == 2 && IsFinished(s, 2)
    ensures var last := [Grant(2, back), Grant(0, r)];
            IsRun(s, last) && Loses(s, last) && Run(s, last).store == s.store && Run(s, last).current == r.refresh.value
  {
    var t := Step(s, Grant(2, back));
    var u := Step(t, Grant(0, r));
    assert Rotates(s, Grant(2, back)) && Enabled(t, Grant(0, r)) && u.current == r.refresh.value && u.store == s.store;
    hide Step, Rotates, IssuesFresh, Enabled, IsRun, Run, Loses;
    TwoSteps(s, Grant(2, back), Grant(0, r));
  }

  // ---------- at most one refresh while the new credential lasts ----------

  predicate StoreIsFresh(s: State) {
    s.store.Has? && IsFresh(s.store.credential, s.now)
  }

  /** From the first refresh saved by an `access_credential` call on, the stored credential is fresh. */
  predicate FreshOnceRenewed(s: State, run: seq<Action>)
    requires IsRun(s, run)
    decreases |run|
  {
    && (s.accessSaves > 0 ==> StoreIsFresh(s))
    && (run != [] ==> FreshOnceRenewed(Step(s, run[0]), run[1..]))
  }

  predicate IsRenewing(p: Phase) {
    p.Renewing? || p.Requested? || p.Granted? || p.Renewed?
  }

  ghost predicate NoAccessRenewal(s: State) {
    forall id | id in s.callers && s.callers[id].kind.Access? :: !IsRenewing(s.callers[id].phase)
  }

  ghost predicate RenewedOnce(s: State) {
    s.accessSaves <= 1 && (s.accessSaves == 1 ==> NoAccessRenewal(s))
  }

  lemma StepKeepsRenewedOnce(s: State, a: Action)
    requires Exclusive(s) && OwnerKnowsStore(s) && Enabled(s, a) && RenewedOnce(s)
    requires s.accessSaves > 0 ==> StoreIsFresh(s)
    ensures RenewedOnce(Step(s, a))
  {
    hide IsFresh, Renew;
  }

  lemma {:induction false} RunKeepsRenewedOnce(s: State, run: seq<Action>, origin: Credential)
    requires Inv(s, origin) && IsRun(s, run) && RenewedOnce(s) && FreshOnceRenewed(s, run)
    ensures RenewedOnce(Run(s, run))
    decreases |run|
  {
    hide RenewedOnce, Step, Enabled, StoreIsFresh, Exclusive, OwnerKnowsStore;
    if run != [] {
      StepKeepsInv(s, run[0], origin);
      StepKeepsRenewedOnce(s, run[0]);
      RunKeepsRenewedOnce(Step(s, run[0]), run[1..], origin);
    }
  }

  /** `access_credential` callers refresh at most once between them while what they saved stays fresh. */
  lemma AccessRefreshesAtMostOnce(origin: Credential, now: u64, run: seq<Action>)
    requires IsRun(Start(origin, now), run) && FreshOnceRenewed(Start(origin, now), run)
    ensures var s := Run(Start(origin, now), run);
            && s.accessSaves <= 1
            && (s.accessSaves == 1 ==>
                  forall id | id in s.callers && s.callers[id].kind.Access? :: !Enabled(s, Send(id)))
  {
    RunKeepsRenewedOnce(Start(origin, now), run, origin);
  }

  /**
  The saved expiry is already sixty seconds early and the check asks for sixty more: a reply helps
  the next caller exactly when its lifetime exceeds two minutes and the clock is not at its end.
  */
  lemma RenewedIsFreshIff(c: Credential, r: Reply, now: u64)
    ensures IsFresh(Renew(c, r, now), now) <==> r.expiresIn > 120 && now < U64_MAX - 120
  {
  }

  // ---------- the lock is never stranded ----------

  /** The step that takes a caller in the critical section towards leaving it. */
  function NextStep(s: State, id: nat): Action
    requires PhaseIs(s, id, InCritical)
  {
    match s.callers[id].phase
    case Locked => ReadLocked(id)
    case Deciding(_) => Decide(id)
    case Renewing(_) => Send(id)
    case Requested(_, _) => Fail(id)
    case Granted(_, _) => Receive(id)
    case _ => Save(id)
  }

  function StepsLeft(p: Phase): nat {
    match p
    case Locked => 4
    case Deciding(_) => 3
    case Renewing(_) => 2
    case Requested(_, _) => 1
    case Granted(_, _) => 2
    case Renewed(_, _, _) => 1
    case _ => 0
  }

  /** Whenever somebody waits, the lock is free or its owner can move on, and leaves within four steps. */
  lemma LockIsReleased(origin: Credential, now: u64, run: seq<Action>, id: nat)
    requires IsRun(Start(origin, now), run)
    requires PhaseIs(Run(Start(origin, now), run), id, (p: Phase) => p.Waiting?)
    ensures var s := Run(Start(origin, now), run);
            if s.lock == None then Enabled(s, Acquire(id))
            else
              && PhaseIs(s, s.lock.value, InCritical)
              && Enabled(s, NextStep(s, s.lock.value))
              && StepsLeft(Step(s, NextStep(s, s.lock.value)).callers[s.lock.value].phase)
                 < StepsLeft(s.callers[s.lock.value].phase)
  {
    hide IsFresh, Renew, Chain, Tracked, SentStoredToken, Run, IsRun, Answer, SatAdd, SatSub, Agrees, Known;
    StartAgrees(origin, now);
    RunKeepsInv(Start(origin, now), run, origin);
  }
}
