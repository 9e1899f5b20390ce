/** Audio edits: their validation, the FFmpeg filter built from them, and bounded output reading. */
module AudioEffects {
  import opened Bytes
  import opened Text
  import opened Wrappers

  const MAX_VOLUME_PERCENT: nat := 400

  datatype Effects = Effects(volume: nat, fadeIn: nat, fadeOut: nat)

  datatype Patch = Patch(volume: Option<nat>, fadeIn: Option<nat>, fadeOut: Option<nat>)

  datatype EffectsError = VolumeOutOfRange | FadesTooLong | NothingChanged

  const DEFAULT_EFFECTS := Effects(100, 0, 0)

  /** `validate_effects`. */
  function EffectsRefusal(e: Effects, duration: nat): Option<EffectsError> {
    if e.volume > MAX_VOLUME_PERCENT then Some(VolumeOutOfRange)
    else if duration == 0 || e.fadeIn > duration || e.fadeOut > duration || e.fadeIn > SatSub(duration, e.fadeOut)
    then Some(FadesTooLong)
    else None
  }

  /** The four comparisons amount to one: the fades fit into the duration side by side. */
  lemma EffectsFitIff(e: Effects, duration: nat)
    ensures EffectsRefusal(e, duration) == None <==>
              e.volume <= MAX_VOLUME_PERCENT && 0 < duration && e.fadeIn + e.fadeOut <= duration
  {
  }

  predicate IsEmpty(p: Patch) {
    p.volume.None? && p.fadeIn.None? && p.fadeOut.None?
  }

  /** `AudioEditPatch::apply`. */
  function ApplyPatch(p: Patch, current: Effects, duration: nat): Result<Effects, EffectsError> {
    var edited := Effects(Or(p.volume, current.volume), Or(p.fadeIn, current.fadeIn), Or(p.fadeOut, current.fadeOut));
    match EffectsRefusal(edited, duration)
    case Some(e) => Err(e)
    case None => if edited == current then Err(NothingChanged) else Ok(edited)
  }

  // ---------- the filter ----------

  function Pad3(n: nat): string
    requires n < 1000
  {
    [Digit(n / 100), Digit(n / 10 % 10), Digit(n % 10)]
  }

  /** `seconds`. */
  function Seconds(ms: nat): string {
    Decimal(ms / 1000) + "." + Pad3(ms % 1000)
  }

  /** Seconds with a three-digit fraction, read as milliseconds. */
  function ReadSeconds(s: string): Option<nat> {
    if |s| < 4 || s[|s| - 4] != '.' || !AsciiDigits(s[..|s| - 4]) || !AsciiDigits(s[|s| - 3..]) then None
    else Some(1000 * ReadDecimal(s[..|s| - 4]) + ReadDecimal(s[|s| - 3..]))
  }

  /** The rendered time is exact to the millisecond. */
  lemma SecondsExact(ms: nat)
    ensures ReadSeconds(Seconds(ms)) == Some(ms)
  {
    var s, p := Seconds(ms), Pad3(ms % 1000);
    DecimalReads(ms / 1000);
    assert s[..|s| - 4] == Decimal(ms / 1000);
    assert s[|s| - 3..] == p;
    Pad3Reads(ms % 1000);
  }

  lemma Pad3Reads(n: nat)
    requires n < 1000
    ensures AsciiDigits(Pad3(n)) && ReadDecimal(Pad3(n)) == n
  {
    var p := Pad3(n);
    assert p[..2] == [Digit(n / 100), Digit(n / 10 % 10)] && p[..2][..1] == [Digit(n / 100)] && p[..1][..0] == "";
    assert ReadDecimal(p[..2][..1]) == n / 100;
    assert ReadDecimal(p[..2]) == 10 * (n / 100) + n / 10 % 10;
  }

  datatype Filter = Volume(percent: nat) | FadeIn(length: string) | FadeOut(start: string, length: string)

  function StartOf(f: Filter): Option<nat> {
    match f
    case Volume(_) => None
    case FadeIn(_) => Some(0)
    case FadeOut(start, _) => ReadSeconds(start)
  }

  function LengthOf(f: Filter): Option<nat> {
    match f
    case Volume(_) => None
    case FadeIn(length) => ReadSeconds(length)
    case FadeOut(_, length) => ReadSeconds(length)
  }

  function Rank(f: Filter): nat {
    match f
    case Volume(_) => 0
    case FadeIn(_) => 1
    case FadeOut(_, _) => 2
  }

  /** What a stage does, with its times read back from the text. */
  predicate StageFits(f: Filter, e: Effects, duration: nat) {
    match f
    case Volume(percent) => percent == e.volume != 100
    case FadeIn(_) => e.fadeIn != 0 && LengthOf(f) == Some(e.fadeIn)
    case FadeOut(_, _) =>
      e.fadeOut != 0 && LengthOf(f) == Some(e.fadeOut) && StartOf(f).Some? && StartOf(f).value + e.fadeOut == duration
  }

  predicate HasStage(filters: seq<Filter>, rank: nat) {
    exists i | 0 <= i < |filters| :: Rank(filters[i]) == rank
  }

  /** The stages apply exactly the effects: volume first, then the fade-in, then the fade-out, each at most once. */
  predicate Describes(filters: seq<Filter>, e: Effects, duration: nat) {
    && (forall i | 0 <= i < |filters| :: StageFits(filters[i], e, duration))
    && (forall i, j | 0 <= i < j < |filters| :: Rank(filters[i]) < Rank(filters[j]))
    && (e.volume != 100 ==> HasStage(filters, 0))
    && (e.fadeIn != 0 ==> HasStage(filters, 1))
    && (e.fadeOut != 0 ==> HasStage(filters, 2))
  }

  function FilterOf(e: Effects, duration: nat): seq<Filter>
    requires e.fadeOut <= duration
  {
    (if e.volume != 100 then [Volume(e.volume)] else []) +
    ((if e.fadeIn != 0 then [FadeIn(Seconds(e.fadeIn))] else []) +
     (if e.fadeOut != 0 then [FadeOut(Seconds(duration - e.fadeOut), Seconds(e.fadeOut))] else []))
  }

  lemma FilterOfDescribes(e: Effects, duration: nat)
    requires e.fadeOut <= duration
    ensures Describes(FilterOf(e, duration), e, duration)
  {
    hide Seconds, ReadSeconds, HasStage;
    SecondsExact(e.fadeIn);
    SecondsExact(e.fadeOut);
    SecondsExact(duration - e.fadeOut);
    var v, i, o := Volume(e.volume), FadeIn(Seconds(e.fadeIn)), FadeOut(Seconds(duration - e.fadeOut), Seconds(e.fadeOut));
    var filters := FilterOf(e, duration);
    if e.volume != 100 {
      StageIsThere(filters, v, 0);
    }
    if e.fadeIn != 0 {
      StageIsThere(filters, i, if e.volume != 100 then 1 else 0);
    }
    if e.fadeOut != 0 {
      StageIsThere(filters, o, |filters| - 1);
    }
  }

  lemma StageIsThere(filters: seq<Filter>, f: Filter, i: nat)
    requires i < |filters| && filters[i] == f
    ensures HasStage(filters, Rank(f))
  {
  }

  /** `audio_filter`: the stages, unless the unsigned subtraction underflows. */
  method AudioFilter(e: Effects, duration: nat) returns (r: Result<seq<Filter>, ()>)
    ensures r.Err? <==> e.fadeOut > duration
    ensures r.Ok? ==> Describes(r.value, e, duration) && r.value == FilterOf(e, duration)
  {
    hide Seconds, ReadSeconds, Describes;
    var filters: seq<Filter> := [];
    if e.volume != 100 {
      filters := filters + [Volume(e.volume)];
    }
    if e.fadeIn != 0 {
      filters := filters + [FadeIn(Seconds(e.fadeIn))];
    }
    if e.fadeOut != 0 {
      if duration < e.fadeOut {
        return Err(());
      }
      filters := filters + [FadeOut(Seconds(duration - e.fadeOut), Seconds(e.fadeOut))];
    }
    FilterOfDescribes(e, duration);
    assert filters == FilterOf(e, duration);
    r := Ok(filters);
  }

  /** The fades lie inside the sound one after the other, and the fade-out ends with it. */
  predicate FadesInside(filters: seq<Filter>, duration: nat) {
    && (forall f | f in filters && f.FadeIn? :: LengthOf(f).Some? && LengthOf(f).value <= duration)
    && (forall f | f in filters && f.FadeOut? ::
          LengthOf(f).Some? && StartOf(f).Some? && StartOf(f).value + LengthOf(f).value == duration)
    && (forall f, g | f in filters && g in filters && f.FadeIn? && g.FadeOut? ::
          LengthOf(f).Some? && StartOf(g).Some? && LengthOf(f).value <= StartOf(g).value)
  }

  /** Whatever describes validated effects keeps the fades apart and inside the sound. */
  lemma FadesFitTheSound(filters: seq<Filter>, e: Effects, duration: nat)
    requires EffectsRefusal(e, duration) == None && Describes(filters, e, duration)
    ensures FadesInside(filters, duration)
  {
    EffectsFitIff(e, duration);
    hide Seconds, ReadSeconds, EffectsRefusal;
    forall f | f in filters ensures StageFits(f, e, duration) {
    }
  }

  /** For this duration the filter can be built, and its fades lie inside the sound. */
  predicate HasFittingFilter(e: Effects, duration: nat) {
    e.fadeOut <= duration && FadesInside(FilterOf(e, duration), duration)
  }

  lemma ValidatedHasFilter(e: Effects, duration: nat)
    requires EffectsRefusal(e, duration) == None
    ensures HasFittingFilter(e, duration)
  {
    hide Describes, FadesInside, FilterOf;
    FilterOfDescribes(e, duration);
    FadesFitTheSound(FilterOf(e, duration), e, duration);
  }

  // ---------- bounded reading ----------

  function Flatten(chunks: seq<seq<byte>>): seq<byte> {
    if chunks == [] then [] else Flatten(chunks[..|chunks| - 1]) + chunks[|chunks| - 1]
  }

  lemma FlattenPrefix(chunks: seq<seq<byte>>, n: nat)
    requires n < |chunks|
    ensures Flatten(chunks[..n + 1]) == Flatten(chunks[..n]) + chunks[n]
  {
    assert chunks[..n + 1][..n] == chunks[..n];
  }

  /**
  `read_bounded` over the chunks a pipe delivers, the last read being empty: all of the output when
  it fits, and an error when it does not; never more than `cap` bytes are kept.
  */
  method ReadBounded(chunks: seq<seq<byte>>, cap: nat) returns (r: Result<seq<byte>, ()>)
    requires forall i | 0 <= i < |chunks| :: chunks[i] != []
    ensures r == if |Flatten(chunks)| <= cap then Ok(Flatten(chunks)) else Err(())
  {
    var kept: seq<byte> := [];
    var total := 0;
    var n := 0;
    while n < |chunks|
      invariant n <= |chunks|
      invariant total == |Flatten(chunks[..n])|
      invariant kept == Flatten(chunks[..n])[..if total < cap then total else cap]
    {
      var buffer := chunks[n];
      FlattenPrefix(chunks, n);
      ghost var before, after := Flatten(chunks[..n]), Flatten(chunks[..n + 1]);
      total := total + |buffer|;
      if |kept| < cap {
        var take := if |buffer| < cap - |kept| then |buffer| else cap - |kept|;
        assert kept == before;
        assert kept + buffer[..take] == after[..|kept| + take];
        kept := kept + buffer[..take];
      } else {
        assert after[..cap] == before[..cap];
      }
      n := n + 1;
    }
    assert chunks[..n] == chunks;
    if total > cap {
      return Err(());
    }
    assert Flatten(chunks)[..total] == Flatten(chunks);
    r := Ok(kept);
  }
}
