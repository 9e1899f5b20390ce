/**
Parsers that consume a prefix of a byte sequence, and what it means for one to invert an encoder
exactly. Repetition preserves exactness.
*/
module Codecs {
  import opened Bytes
  import opened Wrappers

  type Parser<!T> = seq<byte> -> Option<(T, seq<byte>)>

  // ---------- byte sequence plumbing ----------

  lemma Assoc(a: seq<byte>, b: seq<byte>, c: seq<byte>)
    ensures (a + b) + c == a + (b + c)
  {
  }

  lemma Cut(s: seq<byte>, a: seq<byte>, b: seq<byte>, rest: seq<byte>)
    requires s == (a + b) + rest
    ensures s[..|a|] == a && s[|a|..] == b + rest
  {
  }

  lemma Rejoin(s: seq<byte>, n: nat, b: seq<byte>, rest: seq<byte>)
    requires n <= |s| && s[n..] == b + rest
    ensures s == (s[..n] + b) + rest
  {
  }

  // ---------- exactness ----------

  /** `p` reads exactly the encodings of acceptable values, and nothing else. */
  ghost predicate Exact<T(!new)>(p: Parser<T>, enc: T -> seq<byte>, ok: T -> bool) {
    forall s, x, rest :: ExactAt(p, enc, ok, s, x, rest)
  }

  ghost predicate ExactAt<T>(p: Parser<T>, enc: T -> seq<byte>, ok: T -> bool, s: seq<byte>, x: T, rest: seq<byte>) {
    p(s) == Some((x, rest)) <==> ok(x) && s == enc(x) + rest
  }

  function EncodeMany<T>(enc: T -> seq<byte>, xs: seq<T>): seq<byte> {
    if xs == [] then [] else enc(xs[0]) + EncodeMany(enc, xs[1..])
  }

  function Many<T>(p: Parser<T>, s: seq<byte>, n: nat): (r: Option<(seq<T>, seq<byte>)>)
    ensures r.Some? ==> |r.value.0| == n
    decreases n
  {
    if n == 0 then Some(([], s))
    else
      match p(s)
      case None => None
      case Some((x, s1)) =>
        match Many(p, s1, n - 1)
        case None => None
        case Some((xs, rest)) => Some(([x] + xs, rest))
  }

  ghost predicate AllOk<T>(ok: T -> bool, xs: seq<T>) {
    forall i | 0 <= i < |xs| :: ok(xs[i])
  }

  lemma {:induction false} ManyParsedIsEncoded<T(!new)>(p: Parser<T>, enc: T -> seq<byte>, ok: T -> bool, s: seq<byte>, n: nat)
    requires Exact(p, enc, ok)
    ensures match Many(p, s, n)
            case None => true
            case Some((xs, rest)) => AllOk(ok, xs) && s == EncodeMany(enc, xs) + rest
    decreases n
  {
    if n == 0 {
      assert s == [] + s;
    } else if p(s).Some? {
      var (x, s1) := p(s).value;
      assert ExactAt(p, enc, ok, s, x, s1);
      ManyParsedIsEncoded(p, enc, ok, s1, n - 1);
      if Many(p, s1, n - 1).Some? {
        var (xs, rest) := Many(p, s1, n - 1).value;
        assert ([x] + xs)[1..] == xs;
        Assoc(enc(x), EncodeMany(enc, xs), rest);
      }
    }
  }

  lemma {:induction false} ManyEncodedParses<T(!new)>(p: Parser<T>, enc: T -> seq<byte>, ok: T -> bool, xs: seq<T>, rest: seq<byte>)
    requires Exact(p, enc, ok) && AllOk(ok, xs)
    ensures Many(p, EncodeMany(enc, xs) + rest, |xs|) == Some((xs, rest))
  {
    var s := EncodeMany(enc, xs) + rest;
    if xs == [] {
      assert s == rest;
    } else {
      var s1 := EncodeMany(enc, xs[1..]) + rest;
      Assoc(enc(xs[0]), EncodeMany(enc, xs[1..]), rest);
      assert ExactAt(p, enc, ok, s, xs[0], s1);
      ManyEncodedParses(p, enc, ok, xs[1..], rest);
      assert xs == [xs[0]] + xs[1..];
    }
  }

  lemma ManyExact<T(!new)>(p: Parser<T>, enc: T -> seq<byte>, ok: T -> bool, s: seq<byte>, n: nat, xs: seq<T>, rest: seq<byte>)
    requires Exact(p, enc, ok)
    ensures Many(p, s, n) == Some((xs, rest)) <==> |xs| == n && AllOk(ok, xs) && s == EncodeMany(enc, xs) + rest
  {
    ManyParsedIsEncoded(p, enc, ok, s, n);
    if |xs| == n && AllOk(ok, xs) && s == EncodeMany(enc, xs) + rest {
      ManyEncodedParses(p, enc, ok, xs, rest);
    }
  }

  lemma {:induction false} EncodeManyConcat<T>(enc: T -> seq<byte>, xs: seq<T>, ys: seq<T>)
    ensures EncodeMany(enc, xs + ys) == EncodeMany(enc, xs) + EncodeMany(enc, ys)
  {
    if xs == [] {
      assert xs + ys == ys;
    } else {
      EncodeManyConcat(enc, xs[1..], ys);
      assert (xs + ys)[1..] == xs[1..] + ys;
      Assoc(enc(xs[0]), EncodeMany(enc, xs[1..]), EncodeMany(enc, ys));
    }
  }

  lemma EncodeManySnoc<T>(enc: T -> seq<byte>, xs: seq<T>, x: T)
    ensures EncodeMany(enc, xs + [x]) == EncodeMany(enc, xs) + enc(x)
  {
    EncodeManyConcat(enc, xs, [x]);
    assert [x][1..] == [];
    assert enc(x) + [] == enc(x);
  }

  lemma {:induction false} EncodeManyInjective<T(!new)>(p: Parser<T>, enc: T -> seq<byte>, ok: T -> bool, xs: seq<T>, ys: seq<T>)
    requires Exact(p, enc, ok) && AllOk(ok, xs) && AllOk(ok, ys)
    requires forall x | ok(x) :: enc(x) != []
    requires EncodeMany(enc, xs) == EncodeMany(enc, ys)
    ensures xs == ys
  {
    if xs != [] && ys != [] {
      assert ExactAt(p, enc, ok, EncodeMany(enc, xs), xs[0], EncodeMany(enc, xs[1..]));
      assert ExactAt(p, enc, ok, EncodeMany(enc, ys), ys[0], EncodeMany(enc, ys[1..]));
      EncodeManyInjective(p, enc, ok, xs[1..], ys[1..]);
      assert xs == [xs[0]] + xs[1..] && ys == [ys[0]] + ys[1..];
    } else {
      EncodesNothing(enc, ok, xs);
      EncodesNothing(enc, ok, ys);
    }
  }

  lemma EncodesNothing<T(!new)>(enc: T -> seq<byte>, ok: T -> bool, xs: seq<T>)
    requires AllOk(ok, xs) && forall x | ok(x) :: enc(x) != []
    ensures EncodeMany(enc, xs) == [] <==> xs == []
  {
  }

  // ---------- reading in a loop ----------

  /** What reading `n` more values from `s` yields after `done`. */
  ghost function Outcome<T>(p: Parser<T>, done: seq<T>, s: seq<byte>, n: nat): Option<seq<T>> {
    match Many(p, s, n)
    case None => None
    case Some((xs, _)) => Some(done + xs)
  }

  lemma OutcomeStep<T>(p: Parser<T>, done: seq<T>, s: seq<byte>, n: nat)
    requires n > 0
    ensures match p(s)
            case None => Outcome(p, done, s, n) == None
            case Some((x, s1)) => Outcome(p, done, s, n) == Outcome(p, done + [x], s1, n - 1)
  {
    if p(s).Some? {
      var (x, s1) := p(s).value;
      if Many(p, s1, n - 1).Some? {
        var xs := Many(p, s1, n - 1).value.0;
        assert done + ([x] + xs) == (done + [x]) + xs;
      }
    }
  }

  lemma OutcomeEnds<T>(p: Parser<T>, done: seq<T>, s: seq<byte>, n: nat)
    ensures Outcome(p, done, s, 0) == Some(done)
    ensures match Many(p, s, n)
            case None => Outcome(p, [], s, n) == None
            case Some((xs, _)) => Outcome(p, [], s, n) == Some(xs)
  {
    assert done + [] == done;
    if Many(p, s, n).Some? {
      assert [] + Many(p, s, n).value.0 == Many(p, s, n).value.0;
    }
  }
}
