/**
FNV-1a, 64 bit (section 2 of draft-eastlake-fnv). A step xors a byte into the low end of the
state and multiplies by the prime modulo 2^64; for a fixed byte it permutes the states. Two
inputs that differ in one short window are therefore told apart whatever surrounds the window.
*/
module Fnv {
  import opened Bytes

  const OFFSET_BASIS: u64 := 0xcbf2_9ce4_8422_2325
  const PRIME: nat := 0x0000_0100_0000_01b3
  const MODULUS: nat := 0x1_0000_0000_0000_0000
  const PRIME_INVERSE: nat := 0xce96_5057_aff6_957b

  function Xor(a: nat, b: nat): nat
    decreases a + b
  {
    if a == 0 && b == 0 then 0 else (a % 2 + b % 2) % 2 + 2 * Xor(a / 2, b / 2)
  }

  function Scramble(x: nat): u64 {
    x * PRIME % MODULUS
  }

  function Step(h: u64, b: byte): u64 {
    Scramble(Xor(h, b))
  }

  function HashFrom(h: u64, bs: seq<byte>): u64
    decreases |bs|
  {
    if bs == [] then h else HashFrom(Step(h, bs[0]), bs[1..])
  }

  function Fnv1a64(bs: seq<byte>): u64 {
    HashFrom(OFFSET_BASIS, bs)
  }

  lemma {:induction false} HashFromConcat(h: u64, s: seq<byte>, t: seq<byte>)
    ensures HashFrom(h, s + t) == HashFrom(HashFrom(h, s), t)
    decreases |s|
  {
    if s == [] {
      assert s + t == t;
    } else {
      HashFromConcat(Step(h, s[0]), s[1..], t);
      assert (s + t)[1..] == s[1..] + t;
    }
  }

  /** `fnv1a64`. */
  method Hash(bytes: seq<byte>) returns (hash: u64)
    ensures hash == Fnv1a64(bytes)
  {
    hash := OFFSET_BASIS;
    var i := 0;
    while i < |bytes|
      invariant i <= |bytes| && hash == Fnv1a64(bytes[..i])
    {
      HashFromConcat(OFFSET_BASIS, bytes[..i], [bytes[i]]);
      assert bytes[..i + 1] == bytes[..i] + [bytes[i]];
      hash := Step(hash, bytes[i]);
      i := i + 1;
    }
    assert bytes[..i] == bytes;
  }

  // ---------- exclusive or ----------

  lemma XorParts(a: nat, b: nat)
    ensures Xor(a, b) / 2 == Xor(a / 2, b / 2)
    ensures Xor(a, b) % 2 == (a % 2 + b % 2) % 2
  {
  }

  lemma {:induction false} XorCancels(a: nat, b: nat)
    ensures Xor(Xor(a, b), b) == a
    decreases a + b
  {
    hide Xor;
    XorZero(0);
    if a != 0 || b != 0 {
      XorCancels(a / 2, b / 2);
      XorParts(a, b);
      XorParts(Xor(a, b), b);
    }
  }

  lemma {:induction false} XorCommutes(a: nat, b: nat)
    ensures Xor(a, b) == Xor(b, a)
    decreases a + b
  {
    if a != 0 || b != 0 {
      XorCommutes(a / 2, b / 2);
    }
  }

  lemma XorInjectiveInByte(h: nat, b: nat, c: nat)
    requires Xor(h, b) == Xor(h, c)
    ensures b == c
  {
    hide Xor;
    XorCommutes(h, b);
    XorCommutes(h, c);
    XorCancels(b, h);
    XorCancels(c, h);
  }

  lemma {:induction false} XorZero(a: nat)
    ensures Xor(a, 0) == a
  {
    if a != 0 {
      XorZero(a / 2);
    }
  }

  lemma {:induction false} XorSixteenth(a: nat, b: nat)
    ensures Xor(a, b) / 16 == Xor(a / 16, b / 16)
  {
    XorParts(a, b);
    XorParts(a / 2, b / 2);
    XorParts(a / 4, b / 4);
    XorParts(a / 8, b / 8);
    hide Xor;
    assert a / 2 / 2 == a / 4 && a / 4 / 2 == a / 8 && a / 8 / 2 == a / 16;
    assert b / 2 / 2 == b / 4 && b / 4 / 2 == b / 8 && b / 8 / 2 == b / 16;
  }

  /** A byte only disturbs the low byte of the state. */
  lemma XorKeepsHighBytes(h: u64, b: byte)
    ensures Xor(h, b) / 256 == h / 256
    ensures -255 <= Xor(h, b) - h <= 255 && Xor(h, b) < MODULUS
  {
    hide Xor;
    XorSixteenth(h, b);
    XorSixteenth(h / 16, b / 16);
    XorZero(h / 256);
    assert h / 16 / 16 == h / 256 && b / 16 / 16 == 0;
  }

  // ---------- each step is a permutation of the states ----------

  /** PRIME * PRIME_INVERSE == 887285111055 * MODULUS + 1. */
  lemma InverseArithmetic(x: nat, q: nat, y: nat)
    requires x * PRIME == q * MODULUS + y
    ensures y * PRIME_INVERSE == MODULUS * (887285111055 * x - q * PRIME_INVERSE) + x
  {
  }

  lemma ModUnique(z: int, x: nat)
    requires x < MODULUS
    ensures (MODULUS * z + x) % MODULUS == x
  {
  }

  lemma ScrambleInverse(x: nat)
    requires x < MODULUS
    ensures Scramble(x) * PRIME_INVERSE % MODULUS == x
  {
    var q, y := x * PRIME / MODULUS, Scramble(x);
    hide Scramble;
    InverseArithmetic(x, q, y);
    ModUnique(887285111055 * x - q * PRIME_INVERSE, x);
  }

  lemma ScrambleInjective(x: nat, y: nat)
    requires x < MODULUS && y < MODULUS && Scramble(x) == Scramble(y)
    ensures x == y
  {
    ScrambleInverse(x);
    ScrambleInverse(y);
  }

  lemma StepInjectiveInState(h: u64, g: u64, b: byte)
    requires Step(h, b) == Step(g, b)
    ensures h == g
  {
    XorKeepsHighBytes(h, b);
    XorKeepsHighBytes(g, b);
    ScrambleInjective(Xor(h, b), Xor(g, b));
    XorCancels(h, b);
    XorCancels(g, b);
  }

  /** Two steps meet exactly when their states differ by what their bytes differ in. */
  lemma {:induction false} StepsMeetIff(h: u64, g: u64, b: byte, c: byte)
    ensures Step(h, b) == Step(g, c) <==> Xor(h, b) == Xor(g, c)
  {
    XorKeepsHighBytes(h, b);
    XorKeepsHighBytes(g, c);
    hide Xor, Scramble;
    if Step(h, b) == Step(g, c) {
      ScrambleInjective(Xor(h, b), Xor(g, c));
    }
  }

  // ---------- one digit against two ----------

  const HALF_MODULUS: nat := 0x8000_0000_0000_0000
  const HALF_PRIME: nat := 549755814105       // (PRIME - 1) / 2, which is odd
  const HALF_INVERSE: nat := 522583970646622057

  lemma XorKeepsAllButSix(a: nat, b: nat)
    requires b < 64
    ensures Xor(a, b) / 64 == a / 64
  {
    XorSixteenth(a, b);
    XorParts(a / 16, b / 16);
    XorParts(a / 32, b / 32);
    XorZero(a / 64);
    hide Xor;
    assert Xor(a, b) / 16 / 2 / 2 == Xor(a, b) / 64;
    assert a / 16 / 2 == a / 32 && a / 32 / 2 == a / 64;
  }

  /** HALF_PRIME * HALF_INVERSE == 31148431948 * HALF_MODULUS + 1. */
  lemma HalfInverse(x: nat, q: int, k: int)
    requires x * HALF_PRIME == q * HALF_MODULUS + k
    ensures k * HALF_INVERSE == HALF_MODULUS * (31148431948 * x - q * HALF_INVERSE) + x
  {
  }

  /** The `k`-th state up to its top bit. */
  function Residue(k: int): nat {
    (k * HALF_INVERSE) % HALF_MODULUS
  }

  /** The first `2 * n` states of a list of 126. */
  function Rare(n: nat): (states: set<nat>)
    ensures |states| <= 2 * n
    ensures forall k: int | -31 <= k < n as int - 31 :: Residue(k) in states && Residue(k) + HALF_MODULUS in states
  {
    if n == 0 then {} else
      var k := n - 32;
      Rare(n - 1) + {Residue(k), Residue(k) + HALF_MODULUS}
  }

  lemma EvenDrift(x: nat, q: int, e: int)
    requires x * PRIME == q * MODULUS + x + e
    ensures e == 2 * (x * HALF_PRIME - q * HALF_MODULUS)
  {
  }

  lemma ModHalf(z: int, x: nat)
    requires x < HALF_MODULUS
    ensures (HALF_MODULUS * z + x) % HALF_MODULUS == x
  {
  }

  /** A step that stays within the low six bits starts from one of 126 states of the 2^64. */
  lemma ShortStepIsRare(x: u64, y: u64)
    requires y == Scramble(x) && x / 64 == y / 64
    ensures x in Rare(63)
  {
    var q := x * PRIME / MODULUS;
    var e: int := y - x;
    assert x * PRIME == q * MODULUS + y;
    assert -63 <= e <= 63;
    hide Scramble, Rare;
    EvenDrift(x, q, e);
    var k := x * HALF_PRIME - q * HALF_MODULUS;
    HalfInverse(x, q, k);
    RareTopBit(x, k, 31148431948 * x - q * HALF_INVERSE);
  }

  lemma RareTopBit(x: u64, k: int, z: int)
    requires k * HALF_INVERSE == HALF_MODULUS * z + x && -31 <= k <= 31
    ensures x in Rare(63)
  {
    hide Rare;
    assert Residue(k) in Rare(63) && Residue(k) + HALF_MODULUS in Rare(63);
    if x < HALF_MODULUS {
      ModHalf(z, x);
    } else {
      ModHalf(z + 1, x - HALF_MODULUS);
    }
  }

  /**
  One digit and two digits after a common state meet only if the state, with the first of the two
  digits in it, is one of 126 among 2^64.
  */
  lemma OneAgainstTwoDigits(h: u64, b: byte, c1: byte, c2: byte)
    requires IsDigit(b) && IsDigit(c1) && IsDigit(c2)
    ensures Step(h, b) == Step(Step(h, c1), c2) ==> Xor(h, c1) in Rare(63) && |Rare(63)| <= 126
  {
    hide Xor, Scramble, Rare;
    StepsMeetIff(h, Step(h, c1), b, c2);
    XorKeepsAllButSix(h, b);
    XorKeepsAllButSix(h, c1);
    XorKeepsAllButSix(Step(h, c1), c2);
    XorKeepsHighBytes(h, c1);
    if Step(h, b) == Step(Step(h, c1), c2) {
      ShortStepIsRare(Xor(h, c1), Step(h, c1));
    }
  }

  /** When two continuations of one state lead to the same hash, whatever their lengths. */
  lemma EndingsMeetIff(h: u64, s: seq<byte>, t: seq<byte>)
    requires s != [] && t != []
    ensures HashFrom(h, s) == HashFrom(h, t) <==>
              Xor(HashFrom(h, s[..|s| - 1]), s[|s| - 1]) == Xor(HashFrom(h, t[..|t| - 1]), t[|t| - 1])
  {
    HashEndsWithStep(h, s);
    HashEndsWithStep(h, t);
    hide HashFrom, Xor, Step;
    StepsMeetIff(HashFrom(h, s[..|s| - 1]), HashFrom(h, t[..|t| - 1]), s[|s| - 1], t[|t| - 1]);
  }

  lemma {:induction false} HashEndsWithStep(h: u64, s: seq<byte>)
    requires s != []
    ensures HashFrom(h, s) == Step(HashFrom(h, s[..|s| - 1]), s[|s| - 1])
  {
    var front, last := s[..|s| - 1], [s[|s| - 1]];
    HashFromConcat(h, front, last);
    assert s == front + last && last[1..] == [];
  }

  /** Whatever is hashed afterwards, different states stay different. */
  lemma {:induction false} SuffixKeepsApart(h: u64, g: u64, s: seq<byte>)
    requires h != g
    ensures HashFrom(h, s) != HashFrom(g, s)
    decreases |s|
  {
    if s != [] {
      if Step(h, s[0]) == Step(g, s[0]) {
        StepInjectiveInState(h, g, s[0]);
      }
      SuffixKeepsApart(Step(h, s[0]), Step(g, s[0]), s[1..]);
    }
  }

  // ---------- windows in which two inputs differ ----------

  predicate Drifts(x: int, y: int, k: int) {
    x == PRIME * y + MODULUS * k
  }

  /** How far the states can drift apart in one step, up to a multiple of the modulus. */
  lemma StepDrift(h: u64, g: u64, b: byte, c: byte) returns (e: int, k: int)
    ensures -510 <= e <= 510
    ensures Xor(h, b) - Xor(g, c) == h - g + e
    ensures Drifts(Step(h, b) - Step(g, c), h - g + e, k)
  {
    XorKeepsHighBytes(h, b);
    XorKeepsHighBytes(g, c);
    hide Xor;
    var x, y := Xor(h, b), Xor(g, c);
    e := (x - h) - (y - g);
    k := y * PRIME / MODULUS - x * PRIME / MODULUS;
  }

  predicate IsDigit(b: byte) {
    48 <= b < 58
  }

  predicate AllDigits(bs: seq<byte>) {
    forall i | 0 <= i < |bs| :: IsDigit(bs[i])
  }

  /** The first bytes of a window, hashed from a common state. */
  lemma FirstDrift(h: u64, b: byte, c: byte) returns (d: int, k: int)
    requires b != c
    ensures d != 0 && -255 <= d <= 255 && (IsDigit(b) && IsDigit(c) ==> -15 <= d <= 15)
    ensures Xor(h, b) - Xor(h, c) == d
    ensures Drifts(Step(h, b) - Step(h, c), d, k)
  {
    hide Xor, Step;
    var e;
    e, k := StepDrift(h, h, b, c);
    d := e;
    if d == 0 {
      XorInjectiveInByte(h, b, c);
    }
    XorKeepsHighBytes(h, b);
    XorKeepsHighBytes(h, c);
    XorSixteenth(h, b);
    XorSixteenth(h, c);
  }

  /** 2^40 a + b vanishes modulo 2^64 for small a and b only when both do. */
  lemma NoWrap(a: int, b: int, k: int)
    requires -0x100_0000 < a < 0x100_0000 && -0x80_0000_0000 < b < 0x80_0000_0000
    requires 0x100_0000_0000 * a + b == MODULUS * k
    ensures a == 0 && b == 0
  {
  }

  lemma LastStep(h: u64, g: u64, b: byte, c: byte) returns (e: int)
    ensures -510 <= e <= 510
    ensures Step(h, b) == Step(g, c) ==> h - g + e == 0
  {
    var k;
    e, k := StepDrift(h, g, b, c);
    XorKeepsHighBytes(h, b);
    XorKeepsHighBytes(g, c);
    hide Xor;
    if Step(h, b) == Step(g, c) {
      ScrambleInjective(Xor(h, b), Xor(g, c));
    }
  }

  /** Two one-, two- or three-byte windows whose first bytes differ lead to different states. */
  lemma Window1(h: u64, b: byte, c: byte)
    requires b != c
    ensures Step(h, b) != Step(h, c)
  {
    var e := LastStep(h, h, b, c);
    XorKeepsHighBytes(h, b);
    XorKeepsHighBytes(h, c);
    if Step(h, b) == Step(h, c) {
      ScrambleInjective(Xor(h, b), Xor(h, c));
      XorInjectiveInByte(h, b, c);
    }
  }

  lemma Window2(h: u64, b1: byte, b2: byte, c1: byte, c2: byte)
    requires b1 != c1
    ensures Step(Step(h, b1), b2) != Step(Step(h, c1), c2)
  {
    hide Step;
    var d, k := FirstDrift(h, b1, c1);
    var e := LastStep(Step(h, b1), Step(h, c1), b2, c2);
    if Step(Step(h, b1), b2) == Step(Step(h, c1), c2) {
      NoWrap(d, 435 * d + e, -k);
      assert false;
    }
  }

  lemma Window3(h: u64, b1: byte, b2: byte, b3: byte, c1: byte, c2: byte, c3: byte)
    requires b1 != c1
    ensures Step(Step(Step(h, b1), b2), b3) != Step(Step(Step(h, c1), c2), c3)
  {
    hide Step;
    var d, k := FirstDrift(h, b1, c1);
    var h1, g1 := Step(h, b1), Step(h, c1);
    var e2, k2 := StepDrift(h1, g1, b2, c2);
    var e3 := LastStep(Step(h1, b2), Step(g1, c2), b3, c3);
    if Step(Step(h1, b2), b3) == Step(Step(g1, c2), c3) {
      var wraps := k * PRIME + k2 + 0x1_0000 * d;
      assert 0x100_0000_0000 * (870 * d + e2) + (189225 * d + 435 * e2 + e3) == MODULUS * -wraps;
      NoWrap(870 * d + e2, 189225 * d + 435 * e2 + e3, -wraps);
      assert false;
    }
  }

  /** 2^64 divides 2^120 and 2^80, so only 2^40 times the cross terms of (2^40 + 435)^3 is left of it. */
  lemma Cubed(d: int, k1: int, x1: int, e2: int, k2: int, x2: int, e3: int, k3: int, x3: int)
    requires Drifts(x1, d, k1) && Drifts(x2, x1 + e2, k2) && Drifts(x3, x2 + e3, k3)
    requires -15 <= d <= 15 && -510 <= e2 <= 510 && -510 <= e3 <= 510 && -510 <= x3 <= 510
    ensures d == 0
  {
    var a, b := 567675 * d + 870 * e2 + e3, 82312875 * d + 189225 * e2 + 435 * e3;
    var j2 := k1 * PRIME + k2 + 0x1_0000 * d;
    var c2 := 0x100_0000_0000 * (870 * d + e2) + (189225 * d + 435 * e2);
    assert x2 == c2 + MODULUS * j2;
    var j3 := j2 * PRIME + k3 + 0x1_0000 * (870 * d + e2);
    assert x3 == 0x100_0000_0000 * a + b + MODULUS * j3;
    NoWrap(a, b - x3, -j3);
  }

  lemma Window4(h: u64, b1: byte, b2: byte, b3: byte, b4: byte, c1: byte, c2: byte, c3: byte, c4: byte)
    requires b1 != c1 && IsDigit(b1) && IsDigit(c1)
    ensures Step(Step(Step(Step(h, b1), b2), b3), b4) != Step(Step(Step(Step(h, c1), c2), c3), c4)
  {
    hide Step, Xor, Scramble, Drifts;
    var d, k := FirstDrift(h, b1, c1);
    var h1, g1 := Step(h, b1), Step(h, c1);
    var e2, k2 := StepDrift(h1, g1, b2, c2);
    var h2, g2 := Step(h1, b2), Step(g1, c2);
    var e3, k3 := StepDrift(h2, g2, b3, c3);
    var h3, g3 := Step(h2, b3), Step(g2, c3);
    var e4 := LastStep(h3, g3, b4, c4);
    if Step(h3, b4) == Step(g3, c4) {
      Cubed(d, k, h1 as int - g1, e2, k2, h2 as int - g2, e3, k3, h3 as int - g3);
      assert false;
    }
  }

  /** Windows short enough for the argument: three bytes of any kind, or four decimal digits. */
  predicate ShortWindow(b: seq<byte>, c: seq<byte>) {
    |b| == |c| <= 4 && (|b| == 4 ==> AllDigits(b) && AllDigits(c))
  }

  lemma {:induction false} WindowsKeptApart(h: u64, b: seq<byte>, c: seq<byte>)
    requires ShortWindow(b, c) && b != c
    ensures HashFrom(h, b) != HashFrom(h, c)
    decreases |b|
  {
    hide Step;
    if b[0] == c[0] {
      assert b == [b[0]] + b[1..] && c == [c[0]] + c[1..];
      WindowsKeptApart(Step(h, b[0]), b[1..], c[1..]);
    } else {
      Unrolled(h, b);
      Unrolled(h, c);
      hide HashFrom;
      if |b| == 1 {
        Window1(h, b[0], c[0]);
      } else if |b| == 2 {
        Window2(h, b[0], b[1], c[0], c[1]);
      } else if |b| == 3 {
        Window3(h, b[0], b[1], b[2], c[0], c[1], c[2]);
      } else {
        Window4(h, b[0], b[1], b[2], b[3], c[0], c[1], c[2], c[3]);
      }
    }
  }

  lemma Unrolled(h: u64, b: seq<byte>)
    requires 1 <= |b| <= 4
    ensures HashFrom(h, b) ==
            if |b| == 1 then Step(h, b[0])
            else if |b| == 2 then Step(Step(h, b[0]), b[1])
            else if |b| == 3 then Step(Step(Step(h, b[0]), b[1]), b[2])
            else Step(Step(Step(Step(h, b[0]), b[1]), b[2]), b[3])
    decreases |b|
  {
    hide Step;
    if |b| > 1 {
      Unrolled(Step(h, b[0]), b[1..]);
    }
  }

  /** Keys of equal length that differ only inside one short window never get the same id. */
  lemma DifferentWindowsDifferentIds(prefix: seq<byte>, b: seq<byte>, c: seq<byte>, suffix: seq<byte>)
    requires ShortWindow(b, c) && b != c
    ensures Fnv1a64(prefix + b + suffix) != Fnv1a64(prefix + c + suffix)
  {
    hide Step;
    var h := HashFrom(OFFSET_BASIS, prefix);
    HashFromConcat(OFFSET_BASIS, prefix + b, suffix);
    HashFromConcat(OFFSET_BASIS, prefix + c, suffix);
    HashFromConcat(OFFSET_BASIS, prefix, b);
    HashFromConcat(OFFSET_BASIS, prefix, c);
    WindowsKeptApart(h, b, c);
    SuffixKeepsApart(HashFrom(h, b), HashFrom(h, c), suffix);
  }
}
