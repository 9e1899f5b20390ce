/** Bytes, machine integers and their little-endian encodings. */
module Bytes {

  type byte = x: int | 0 <= x < 0x100
  type u32 = x: int | 0 <= x < 0x1_0000_0000
  type u64 = x: int | 0 <= x < 0x1_0000_0000_0000_0000

  const U32_MAX: nat := 0xFFFF_FFFF
  const USIZE_MAX: nat := 0xFFFF_FFFF_FFFF_FFFF

  /** Subtraction that stops at zero. */
  function SatSub(a: nat, b: nat): (d: nat)
    ensures d <= a
  {
    if a < b then 0 else a - b
  }

  function Pow256(n: nat): (p: nat)
    ensures p > 0
  {
    if n == 0 then 1 else 256 * Pow256(n - 1)
  }

  /** The `n` low bytes of `v`, least significant first. */
  function Le(v: nat, n: nat): (bs: seq<byte>)
    ensures |bs| == n
    decreases n, v
  {
    if n == 0 then [] else [v % 256] + Le(v / 256, n - 1)
  }

  function FromLe(bs: seq<byte>): nat {
    if bs == [] then 0 else bs[0] + 256 * FromLe(bs[1..])
  }

  lemma Widths()
    ensures Pow256(2) == 0x1_0000
    ensures Pow256(4) == 0x1_0000_0000
    ensures Pow256(8) == 0x1_0000_0000_0000_0000
  {
  }

  lemma {:induction false} FromLeOfLe(v: nat, n: nat)
    requires v < Pow256(n)
    ensures FromLe(Le(v, n)) == v
  {
    if n > 0 {
      FromLeOfLe(v / 256, n - 1);
      assert Le(v, n)[1..] == Le(v / 256, n - 1);
    }
  }

  lemma {:induction false} LeOfFromLe(bs: seq<byte>)
    ensures FromLe(bs) < Pow256(|bs|)
    ensures Le(FromLe(bs), |bs|) == bs
  {
    if bs != [] {
      LeOfFromLe(bs[1..]);
      assert FromLe(bs) / 256 == FromLe(bs[1..]);
    }
  }
}
