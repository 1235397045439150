/** Bytes, fixed-width unsigned integers and their little- and big-endian layouts. */
module Bytes {
  type byte = b: int | 0 <= b < 0x100
  type u16 = x: int | 0 <= x < 0x1_0000
  type u32 = x: int | 0 <= x < 0x1_0000_0000
  type u64 = x: int | 0 <= x < 0x1_0000_0000_0000_0000

  const TWO_64: int := 0x1_0000_0000_0000_0000

  /** Wrapping conversions: what release-mode arithmetic leaves in a machine word. */
  function Wrap32(x: int): u32 { x % 0x1_0000_0000 }

  function Wrap64(x: int): u64 { x % 0x1_0000_0000_0000_0000 }

  lemma WrapSmall(x: nat)
    requires x < 0x1_0000_0000_0000_0000
    ensures Wrap64(x) == x
  {
  }

  /** The `n` little-endian bytes of `v`, least significant first. */
  function LittleEndian(v: nat, n: nat): (bs: seq<byte>)
    ensures |bs| == n
  {
    if n == 0 then [] else [v % 0x100] + LittleEndian(v / 0x100, n - 1)
  }

  /** The number whose little-endian bytes are `bs`. */
  function FromLittleEndian(bs: seq<byte>): nat {
    if bs == [] then 0 else bs[0] + 0x100 * FromLittleEndian(bs[1..])
  }

  /** 256 to the power `n`. */
  function Pow256(n: nat): (p: nat)
    ensures p > 0
  {
    if n == 0 then 1 else 0x100 * Pow256(n - 1)
  }

  lemma {:induction false} LittleEndianRoundTrip(v: nat, n: nat)
    requires v < Pow256(n)
    ensures FromLittleEndian(LittleEndian(v, n)) == v
  {
    if n > 0 {
      LittleEndianRoundTrip(v / 0x100, n - 1);
      assert LittleEndian(v, n)[1..] == LittleEndian(v / 0x100, n - 1);
    }
  }

  lemma {:induction false} FromLittleEndianBound(bs: seq<byte>)
    ensures FromLittleEndian(bs) < Pow256(|bs|)
  {
    if bs != [] {
      FromLittleEndianBound(bs[1..]);
    }
  }

  lemma LowByte(w: nat, above: nat)
    ensures (w + 0x100 * above) % 0x100 == w % 0x100 && (w + 0x100 * above) / 0x100 == w / 0x100 + above
  {
  }

  lemma {:induction false} BytesRoundTrip(bs: seq<byte>)
    ensures LittleEndian(FromLittleEndian(bs), |bs|) == bs
  {
    if bs != [] {
      BytesRoundTrip(bs[1..]);
      LowByte(bs[0], FromLittleEndian(bs[1..]));
    }
  }

  lemma Pow256Eight()
    ensures Pow256(8) == 0x1_0000_0000_0000_0000
  {
    assert Pow256(4) == 0x1_0000_0000;
    assert Pow256(8) == 0x100 * Pow256(7) && Pow256(7) == 0x100 * Pow256(6) && Pow256(6) == 0x100 * Pow256(5) && Pow256(5) == 0x100 * Pow256(4);
  }

  lemma WordRoundTrip(v: u64)
    ensures FromLittleEndian(LittleEndian(v, 8)) == v
  {
    Pow256Eight();
    LittleEndianRoundTrip(v, 8);
  }

  function Pow2(n: nat): (p: nat)
    ensures p > 0
  {
    if n == 0 then 1 else 2 * Pow2(n - 1)
  }

  function Min(a: nat, b: nat): nat { if a < b then a else b }

  function Zeros(n: nat): (z: seq<byte>)
    ensures |z| == n && forall i :: 0 <= i < n ==> z[i] == 0
  {
    seq(n, _ => 0)
  }

  function ReadLe16(s: seq<byte>, off: nat): (v: u16)
    requires off + 2 <= |s|
  {
    (s[off] as int) + 0x100 * (s[off + 1] as int)
  }

  function ReadLe32(s: seq<byte>, off: nat): (v: u32)
    requires off + 4 <= |s|
  {
    (s[off] as int) + 0x100 * (s[off + 1] as int) + 0x1_0000 * (s[off + 2] as int) + 0x100_0000 * (s[off + 3] as int)
  }

  function ReadLe64(s: seq<byte>, off: nat): (v: u64)
    requires off + 8 <= |s|
  {
    (ReadLe32(s, off) as int) + 0x1_0000_0000 * (ReadLe32(s, off + 4) as int)
  }

  /** `s` with the bytes at `off` replaced by `bs`. */
  function Splice(s: seq<byte>, off: nat, bs: seq<byte>): (t: seq<byte>)
    requires off + |bs| <= |s|
    ensures |t| == |s|
    ensures forall p :: 0 <= p < |s| ==> t[p] == if off <= p < off + |bs| then bs[p - off] else s[p]
  {
    s[..off] + bs + s[off + |bs|..]
  }

  /** `dst[at..at + |bs|].copy_from_slice(bs)`. */
  method Store(dst: array<byte>, at: nat, bs: seq<byte>)
    requires at + |bs| <= dst.Length
    modifies dst
    ensures dst[..] == Splice(old(dst[..]), at, bs)
  {
    forall k | 0 <= k < |bs| {
      dst[at + k] := bs[k];
    }
  }
}
