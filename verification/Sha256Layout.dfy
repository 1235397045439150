/** The bytes around the compression function (sections 3.1, 5.1.1 and 6.2.2 of FIPS 180-4): every word and length is big-endian. */
module Sha256Layout {
  import opened Bytes
  import opened Sha256Spec
  import opened Sha256Digest

  /** The number whose bytes are `bs`, the most significant first. */
  function FromBig(bs: seq<byte>): nat {
    if bs == [] then 0 else 0x100 * FromBig(bs[..|bs| - 1]) + bs[|bs| - 1]
  }

  lemma {:induction false} BigRoundTrip(v: nat, n: nat)
    requires v < Pow256(n)
    ensures FromBig(BigEndian(v, n)) == v
  {
    if n > 0 {
      BigRoundTrip(v / 0x100, n - 1);
      assert BigEndian(v, n)[..n - 1] == BigEndian(v / 0x100, n - 1);
    }
  }

  lemma FourBig(bs: seq<byte>)
    requires |bs| == 4
    ensures FromBig(bs) == BeWord(bs[0], bs[1], bs[2], bs[3])
  {
    var a: nat, b: nat, c: nat := bs[0], bs[1], bs[2];
    assert bs[..3][..2] == bs[..2] && bs[..2][..1] == bs[..1] && bs[..1][..0] == [];
    assert FromBig(bs[..1]) == a;
    assert FromBig(bs[..2]) == 0x100 * a + b;
    assert FromBig(bs[..3]) == 0x100 * (0x100 * a + b) + c;
  }

  /** The first sixteen schedule words are the block's words. */
  lemma WordIs(m: Alu, block: Block, t: nat)
    requires t < 16
    ensures W(m, block, t) == FromBig(block[4 * t..4 * t + 4])
  {
    var bs := block[4 * t..4 * t + 4];
    FourBig(bs);
    assert bs[0] == block[4 * t] && bs[1] == block[4 * t + 1] && bs[2] == block[4 * t + 2] && bs[3] == block[4 * t + 3];
  }

  lemma WordBig(x: u32)
    ensures FromBig(Be32(x)) == x
  {
    assert Pow256(4) == 0x1_0000_0000;
    BigRoundTrip(x, 4);
  }

  /** The digest is the eight words in order. */
  lemma OutputIs(r: Regs)
    ensures var d := Output(r);
            && FromBig(d[..4]) == r.a && FromBig(d[4..8]) == r.b && FromBig(d[8..12]) == r.c && FromBig(d[12..16]) == r.d
            && FromBig(d[16..20]) == r.e && FromBig(d[20..24]) == r.f && FromBig(d[24..28]) == r.g && FromBig(d[28..]) == r.h
  {
    var d := Output(r);
    assert d[..4] == Be32(r.a) && d[4..8] == Be32(r.b) && d[8..12] == Be32(r.c) && d[12..16] == Be32(r.d);
    assert d[16..20] == Be32(r.e) && d[20..24] == Be32(r.f) && d[24..28] == Be32(r.g) && d[28..] == Be32(r.h);
    WordBig(r.a);
    WordBig(r.b);
    WordBig(r.c);
    WordBig(r.d);
    WordBig(r.e);
    WordBig(r.f);
    WordBig(r.g);
    WordBig(r.h);
  }

  /** The padded message: the message, a one bit, the fewest zeros that fill a block, and the length in bits. */
  lemma PaddedIs(msg: seq<byte>)
    ensures var p, n := Padded(msg), |msg|;
            && |p| % 64 == 0 && n + 9 <= |p| < n + 9 + 64
            && p[..n] == msg && p[n] == 0x80 && (forall i :: n < i < |p| - 8 ==> p[i] == 0)
            && FromBig(p[|p| - 8..]) == 8 * n % 0x1_0000_0000_0000_0000
  {
    var p := Padded(msg);
    Pow256Eight();
    BigRoundTrip(BitLength(|msg|), 8);
    assert p[|p| - 8..] == Be64(BitLength(|msg|));
  }
}
