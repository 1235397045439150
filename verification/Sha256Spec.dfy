/** SHA-256 as section 6.2.2 of FIPS 180-4 defines it, on 32-bit words. */
module Sha256Spec {
  import opened Bytes

  type Digest32 = s: seq<byte> | |s| == 32 witness seq(32, _ => 0)

  type Block = s: seq<byte> | |s| == 64 witness seq(64, _ => 0)

  /** The eight working variables, and also the eight words of the chaining value. */
  datatype Regs = Regs(a: u32, b: u32, c: u32, d: u32, e: u32, f: u32, g: u32, h: u32)

  const IV: Regs := Regs(0x6A09E667, 0xBB67AE85, 0x3C6EF372, 0xA54FF53A, 0x510E527F, 0x9B05688C, 0x1F83D9AB, 0x5BE0CD19)

  /** The 64 round constants, four to a row. */
  const K: seq<seq<u32>> := [
    [0x428A2F98, 0x71374491, 0xB5C0FBCF, 0xE9B5DBA5],
    [0x3956C25B, 0x59F111F1, 0x923F82A4, 0xAB1C5ED5],
    [0xD807AA98, 0x12835B01, 0x243185BE, 0x550C7DC3],
    [0x72BE5D74, 0x80DEB1FE, 0x9BDC06A7, 0xC19BF174],
    [0xE49B69C1, 0xEFBE4786, 0x0FC19DC6, 0x240CA1CC],
    [0x2DE92C6F, 0x4A7484AA, 0x5CB0A9DC, 0x76F988DA],
    [0x983E5152, 0xA831C66D, 0xB00327C8, 0xBF597FC7],
    [0xC6E00BF3, 0xD5A79147, 0x06CA6351, 0x14292967],
    [0x27B70A85, 0x2E1B2138, 0x4D2C6DFC, 0x53380D13],
    [0x650A7354, 0x766A0ABB, 0x81C2C92E, 0x92722C85],
    [0xA2BFE8A1, 0xA81A664B, 0xC24B8B70, 0xC76C51A3],
    [0xD192E819, 0xD6990624, 0xF40E3585, 0x106AA070],
    [0x19A4C116, 0x1E376C08, 0x2748774C, 0x34B0BCB5],
    [0x391C0CB3, 0x4ED8AA4A, 0x5B9CCA4F, 0x682E6FF3],
    [0x748F82EE, 0x78A5636F, 0x84C87814, 0x8CC70208],
    [0x90BEFFFA, 0xA4506CEB, 0xBEF9A3F7, 0xC67178F2]
  ]

  function Constant(rows: seq<seq<u32>>, i: nat): u32 {
    if i / 4 < |rows| && i % 4 < |rows[i / 4]| then rows[i / 4][i % 4] else 0
  }

  /** The bit operations, on the 32 bits of a word. */
  function BigSigma0(x: u32): u32 {
    ((x as bv32).RotateRight(2) ^ (x as bv32).RotateRight(13) ^ (x as bv32).RotateRight(22)) as int
  }

  function BigSigma1(x: u32): u32 {
    ((x as bv32).RotateRight(6) ^ (x as bv32).RotateRight(11) ^ (x as bv32).RotateRight(25)) as int
  }

  function SmallSigma0(x: u32): u32 {
    ((x as bv32).RotateRight(7) ^ (x as bv32).RotateRight(18) ^ ((x as bv32) >> 3)) as int
  }

  function SmallSigma1(x: u32): u32 {
    ((x as bv32).RotateRight(17) ^ (x as bv32).RotateRight(19) ^ ((x as bv32) >> 10)) as int
  }

  function Ch(x: u32, y: u32, z: u32): u32 {
    (((x as bv32) & (y as bv32)) ^ (!(x as bv32) & (z as bv32))) as int
  }

  function Maj(x: u32, y: u32, z: u32): u32 {
    (((x as bv32) & (y as bv32)) ^ ((x as bv32) & (z as bv32)) ^ ((y as bv32) & (z as bv32))) as int
  }

  function BeWord(b0: byte, b1: byte, b2: byte, b3: byte): u32 {
    0x100_0000 * (b0 as int) + 0x1_0000 * (b1 as int) + 0x100 * (b2 as int) + (b3 as int)
  }

  /** `wrapping_add`. */
  function Add(x: u32, y: u32): u32 { Wrap32(x + y) }

  lemma AddAssociates(x: u32, y: u32, z: u32)
    ensures Add(Add(x, y), z) == Add(x, Add(y, z))
  {
  }

  lemma AddCommutes(x: u32, y: u32)
    ensures Add(x, y) == Add(y, x)
  {
  }

  /**
   * The word operations and the round constants, as values. The schedule and the rounds are written
   * over an arbitrary `Alu`, so that proofs about their structure never look inside a rotation or a
   * sum. `newA` and `newE` are the sums of a round: (h, Sigma1, ch, wk, Sigma0, maj) and (h, Sigma1, ch, wk, d).
   */
  datatype Alu = Alu(k: nat -> u32, add: (u32, u32) -> u32,
                     small0: u32 -> u32, small1: u32 -> u32, big0: u32 -> u32, big1: u32 -> u32,
                     ch: (u32, u32, u32) -> u32, maj: (u32, u32, u32) -> u32,
                     newA: (u32, u32, u32, u32, u32, u32) -> u32, newE: (u32, u32, u32, u32, u32) -> u32)

  /** The operations of the standard, summed in the scalar code's order. */
  const FIPS: Alu := Alu((i: nat) => Constant(K, i), (x, y) => Add(x, y),
                         x => SmallSigma0(x), x => SmallSigma1(x), x => BigSigma0(x), x => BigSigma1(x),
                         (x, y, z) => Ch(x, y, z), (x, y, z) => Maj(x, y, z),
                         (h, s1, ch, wk, s0, maj) => Add(Add(Add(Add(h, s1), ch), wk), Add(s0, maj)),
                         (h, s1, ch, wk, d) => Add(d, Add(Add(Add(h, s1), ch), wk)))

  /** Word `t` of the message schedule of a block. */
  function W(m: Alu, block: Block, t: nat): u32 {
    if t < 16 then BeWord(block[4 * t], block[4 * t + 1], block[4 * t + 2], block[4 * t + 3])
    else m.add(m.add(m.add(W(m, block, t - 16), m.small0(W(m, block, t - 15))), W(m, block, t - 7)), m.small1(W(m, block, t - 2)))
  }

  /** One round; `wk` is the message word plus the round constant. */
  function Round(m: Alu, r: Regs, wk: u32): Regs {
    Regs(m.newA(r.h, m.big1(r.e), m.ch(r.e, r.f, r.g), wk, m.big0(r.a), m.maj(r.a, r.b, r.c)), r.a, r.b, r.c,
         m.newE(r.h, m.big1(r.e), m.ch(r.e, r.f, r.g), wk, r.d), r.e, r.f, r.g)
  }

  /** The working variables after the first `n` rounds. */
  function Rounds(m: Alu, r: Regs, block: Block, n: nat): Regs {
    if n == 0 then r else Round(m, Rounds(m, r, block, n - 1), m.add(W(m, block, n - 1), m.k(n - 1)))
  }

  function AddRegs(m: Alu, x: Regs, y: Regs): Regs {
    Regs(m.add(x.a, y.a), m.add(x.b, y.b), m.add(x.c, y.c), m.add(x.d, y.d),
         m.add(x.e, y.e), m.add(x.f, y.f), m.add(x.g, y.g), m.add(x.h, y.h))
  }

  /** The chaining value after one more block. */
  function CompressBlock(m: Alu, r: Regs, block: Block): Regs {
    AddRegs(m, Rounds(m, r, block, 64), r)
  }

  /** The chaining value after a run of blocks. */
  function CompressRun(m: Alu, r: Regs, blocks: seq<Block>): Regs {
    if blocks == [] then r else CompressBlock(m, CompressRun(m, r, blocks[..|blocks| - 1]), blocks[|blocks| - 1])
  }

  /** The same for an arbitrary step: what buffering and padding depend on. */
  function Fold(step: (Regs, Block) -> Regs, r: Regs, blocks: seq<Block>): Regs {
    if blocks == [] then r else step(Fold(step, r, blocks[..|blocks| - 1]), blocks[|blocks| - 1])
  }

  function Step(m: Alu): (Regs, Block) -> Regs {
    (r: Regs, block: Block) => CompressBlock(m, r, block)
  }

  lemma {:induction false} RunIsFold(m: Alu, r: Regs, blocks: seq<Block>)
    ensures CompressRun(m, r, blocks) == Fold(Step(m), r, blocks)
    decreases |blocks|
  {
    if blocks != [] {
      RunIsFold(m, r, blocks[..|blocks| - 1]);
    }
  }
}
