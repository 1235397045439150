/** The Intel SHA extensions path: two registers, five schedule registers, four rounds at a time. */
module Sha256Ni {
  import opened Bytes
  import opened Sha256Spec

  const K32X4: seq<seq<u32>> := [
    [0xE9B5DBA5, 0xB5C0FBCF, 0x71374491, 0x428A2F98],
    [0xAB1C5ED5, 0x923F82A4, 0x59F111F1, 0x3956C25B],
    [0x550C7DC3, 0x243185BE, 0x12835B01, 0xD807AA98],
    [0xC19BF174, 0x9BDC06A7, 0x80DEB1FE, 0x72BE5D74],
    [0x240CA1CC, 0x0FC19DC6, 0xEFBE4786, 0xE49B69C1],
    [0x76F988DA, 0x5CB0A9DC, 0x4A7484AA, 0x2DE92C6F],
    [0xBF597FC7, 0xB00327C8, 0xA831C66D, 0x983E5152],
    [0x14292967, 0x06CA6351, 0xD5A79147, 0xC6E00BF3],
    [0x53380D13, 0x4D2C6DFC, 0x2E1B2138, 0x27B70A85],
    [0x92722C85, 0x81C2C92E, 0x766A0ABB, 0x650A7354],
    [0xC76C51A3, 0xC24B8B70, 0xA81A664B, 0xA2BFE8A1],
    [0x106AA070, 0xF40E3585, 0xD6990624, 0xD192E819],
    [0x34B0BCB5, 0x2748774C, 0x1E376C08, 0x19A4C116],
    [0x682E6FF3, 0x5B9CCA4F, 0x4ED8AA4A, 0x391C0CB3],
    [0x8CC70208, 0x84C87814, 0x78A5636F, 0x748F82EE],
    [0xC67178F2, 0xBEF9A3F7, 0xA4506CEB, 0x90BEFFFA]
  ]

  /** A 128-bit register as four 32-bit lanes, `x0` the lowest. */
  datatype Lanes = Lanes(x0: u32, x1: u32, x2: u32, x3: u32) {
    function At(i: nat): u32
      requires i < 4
    {
      if i == 0 then x0 else if i == 1 then x1 else if i == 2 then x2 else x3
    }
  }

  // ── the intrinsics, by their documented lane functions ───────────────────

  /** `_mm_set_epi32`: the first argument is the highest lane. */
  function SetEpi32(e3: u32, e2: u32, e1: u32, e0: u32): Lanes { Lanes(e0, e1, e2, e3) }

  function AddEpi32(m: Alu, a: Lanes, b: Lanes): Lanes {
    Lanes(m.add(a.x0, b.x0), m.add(a.x1, b.x1), m.add(a.x2, b.x2), m.add(a.x3, b.x3))
  }

  /** Lane `i` of the result is the lane of `a` named by bits `2i..2i+2` of `imm`. */
  function ShuffleEpi32(a: Lanes, imm: nat): Lanes {
    Lanes(a.At(imm % 4), a.At(imm / 4 % 4), a.At(imm / 16 % 4), a.At(imm / 64 % 4))
  }

  /** Lane `i` of the eight lanes `a:b`, lowest first. */
  function PairAt(a: Lanes, b: Lanes, i: nat): u32
    requires i < 8
  {
    if i < 4 then b.At(i) else a.At(i - 4)
  }

  /** The 32 bytes `a:b` shifted right by `bytes`, low half kept. */
  function AlignrEpi8(a: Lanes, b: Lanes, bytes: nat): Lanes
    requires bytes % 4 == 0 && bytes <= 16
  {
    var k := bytes / 4;
    Lanes(PairAt(a, b, k), PairAt(a, b, k + 1), PairAt(a, b, k + 2), PairAt(a, b, k + 3))
  }

  /** A lane whose low 16 bits come from `b` when `lo`, and whose high 16 bits come from `b` when `hi`. */
  function BlendLane(a: u32, b: u32, lo: bool, hi: bool): u32 {
    (if hi then b else a) / 0x1_0000 * 0x1_0000 + (if lo then b else a) % 0x1_0000
  }

  /** 16-bit piece `i` of the result comes from `b` where bit `i` of `imm` is set. */
  function BlendEpi16(a: Lanes, b: Lanes, imm: nat): Lanes {
    Lanes(BlendLane(a.x0, b.x0, imm % 2 == 1, imm / 2 % 2 == 1),
          BlendLane(a.x1, b.x1, imm / 4 % 2 == 1, imm / 8 % 2 == 1),
          BlendLane(a.x2, b.x2, imm / 16 % 2 == 1, imm / 32 % 2 == 1),
          BlendLane(a.x3, b.x3, imm / 64 % 2 == 1, imm / 128 % 2 == 1))
  }

  /** The unit executing the instructions: the standard's operations, with its own order of summing a round. */
  const NI: Alu := FIPS.(newA := (h, s1, ch, wk, s0, maj) => Add(Add(Add(Add(Add(ch, s1), wk), h), maj), s0),
                      newE := (h, s1, ch, wk, d) => Add(Add(Add(Add(ch, s1), wk), h), d))

  /** `_mm_sha256rnds2_epu32`: `cdgh` and `abef` hold the state, the low two lanes of `wk` the inputs. */
  function Sha256Rnds2(m: Alu, cdgh: Lanes, abef: Lanes, wk: Lanes): Lanes {
    var r0 := Regs(abef.x3, abef.x2, cdgh.x3, cdgh.x2, abef.x1, abef.x0, cdgh.x1, cdgh.x0);
    var r1 := Round(m, r0, wk.x0);
    var r2 := Round(m, r1, wk.x1);
    Lanes(r2.f, r2.e, r2.b, r2.a)
  }

  function Sha256Msg1(m: Alu, a: Lanes, b: Lanes): Lanes {
    Lanes(m.add(a.x0, m.small0(a.x1)), m.add(a.x1, m.small0(a.x2)), m.add(a.x2, m.small0(a.x3)), m.add(a.x3, m.small0(b.x0)))
  }

  function Sha256Msg2(m: Alu, a: Lanes, b: Lanes): Lanes {
    var w16 := m.add(a.x0, m.small1(b.x2));
    var w17 := m.add(a.x1, m.small1(b.x3));
    Lanes(w16, w17, m.add(a.x2, m.small1(w16)), m.add(a.x3, m.small1(w17)))
  }

  /** A 16-byte register loaded as little-endian lanes. */
  function LoadBytes(bytes: seq<byte>): Lanes
    requires |bytes| == 16
  {
    Lanes(BeWord(bytes[3], bytes[2], bytes[1], bytes[0]), BeWord(bytes[7], bytes[6], bytes[5], bytes[4]),
          BeWord(bytes[11], bytes[10], bytes[9], bytes[8]), BeWord(bytes[15], bytes[14], bytes[13], bytes[12]))
  }

  /** `_mm_set_epi64x`: the bytes of `lo`, then the bytes of `hi`, least significant first. */
  function SetEpi64x(hi: u64, lo: u64): (r: seq<byte>)
    ensures |r| == 16
  {
    [lo % 0x100, lo / 0x100 % 0x100, lo / 0x1_0000 % 0x100, lo / 0x100_0000 % 0x100,
     lo / 0x1_0000_0000 % 0x100, lo / 0x100_0000_0000 % 0x100, lo / 0x1_0000_0000_0000 % 0x100, lo / 0x100_0000_0000_0000,
     hi % 0x100, hi / 0x100 % 0x100, hi / 0x1_0000 % 0x100, hi / 0x100_0000 % 0x100,
     hi / 0x1_0000_0000 % 0x100, hi / 0x100_0000_0000 % 0x100, hi / 0x1_0000_0000_0000 % 0x100, hi / 0x100_0000_0000_0000]
  }

  /** Byte `i` of the result is the byte of `v` named by the low four bits of mask byte `i`, or zero if its top bit is set. */
  function ShuffleEpi8(v: seq<byte>, mask: seq<byte>): (r: seq<byte>)
    requires |v| == 16 && |mask| == 16
    ensures |r| == 16
  {
    seq(16, i requires 0 <= i < 16 => if mask[i] >= 0x80 then 0 else v[mask[i] % 0x10])
  }

  const MASK: seq<byte> := SetEpi64x(0x0C0D0E0F08090A0B, 0x0405060700010203)

  /** Four message words loaded and byte-swapped. */
  function LoadWords(block: Block, i: nat): Lanes
    requires i < 4
  {
    LoadBytes(ShuffleEpi8(block[16 * i..16 * i + 16], MASK))
  }

  // ── one block ────────────────────────────────────────────────────────────

  /** How the instructions hold `A..H`. */
  function Abef(r: Regs): Lanes { Lanes(r.f, r.e, r.b, r.a) }

  function Cdgh(r: Regs): Lanes { Lanes(r.h, r.g, r.d, r.c) }

  /** The `rounds4!` step: four rounds with the constants `k` of group `i`, as (ABEF, CDGH). */
  function Rounds4(m: Alu, k: seq<u32>, abef: Lanes, cdgh: Lanes, w: Lanes): (Lanes, Lanes)
    requires |k| == 4
  {
    var t1 := AddEpi32(m, w, SetEpi32(k[0], k[1], k[2], k[3]));
    var cdgh' := Sha256Rnds2(m, cdgh, abef, t1);
    var t2 := ShuffleEpi32(t1, 0x0E);
    (Sha256Rnds2(m, abef, cdgh', t2), cdgh')
  }

  /** The `schedule_rounds4!` step's derivation of the next four message words. */
  function Schedule(m: Alu, w0: Lanes, w1: Lanes, w2: Lanes, w3: Lanes): Lanes {
    var t1 := Sha256Msg1(m, w0, w1);
    var t2 := AlignrEpi8(w3, w2, 4);
    Sha256Msg2(m, AddEpi32(m, t1, t2), w3)
  }

  /** Message words `t..t+4` in lane order. */
  function Words(m: Alu, block: Block, t: nat): Lanes {
    Lanes(W(m, block, t), W(m, block, t + 1), W(m, block, t + 2), W(m, block, t + 3))
  }

  /** A table stored back to front within each group, so that lane 0 of group `i` holds `k(4i)`. */
  ghost predicate Reversed(m: Alu, table: seq<seq<u32>>) {
    && |table| == 16
    && forall i :: 0 <= i < 16 ==>
         && |table[i]| == 4
         && SetEpi32(table[i][0], table[i][1], table[i][2], table[i][3]) == Lanes(m.k(4 * i), m.k(4 * i + 1), m.k(4 * i + 2), m.k(4 * i + 3))
  }

  lemma TwoRounds(m: Alu, r: Regs, wk: Lanes)
    ensures var r2 := Round(m, Round(m, r, wk.x0), wk.x1);
            Sha256Rnds2(m, Cdgh(r), Abef(r), wk) == Abef(r2) && Abef(r) == Cdgh(r2)
  {
  }

  /** The registers hold the working variables after `n` rounds. */
  predicate AfterRounds(m: Alu, r: Regs, block: Block, n: nat, abef: Lanes, cdgh: Lanes) {
    var now := Rounds(m, r, block, n);
    abef == Abef(now) && cdgh == Cdgh(now)
  }

  /** The same, counted in groups of four rounds. */
  predicate AtGroup(m: Alu, r: Regs, block: Block, i: nat, abef: Lanes, cdgh: Lanes) {
    AfterRounds(m, r, block, 4 * i, abef, cdgh)
  }

  /** `w` holds the message words of group `i`. */
  predicate GroupWords(m: Alu, block: Block, i: nat, w: Lanes) {
    w == Words(m, block, 4 * i)
  }

  /** Four rounds in a row, on the four lanes of `t`. */
  function FourFrom(m: Alu, r: Regs, t: Lanes): Regs {
    Round(m, Round(m, Round(m, Round(m, r, t.x0), t.x1), t.x2), t.x3)
  }

  lemma GroupRounds(m: Alu, k: seq<u32>, r: Regs, w: Lanes)
    requires |k| == 4
    ensures var next := FourFrom(m, r, AddEpi32(m, w, SetEpi32(k[0], k[1], k[2], k[3])));
            Rounds4(m, k, Abef(r), Cdgh(r), w) == (Abef(next), Cdgh(next))
  {
  }

  lemma RoundStep(m: Alu, r: Regs, block: Block, n: nat)
    ensures Rounds(m, r, block, n + 1) == Round(m, Rounds(m, r, block, n), m.add(W(m, block, n), m.k(n)))
  {
  }

  lemma FourSteps(m: Alu, r: Regs, block: Block, n: nat)
    ensures Rounds(m, r, block, n + 4) ==
            FourFrom(m, Rounds(m, r, block, n), AddEpi32(m, Words(m, block, n), Lanes(m.k(n), m.k(n + 1), m.k(n + 2), m.k(n + 3))))
  {
    RoundStep(m, r, block, n);
    RoundStep(m, r, block, n + 1);
    RoundStep(m, r, block, n + 2);
    RoundStep(m, r, block, n + 3);
  }

  lemma FourRounds(m: Alu, k: seq<u32>, r: Regs, block: Block, n: nat, abef: Lanes, cdgh: Lanes, w: Lanes)
    requires |k| == 4 && SetEpi32(k[0], k[1], k[2], k[3]) == Lanes(m.k(n), m.k(n + 1), m.k(n + 2), m.k(n + 3))
    requires AfterRounds(m, r, block, n, abef, cdgh) && w == Words(m, block, n)
    ensures var next := Rounds4(m, k, abef, cdgh, w); AfterRounds(m, r, block, n + 4, next.0, next.1)
  {
    FourSteps(m, r, block, n);
    GroupRounds(m, k, Rounds(m, r, block, n), w);
  }

  /** The four words derived from the previous sixteen are the next four of the schedule. */
  lemma ScheduleWords(m: Alu, block: Block, t: nat)
    ensures Schedule(m, Words(m, block, t), Words(m, block, t + 4), Words(m, block, t + 8), Words(m, block, t + 12)) == Words(m, block, t + 16)
  {
  }

  lemma MaskBytes()
    ensures MASK == [3, 2, 1, 0, 7, 6, 5, 4, 11, 10, 9, 8, 15, 14, 13, 12]
  {
  }

  /** The mask reverses the bytes of each lane. */
  lemma ShuffleReverses(v: seq<byte>)
    requires |v| == 16
    ensures LoadBytes(ShuffleEpi8(v, MASK)) ==
            Lanes(BeWord(v[0], v[1], v[2], v[3]), BeWord(v[4], v[5], v[6], v[7]),
                  BeWord(v[8], v[9], v[10], v[11]), BeWord(v[12], v[13], v[14], v[15]))
  {
    MaskBytes();
  }

  /** The byte shuffle turns little-endian loads into the big-endian words of the standard. */
  lemma LoadIsWords(m: Alu, block: Block, i: nat)
    requires i < 4
    ensures GroupWords(m, block, i, LoadWords(block, i))
  {
    var t := 4 * i;
    assert 4 * t == 16 * i;
    ShuffleReverses(block[16 * i..16 * i + 16]);
    FirstWords(m, block, t, block[16 * i..16 * i + 16]);
  }

  lemma FirstWords(m: Alu, block: Block, t: nat, v: seq<byte>)
    requires t + 4 <= 16 && v == block[4 * t..4 * t + 16]
    ensures Words(m, block, t) ==
            Lanes(BeWord(v[0], v[1], v[2], v[3]), BeWord(v[4], v[5], v[6], v[7]),
                  BeWord(v[8], v[9], v[10], v[11]), BeWord(v[12], v[13], v[14], v[15]))
  {
  }

  /** One block through the registers. */
  method CompressBlockNi(m: Alu, table: seq<seq<u32>>, ghost r: Regs, block: Block, abef0: Lanes, cdgh0: Lanes) returns (abef: Lanes, cdgh: Lanes)
    requires Reversed(m, table)
    requires abef0 == Abef(r) && cdgh0 == Cdgh(r)
    ensures abef == Abef(CompressBlock(m, r, block)) && cdgh == Cdgh(CompressBlock(m, r, block))
  {
    abef, cdgh := abef0, cdgh0;
    var w0 := LoadWords(block, 0);
    var w1 := LoadWords(block, 1);
    var w2 := LoadWords(block, 2);
    var w3 := LoadWords(block, 3);
    LoadIsWords(m, block, 0);
    LoadIsWords(m, block, 1);
    LoadIsWords(m, block, 2);
    LoadIsWords(m, block, 3);
    var w4: Lanes;

    abef, cdgh := Group(m, table, r, block, abef, cdgh, w0, 0);
    abef, cdgh := Group(m, table, r, block, abef, cdgh, w1, 1);
    abef, cdgh := Group(m, table, r, block, abef, cdgh, w2, 2);
    abef, cdgh := Group(m, table, r, block, abef, cdgh, w3, 3);
    w4, abef, cdgh := ScheduledGroup(m, table, r, block, abef, cdgh, w0, w1, w2, w3, 4);
    w0, abef, cdgh := ScheduledGroup(m, table, r, block, abef, cdgh, w1, w2, w3, w4, 5);
    w1, abef, cdgh := ScheduledGroup(m, table, r, block, abef, cdgh, w2, w3, w4, w0, 6);
    w2, abef, cdgh := ScheduledGroup(m, table, r, block, abef, cdgh, w3, w4, w0, w1, 7);
    w3, abef, cdgh := ScheduledGroup(m, table, r, block, abef, cdgh, w4, w0, w1, w2, 8);
    w4, abef, cdgh := ScheduledGroup(m, table, r, block, abef, cdgh, w0, w1, w2, w3, 9);
    w0, abef, cdgh := ScheduledGroup(m, table, r, block, abef, cdgh, w1, w2, w3, w4, 10);
    w1, abef, cdgh := ScheduledGroup(m, table, r, block, abef, cdgh, w2, w3, w4, w0, 11);
    w2, abef, cdgh := ScheduledGroup(m, table, r, block, abef, cdgh, w3, w4, w0, w1, 12);
    w3, abef, cdgh := ScheduledGroup(m, table, r, block, abef, cdgh, w4, w0, w1, w2, 13);
    w4, abef, cdgh := ScheduledGroup(m, table, r, block, abef, cdgh, w0, w1, w2, w3, 14);
    w0, abef, cdgh := ScheduledGroup(m, table, r, block, abef, cdgh, w1, w2, w3, w4, 15);

    FeedForward(m, r, Rounds(m, r, block, 64));
    abef := AddEpi32(m, abef, abef0);
    cdgh := AddEpi32(m, cdgh, cdgh0);
  }

  lemma FeedForward(m: Alu, r: Regs, s: Regs)
    ensures AddEpi32(m, Abef(s), Abef(r)) == Abef(AddRegs(m, s, r)) && AddEpi32(m, Cdgh(s), Cdgh(r)) == Cdgh(AddRegs(m, s, r))
  {
  }

  /** `rounds4!` on group `i`. */
  method Group(m: Alu, table: seq<seq<u32>>, ghost r: Regs, ghost block: Block, abef0: Lanes, cdgh0: Lanes, w: Lanes, i: nat)
    returns (abef: Lanes, cdgh: Lanes)
    requires Reversed(m, table) && i < 16 && AtGroup(m, r, block, i, abef0, cdgh0) && GroupWords(m, block, i, w)
    ensures AtGroup(m, r, block, i + 1, abef, cdgh)
  {
    FourRounds(m, table[i], r, block, 4 * i, abef0, cdgh0, w);
    var next := Rounds4(m, table[i], abef0, cdgh0, w);
    abef, cdgh := next.0, next.1;
  }

  lemma NextGroup(m: Alu, block: Block, i: nat, w0: Lanes, w1: Lanes, w2: Lanes, w3: Lanes)
    requires i >= 4 && GroupWords(m, block, i - 4, w0) && GroupWords(m, block, i - 3, w1)
    requires GroupWords(m, block, i - 2, w2) && GroupWords(m, block, i - 1, w3)
    ensures GroupWords(m, block, i, Schedule(m, w0, w1, w2, w3))
  {
  }

  /** `schedule_rounds4!` on group `i`: derive its words, then run its rounds. */
  method ScheduledGroup(m: Alu, table: seq<seq<u32>>, ghost r: Regs, ghost block: Block, abef0: Lanes, cdgh0: Lanes,
                        w0: Lanes, w1: Lanes, w2: Lanes, w3: Lanes, i: nat)
    returns (w: Lanes, abef: Lanes, cdgh: Lanes)
    requires Reversed(m, table) && 4 <= i < 16 && AtGroup(m, r, block, i, abef0, cdgh0)
    requires GroupWords(m, block, i - 4, w0) && GroupWords(m, block, i - 3, w1)
    requires GroupWords(m, block, i - 2, w2) && GroupWords(m, block, i - 1, w3)
    ensures GroupWords(m, block, i, w) && AtGroup(m, r, block, i + 1, abef, cdgh)
  {
    NextGroup(m, block, i, w0, w1, w2, w3);
    w := Schedule(m, w0, w1, w2, w3);
    abef, cdgh := Group(m, table, r, block, abef0, cdgh0, w, i);
  }

  // ── a run of blocks ──────────────────────────────────────────────────────

  /** The eight words in memory, as the two loads see them. */
  function Dcba(r: Regs): Lanes { Lanes(r.a, r.b, r.c, r.d) }

  function Hgfe(r: Regs): Lanes { Lanes(r.e, r.f, r.g, r.h) }

  lemma LaneMoves(a: Lanes, b: Lanes)
    ensures ShuffleEpi32(a, 0x1B) == Lanes(a.x3, a.x2, a.x1, a.x0) && ShuffleEpi32(a, 0xB1) == Lanes(a.x1, a.x0, a.x3, a.x2)
    ensures AlignrEpi8(a, b, 8) == Lanes(b.x2, b.x3, a.x0, a.x1) && BlendEpi16(a, b, 0xF0) == Lanes(a.x0, a.x1, b.x2, b.x3)
  {
  }

  /** The reshuffle on the way in: (ABEF, CDGH) from the two loads. */
  function Reshuffle(dcba: Lanes, hgfe: Lanes): (Lanes, Lanes) {
    var cdab := ShuffleEpi32(dcba, 0xB1);
    var efgh := ShuffleEpi32(hgfe, 0x1B);
    (AlignrEpi8(cdab, efgh, 8), BlendEpi16(efgh, cdab, 0xF0))
  }

  lemma PackIn(r: Regs)
    ensures Reshuffle(Dcba(r), Hgfe(r)) == (Abef(r), Cdgh(r))
  {
    var cdab, efgh := Lanes(r.b, r.a, r.d, r.c), Lanes(r.h, r.g, r.f, r.e);
    LaneMoves(Dcba(r), Hgfe(r));
    LaneMoves(Hgfe(r), Dcba(r));
    LaneMoves(cdab, efgh);
    LaneMoves(efgh, cdab);
  }

  /** The reshuffle on the way out: the two stores. */
  function Unshuffle(abef: Lanes, cdgh: Lanes): (Lanes, Lanes) {
    var feba := ShuffleEpi32(abef, 0x1B);
    var dchg := ShuffleEpi32(cdgh, 0xB1);
    (BlendEpi16(feba, dchg, 0xF0), AlignrEpi8(dchg, feba, 8))
  }

  lemma PackOut(r: Regs)
    ensures Unshuffle(Abef(r), Cdgh(r)) == (Dcba(r), Hgfe(r))
  {
    var feba, dchg := Lanes(r.a, r.b, r.e, r.f), Lanes(r.g, r.h, r.c, r.d);
    LaneMoves(Abef(r), Cdgh(r));
    LaneMoves(Cdgh(r), Abef(r));
    LaneMoves(feba, dchg);
    LaneMoves(dchg, feba);
  }

  // ── the hardware against the standard ────────────────────────────────────

  lemma TableRow(i: nat)
    requires i < 16
    ensures |K| == 16 && |K32X4| == 16 && |K[i]| == 4 && K32X4[i] == [K[i][3], K[i][2], K[i][1], K[i][0]]
  {
    if i < 4 {
      assert i == 0 || i == 1 || i == 2 || i == 3;
    } else if i < 8 {
      assert i == 4 || i == 5 || i == 6 || i == 7;
    } else if i < 12 {
      assert i == 8 || i == 9 || i == 10 || i == 11;
    } else {
      assert i == 12 || i == 13 || i == 14 || i == 15;
    }
  }

  lemma RowOf(rows: seq<seq<u32>>, i: nat)
    requires i < |rows| && |rows[i]| == 4
    ensures Constant(rows, 4 * i) == rows[i][0] && Constant(rows, 4 * i + 1) == rows[i][1]
    ensures Constant(rows, 4 * i + 2) == rows[i][2] && Constant(rows, 4 * i + 3) == rows[i][3]
  {
  }

  /** The stored table has the layout the instructions need: back to front within each group. */
  lemma TableIsReversed()
    ensures Reversed(NI, K32X4)
  {
    forall i: nat
      ensures NI.k(i) == Constant(K, i)
    {
    }
    TableRow(0);
    forall i | 0 <= i < 16
      ensures |K32X4[i]| == 4 && SetEpi32(K32X4[i][0], K32X4[i][1], K32X4[i][2], K32X4[i][3])
                                 == Lanes(NI.k(4 * i), NI.k(4 * i + 1), NI.k(4 * i + 2), NI.k(4 * i + 3))
    {
      TableRow(i);
      RowOf(K, i);
    }
  }

  lemma AddOrder(h: u32, s1: u32, ch: u32, wk: u32, s0: u32, maj: u32, d: u32)
    ensures Add(Add(Add(Add(Add(ch, s1), wk), h), maj), s0) == Add(Add(Add(Add(h, s1), ch), wk), Add(s0, maj))
    ensures Add(Add(Add(Add(ch, s1), wk), h), d) == Add(d, Add(Add(Add(h, s1), ch), wk))
  {
    var c := Add(ch, s1);
    var t := Add(Add(c, wk), h);
    assert t == Add(Add(Add(h, s1), ch), wk) by {
      AddAssociates(h, s1, ch);
      AddCommutes(s1, ch);
      AddCommutes(h, c);
      AddAssociates(c, h, wk);
      AddCommutes(h, wk);
      AddAssociates(c, wk, h);
    }
    AddAssociates(t, maj, s0);
    AddCommutes(maj, s0);
    AddCommutes(t, d);
  }

  /** Summing a round in the instruction's order gives the standard's round. */
  lemma SameRound(r: Regs, wk: u32)
    ensures Round(NI, r, wk) == Round(FIPS, r, wk)
  {
    AddOrder(r.h, FIPS.big1(r.e), FIPS.ch(r.e, r.f, r.g), wk, FIPS.big0(r.a), FIPS.maj(r.a, r.b, r.c), r.d);
  }

  /** Two units that differ at most in how a round is summed, and sum it alike. */
  ghost predicate Alike(m: Alu, n: Alu) {
    && m.k == n.k && m.add == n.add && m.small0 == n.small0 && m.small1 == n.small1
    && forall r, wk :: Round(m, r, wk) == Round(n, r, wk)
  }

  lemma {:induction false} SameWord(m: Alu, n: Alu, block: Block, t: nat)
    requires m.add == n.add && m.small0 == n.small0 && m.small1 == n.small1
    ensures W(m, block, t) == W(n, block, t)
  {
    if t >= 16 {
      SameWord(m, n, block, t - 16);
      SameWord(m, n, block, t - 15);
      SameWord(m, n, block, t - 7);
      SameWord(m, n, block, t - 2);
    }
  }

  lemma {:induction false} SameRounds(m: Alu, n: Alu, r: Regs, block: Block, i: nat)
    requires Alike(m, n)
    ensures Rounds(m, r, block, i) == Rounds(n, r, block, i)
  {
    if i > 0 {
      SameRounds(m, n, r, block, i - 1);
      SameWord(m, n, block, i - 1);
    }
  }

  lemma {:induction false} SameRun(m: Alu, n: Alu, r: Regs, blocks: seq<Block>)
    requires Alike(m, n)
    ensures CompressRun(m, r, blocks) == CompressRun(n, r, blocks)
    decreases |blocks|
  {
    if blocks != [] {
      var front, last := blocks[..|blocks| - 1], blocks[|blocks| - 1];
      SameRun(m, n, r, front);
      SameRounds(m, n, CompressRun(m, r, front), last, 64);
    }
  }

  lemma NiAlikeFips()
    ensures Alike(NI, FIPS)
  {
    forall r, wk
      ensures Round(NI, r, wk) == Round(FIPS, r, wk)
    {
      SameRound(r, wk);
    }
  }

  /** The instructions and the scalar rounds compute the same chaining value, for every state and run of blocks. */
  lemma HardwareIsStandard(r: Regs, blocks: seq<Block>)
    ensures CompressRun(NI, r, blocks) == CompressRun(FIPS, r, blocks)
  {
    NiAlikeFips();
    SameRun(NI, FIPS, r, blocks);
  }

  lemma RunOneMore(m: Alu, r: Regs, blocks: seq<Block>, i: nat)
    requires i < |blocks|
    ensures CompressRun(m, r, blocks[..i + 1]) == CompressBlock(m, CompressRun(m, r, blocks[..i]), blocks[i])
  {
    assert blocks[..i + 1][..i] == blocks[..i];
  }

  /** The block loop: the two registers stay live across blocks. */
  method RunBlocks(m: Alu, table: seq<seq<u32>>, ghost state: Regs, abef0: Lanes, cdgh0: Lanes, blocks: seq<Block>)
    returns (abef: Lanes, cdgh: Lanes)
    requires Reversed(m, table) && abef0 == Abef(state) && cdgh0 == Cdgh(state)
    ensures abef == Abef(CompressRun(m, state, blocks)) && cdgh == Cdgh(CompressRun(m, state, blocks))
  {
    abef, cdgh := abef0, cdgh0;
    for i := 0 to |blocks|
      invariant abef == Abef(CompressRun(m, state, blocks[..i])) && cdgh == Cdgh(CompressRun(m, state, blocks[..i]))
    {
      RunOneMore(m, state, blocks, i);
      abef, cdgh := CompressBlockNi(m, table, CompressRun(m, state, blocks[..i]), blocks[i], abef, cdgh);
    }
    assert blocks[..|blocks|] == blocks;
  }

  /** The hardware path over a run of blocks leaves the words the scalar rounds of `std` leave. */
  method CompressBlocksNi(ghost std: Alu, m: Alu, table: seq<seq<u32>>, state: Regs, blocks: seq<Block>) returns (r: Regs)
    requires Alike(m, std) && Reversed(m, table)
    ensures r == CompressRun(std, state, blocks)
  {
    SameRun(m, std, state, blocks);
    PackIn(state);
    var (abef0, cdgh0) := Reshuffle(Dcba(state), Hgfe(state));
    var abef, cdgh := RunBlocks(m, table, state, abef0, cdgh0, blocks);
    PackOut(CompressRun(m, state, blocks));
    var (dcba, hgfe) := Unshuffle(abef, cdgh);
    r := Regs(dcba.x0, dcba.x1, dcba.x2, dcba.x3, hgfe.x0, hgfe.x1, hgfe.x2, hgfe.x3);
  }

  /** The path as shipped: these instructions and this table leave the words the standard defines, for every state and run of blocks. */
  method CompressHardware(state: Regs, blocks: seq<Block>) returns (r: Regs)
    ensures r == CompressRun(FIPS, state, blocks)
  {
    NiAlikeFips();
    TableIsReversed();
    r := CompressBlocksNi(FIPS, NI, K32X4, state, blocks);
  }
}
