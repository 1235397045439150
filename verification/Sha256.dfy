/** Message padding and the digest of a whole message (sections 5.1.1, 5.2.1 and 6.2.2 of FIPS 180-4). */
module Sha256Digest {
  import opened Bytes
  import opened Sha256Spec

  /** The 64-byte blocks of a run of whole blocks. */
  function Blocks(bytes: seq<byte>): (bs: seq<Block>)
    requires |bytes| % 64 == 0
    ensures |bs| == |bytes| / 64
  {
    if bytes == [] then [] else Blocks(bytes[..|bytes| - 64]) + [bytes[|bytes| - 64..]]
  }

  /** The low `n` bytes of `v`, most significant first. */
  function BigEndian(v: nat, n: nat): (bs: seq<byte>)
    ensures |bs| == n
  {
    if n == 0 then [] else BigEndian(v / 0x100, n - 1) + [v % 0x100]
  }

  /** `u64::to_be_bytes`. */
  function Be64(v: u64): (bs: seq<byte>)
    ensures |bs| == 8
  {
    BigEndian(v, 8)
  }

  function Be32(x: u32): (bs: seq<byte>)
    ensures |bs| == 4
  {
    BigEndian(x, 4)
  }

  /** Zero bytes between the `0x80` and the length of an `n`-byte message: the least that fills a block. */
  function ZeroCount(n: nat): (k: nat)
    ensures k < 64 && (n + 1 + k) % 64 == 56
  {
    if n % 64 <= 55 then 55 - n % 64 else 119 - n % 64
  }

  function BitLength(n: nat): u64 { Wrap64(8 * n) }

  /** A message followed by `0x80` and `k` zero bytes. */
  function PaddedWith(msg: seq<byte>, k: nat): (p: seq<byte>)
    ensures |p| == |msg| + 1 + k
  {
    msg + [0x80] + Zeros(k)
  }

  function Padded(msg: seq<byte>): (p: seq<byte>)
    ensures |p| % 64 == 0
  {
    var k := ZeroCount(|msg|);
    assert (|msg| + 1 + k + 8) % 64 == 0;
    PaddedWith(msg, k) + Be64(BitLength(|msg|))
  }

  function Output(r: Regs): (d: Digest32) {
    Be32(r.a) + Be32(r.b) + Be32(r.c) + Be32(r.d) + Be32(r.e) + Be32(r.f) + Be32(r.g) + Be32(r.h)
  }

  /** The digest of a message; `Digest(Step(FIPS), IV, msg)` is the standard's. */
  function Digest(step: (Regs, Block) -> Regs, iv: Regs, msg: seq<byte>): Digest32 {
    Output(Fold(step, iv, Blocks(Padded(msg))))
  }

  /** The bytes of a run of blocks. */
  function Flatten(blocks: seq<Block>): (bytes: seq<byte>)
    ensures |bytes| == 64 * |blocks|
  {
    if blocks == [] then [] else Flatten(blocks[..|blocks| - 1]) + blocks[|blocks| - 1]
  }

  lemma {:induction false} FlattenBlocks(bytes: seq<byte>)
    requires |bytes| % 64 == 0
    ensures Flatten(Blocks(bytes)) == bytes
    decreases |bytes|
  {
    if bytes != [] {
      var front := bytes[..|bytes| - 64];
      FlattenBlocks(front);
      var bs := Blocks(bytes);
      assert bs[..|bs| - 1] == Blocks(front);
      assert front + bytes[|bytes| - 64..] == bytes;
    }
  }

  lemma {:induction false} BlocksFlatten(blocks: seq<Block>)
    ensures Blocks(Flatten(blocks)) == blocks
    decreases |blocks|
  {
    if blocks != [] {
      var front, last := blocks[..|blocks| - 1], blocks[|blocks| - 1];
      var bytes := Flatten(blocks);
      BlocksFlatten(front);
      assert bytes[..|bytes| - 64] == Flatten(front) && bytes[|bytes| - 64..] == last;
    }
  }

  lemma {:induction false} FlattenAppend(xs: seq<Block>, ys: seq<Block>)
    ensures Flatten(xs + ys) == Flatten(xs) + Flatten(ys)
    decreases |ys|
  {
    if ys == [] {
      assert xs + ys == xs;
    } else {
      var front := ys[..|ys| - 1];
      FlattenAppend(xs, front);
      assert (xs + ys)[..|xs + ys| - 1] == xs + front;
    }
  }

  lemma {:induction false} FoldAppend(step: (Regs, Block) -> Regs, r: Regs, xs: seq<Block>, ys: seq<Block>)
    ensures Fold(step, r, xs + ys) == Fold(step, Fold(step, r, xs), ys)
    decreases |ys|
  {
    if ys == [] {
      assert xs + ys == xs;
    } else {
      var front := ys[..|ys| - 1];
      FoldAppend(step, r, xs, front);
      assert (xs + ys)[..|xs + ys| - 1] == xs + front;
    }
  }

  /** The number of zero bytes is the only one below 64 that ends the padding at 56 modulo 64. */
  lemma OneZeroCount(n: nat, k: nat, blocks: nat)
    requires k < 64 && n + 1 + k == 64 * blocks + 56
    ensures k == ZeroCount(n)
  {
  }
}

/** The scalar rounds, as both streaming hashers and the one-shot run them. */
module Sha256Scalar {
  import opened Bytes
  import opened Sha256Spec

  /** How the scalar code sums a round. */
  ghost predicate SumsA(m: Alu, h: u32, s1: u32, ch: u32, k: u32, w: u32, s0: u32, maj: u32) {
    m.newA(h, s1, ch, m.add(w, k), s0, maj) == m.add(m.add(m.add(m.add(m.add(h, s1), ch), k), w), m.add(s0, maj))
  }

  ghost predicate SumsE(m: Alu, h: u32, s1: u32, ch: u32, k: u32, w: u32, d: u32) {
    m.newE(h, s1, ch, m.add(w, k), d) == m.add(d, m.add(m.add(m.add(m.add(h, s1), ch), k), w))
  }

  ghost predicate ScalarOrder(m: Alu) {
    && (forall h, s1, ch, k, w, s0, maj :: SumsA(m, h, s1, ch, k, w, s0, maj))
    && (forall h, s1, ch, k, w, d :: SumsE(m, h, s1, ch, k, w, d))
  }

  /** The feed-forward may add either way round. */
  ghost predicate Commutes(m: Alu) {
    forall x, y :: AddRegs(m, x, y) == AddRegs(m, y, x)
  }

  lemma SumOrder(h: u32, s1: u32, ch: u32, k: u32, w: u32, s0: u32, maj: u32, d: u32)
    ensures Add(Add(Add(Add(Add(h, s1), ch), k), w), Add(s0, maj)) == Add(Add(Add(Add(h, s1), ch), Add(w, k)), Add(s0, maj))
    ensures Add(d, Add(Add(Add(Add(h, s1), ch), k), w)) == Add(d, Add(Add(Add(h, s1), ch), Add(w, k)))
  {
    AddAssociates(Add(Add(h, s1), ch), k, w);
    AddCommutes(k, w);
  }

  lemma FipsNewA(h: u32, s1: u32, ch: u32, k: u32, w: u32, s0: u32, maj: u32)
    ensures SumsA(FIPS, h, s1, ch, k, w, s0, maj)
  {
    SumOrder(h, s1, ch, k, w, s0, maj, 0);
  }

  lemma FipsNewE(h: u32, s1: u32, ch: u32, k: u32, w: u32, d: u32)
    ensures SumsE(FIPS, h, s1, ch, k, w, d)
  {
    SumOrder(h, s1, ch, k, w, 0, 0, d);
  }

  lemma FipsOrder()
    ensures ScalarOrder(FIPS)
  {
    forall h, s1, ch, k, w, s0, maj
      ensures SumsA(FIPS, h, s1, ch, k, w, s0, maj)
    {
      FipsNewA(h, s1, ch, k, w, s0, maj);
    }
    forall h, s1, ch, k, w, d
      ensures SumsE(FIPS, h, s1, ch, k, w, d)
    {
      FipsNewE(h, s1, ch, k, w, d);
    }
  }

  lemma FipsAdd(x: u32, y: u32)
    ensures FIPS.add(x, y) == FIPS.add(y, x)
  {
  }

  lemma FipsCommutes()
    ensures Commutes(FIPS)
  {
    forall x, y
      ensures AddRegs(FIPS, x, y) == AddRegs(FIPS, y, x)
    {
      FipsAdd(x.a, y.a);
      FipsAdd(x.b, y.b);
      FipsAdd(x.c, y.c);
      FipsAdd(x.d, y.d);
      FipsAdd(x.e, y.e);
      FipsAdd(x.f, y.f);
      FipsAdd(x.g, y.g);
      FipsAdd(x.h, y.h);
    }
  }

  /** The first `n` entries of the schedule array. */
  ghost predicate IsSchedule(m: Alu, block: Block, w: seq<u32>, n: nat) {
    n <= |w| && forall j: nat :: j < n ==> w[j] == W(m, block, j)
  }

  lemma FirstWord(m: Alu, block: Block, w: seq<u32>, w': seq<u32>, n: nat)
    requires n < 16 && n < |w| && IsSchedule(m, block, w, n)
    requires w' == w[n := BeWord(block[4 * n], block[4 * n + 1], block[4 * n + 2], block[4 * n + 3])]
    ensures IsSchedule(m, block, w', n + 1)
  {
    EarlyWord(m, block, n);
  }

  lemma EarlyWord(m: Alu, block: Block, n: nat)
    requires n < 16
    ensures W(m, block, n) == BeWord(block[4 * n], block[4 * n + 1], block[4 * n + 2], block[4 * n + 3])
  {
  }

  lemma NextWord(m: Alu, block: Block, w: seq<u32>, w': seq<u32>, n: nat)
    requires 16 <= n < |w| && IsSchedule(m, block, w, n)
    requires w' == w[n := m.add(m.add(m.add(w[n - 16], m.small0(w[n - 15])), w[n - 7]), m.small1(w[n - 2]))]
    ensures IsSchedule(m, block, w', n + 1)
  {
    assert w[n - 16] == W(m, block, n - 16) && w[n - 15] == W(m, block, n - 15);
    assert w[n - 7] == W(m, block, n - 7) && w[n - 2] == W(m, block, n - 2);
  }

  /** The schedule array; `m.add` is `wrapping_add`. */
  method ExpandMessage(m: Alu, block: Block) returns (w: array<u32>)
    ensures fresh(w) && w.Length == 64 && IsSchedule(m, block, w[..], 64)
  {
    w := new u32[64](_ => 0);
    for i := 0 to 16
      invariant IsSchedule(m, block, w[..], i)
    {
      ghost var was := w[..];
      w[i] := BeWord(block[4 * i], block[4 * i + 1], block[4 * i + 2], block[4 * i + 3]);
      FirstWord(m, block, was, w[..], i);
    }
    for i := 16 to 64
      invariant IsSchedule(m, block, w[..], i)
    {
      ghost var was := w[..];
      w[i] := m.add(m.add(m.add(w[i - 16], m.small0(w[i - 15])), w[i - 7]), m.small1(w[i - 2]));
      NextWord(m, block, was, w[..], i);
    }
  }

  lemma NextRound(m: Alu, state: Regs, block: Block, n: nat)
    ensures Rounds(m, state, block, n + 1) == Round(m, Rounds(m, state, block, n), m.add(W(m, block, n), m.k(n)))
  {
  }

  /** The round loop. */
  method RunRounds(m: Alu, state: Regs, ghost block: Block, w: array<u32>) returns (r: Regs)
    requires ScalarOrder(m) && w.Length == 64 && IsSchedule(m, block, w[..], 64)
    ensures r == Rounds(m, state, block, 64)
  {
    ghost var words := w[..];
    r := state;
    var i := 0;
    while i < 64
      invariant i <= 64 && r == Rounds(m, state, block, i)
    {
      NextRound(m, state, block, i);
      assert w[i] == words[i] == W(m, block, i);
      r := RoundBody(m, r, m.k(i), w[i]);
      i := i + 1;
    }
  }

  /** The schedule, the round loop and the feed-forward. */
  method Compress(m: Alu, state: Regs, block: Block) returns (next: Regs)
    requires ScalarOrder(m) && Commutes(m)
    ensures next == CompressBlock(m, state, block)
  {
    var w := ExpandMessage(m, block);
    var r := RunRounds(m, state, block, w);
    next := AddRegs(m, state, r);
  }

  /** The round loop's body. */
  method RoundBody(m: Alu, r: Regs, k: u32, w: u32) returns (next: Regs)
    requires ScalarOrder(m)
    ensures next == Round(m, r, m.add(w, k))
  {
    assert SumsA(m, r.h, m.big1(r.e), m.ch(r.e, r.f, r.g), k, w, m.big0(r.a), m.maj(r.a, r.b, r.c));
    assert SumsE(m, r.h, m.big1(r.e), m.ch(r.e, r.f, r.g), k, w, r.d);
    var t1 := m.add(m.add(m.add(m.add(r.h, m.big1(r.e)), m.ch(r.e, r.f, r.g)), k), w);
    var t2 := m.add(m.big0(r.a), m.maj(r.a, r.b, r.c));
    next := Regs(m.add(t1, t2), r.a, r.b, r.c, m.add(r.d, t1), r.e, r.f, r.g);
  }
}
