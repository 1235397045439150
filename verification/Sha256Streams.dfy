/** What a streaming hasher holds: whole blocks folded into the chaining value, the rest buffered. */
module Sha256Absorb {
  import opened Bytes
  import opened Sha256Spec
  import opened Sha256Digest
  /** `blocks` are folded into `h` and `tail` is buffered; together they are `msg`. */
  ghost predicate Absorbed(step: (Regs, Block) -> Regs, iv: Regs, msg: seq<byte>, blocks: seq<Block>, tail: seq<byte>, h: Regs) {
    |tail| < 64 && msg == Flatten(blocks) + tail && h == Fold(step, iv, blocks)
  }

  lemma Buffered(step: (Regs, Block) -> Regs, iv: Regs, msg: seq<byte>, blocks: seq<Block>, tail: seq<byte>, h: Regs, d: seq<byte>)
    requires Absorbed(step, iv, msg, blocks, tail, h) && |tail| + |d| < 64
    ensures Absorbed(step, iv, msg + d, blocks, tail + d, h)
  {
  }

  lemma Filled(step: (Regs, Block) -> Regs, iv: Regs, msg: seq<byte>, blocks: seq<Block>, tail: seq<byte>, h: Regs, d: seq<byte>, block: Block)
    requires Absorbed(step, iv, msg, blocks, tail, h) && block == tail + d
    ensures Absorbed(step, iv, msg + d, blocks + [block], [], step(h, block))
  {
  }

  /** Whole blocks are folded and the rest becomes the buffer. */
  lemma TakenIn(step: (Regs, Block) -> Regs, iv: Regs, msg: seq<byte>, blocks: seq<Block>, h: Regs, front: seq<byte>, rest: seq<byte>)
    requires Absorbed(step, iv, msg, blocks, [], h) && |front| % 64 == 0 && |rest| < 64
    ensures Absorbed(step, iv, msg + (front + rest), blocks + Blocks(front), rest, Fold(step, h, Blocks(front)))
  {
    var more := Blocks(front);
    FlattenBlocks(front);
    FlattenAppend(blocks, more);
    FoldAppend(step, iv, blocks, more);
    Reassociate(Flatten(blocks), front, rest);
  }

  lemma Reassociate(a: seq<byte>, b: seq<byte>, c: seq<byte>)
    ensures (a + []) + (b + c) == (a + b) + c
  {
  }

  lemma Split(m: seq<byte>, d: seq<byte>, take: nat)
    requires take <= |d|
    ensures m + d[..take] + d[take..] == m + d
    ensures take == |d| ==> m + d[..take] == m + d
  {
  }

  /** The wrapping count of the bytes of a message. */
  function Count(m: seq<byte>): u64 { Wrap64(|m|) }

  lemma CountAppend(m: seq<byte>, d: seq<byte>)
    ensures Wrap64(Count(m) + |d|) == Count(m + d)
  {
  }

  lemma CountBits(m: seq<byte>)
    ensures Wrap64(Count(m) * 8) == BitLength(|m|)
  {
  }

  /** A padded message with nothing left in the buffer: the chaining value is the digest's. */
  lemma Complete(step: (Regs, Block) -> Regs, iv: Regs, msg: seq<byte>, padded: seq<byte>, blocks: seq<Block>, h: Regs)
    requires padded == Padded(msg) && Absorbed(step, iv, padded, blocks, [], h)
    ensures Output(h) == Digest(step, iv, msg)
  {
    assert Flatten(blocks) + [] == Flatten(blocks);
    BlocksFlatten(blocks);
  }

  /** Single bytes walk the buffer level to 56; what is left to go. */
  function ToGo(level: nat): nat
    requires level < 64
  {
    if level <= 56 then 56 - level else 120 - level
  }

  lemma OneByte(step: (Regs, Block) -> Regs, iv: Regs, msg: seq<byte>, blocks: seq<Block>, tail: seq<byte>, h: Regs, b: byte, blocks': seq<Block>, tail': seq<byte>, h': Regs)
    requires Absorbed(step, iv, msg, blocks, tail, h) && Absorbed(step, iv, msg + [b], blocks', tail', h') && |tail| != 56
    ensures ToGo(|tail'|) == ToGo(|tail|) - 1
  {
  }

  lemma AtFiftySix(step: (Regs, Block) -> Regs, iv: Regs, msg: seq<byte>, k: nat, blocks: seq<Block>, tail: seq<byte>, h: Regs)
    requires Absorbed(step, iv, PaddedWith(msg, k), blocks, tail, h) && |tail| == 56 && k < 64
    ensures k == ZeroCount(|msg|)
  {
  }

  lemma EightMore(step: (Regs, Block) -> Regs, iv: Regs, msg: seq<byte>, blocks: seq<Block>, tail: seq<byte>, h: Regs, d: seq<byte>, blocks': seq<Block>, tail': seq<byte>, h': Regs)
    requires Absorbed(step, iv, msg, blocks, tail, h) && Absorbed(step, iv, msg + d, blocks', tail', h') && |tail| == 56 && |d| == 8
    ensures tail' == []
  {
  }
}

/** The engines the hashers run on, and the laws they satisfy. */
module Sha256Engine {
  import opened Bytes
  import opened Sha256Spec
  import opened Sha256Scalar
  import opened Sha256Ni

  /**
   * What a build of the hasher runs on: the scalar operations, the instructions with their constant
   * table, and the initial value. Only their laws are ever used here.
   */
  datatype Engine = Engine(std: Alu, ni: Alu, table: seq<seq<u32>>, iv: Regs)

  ghost predicate Lawful(e: Engine) {
    ScalarOrder(e.std) && Commutes(e.std) && Alike(e.ni, e.std) && Reversed(e.ni, e.table)
  }

  /** What ships: the standard's operations, the documented instructions and the stored table. */
  const SHIPPED: Engine := Engine(FIPS, NI, K32X4, IV)

  lemma ShippedIsLawful()
    ensures Lawful(SHIPPED)
  {
    FipsOrder();
    FipsCommutes();
    NiAlikeFips();
    TableIsReversed();
  }
}

/** The core's incremental hasher. */
module Sha256Core {
  import opened Bytes
  import opened Sha256Spec
  import opened Sha256Digest
  import opened Sha256Absorb
  import opened Sha256Engine
  import Sha256Ni
  import Sha256Scalar

  class Sha256 {
    var h: Regs
    const buf: array<byte>
    var bufLen: nat
    var total: u64
    const hardware: bool
    const e: Engine
    /** Everything fed in so far, and the blocks of it already folded. */
    ghost var msg: seq<byte>
    ghost var folded: seq<Block>

    ghost predicate Holds(m: seq<byte>)
      reads this`h, this`bufLen, this`folded, buf
    {
      buf.Length == 64 && bufLen < 64 && Absorbed(Step(e.std), e.iv, m, folded, buf[..bufLen], h)
    }

    ghost predicate Valid()
      reads this, buf
    {
      Lawful(e) && Holds(msg) && total == Count(msg)
    }

    constructor (hardware: bool, e: Engine)
      requires Lawful(e)
      ensures Valid() && fresh(buf) && msg == [] && this.hardware == hardware && this.e == e
    {
      this.e := e;
      h := e.iv;
      buf := new byte[64](_ => 0);
      bufLen := 0;
      total := 0;
      this.hardware := hardware;
      msg := [];
      folded := [];
    }

    /** A run of whole blocks, through the instructions when the processor has them. */
    method CompressBlocks(blocks: seq<Block>)
      requires Lawful(e)
      modifies this`h
      ensures h == Fold(Step(e.std), old(h), blocks)
    {
      if |blocks| == 0 {
        return;
      }
      RunIsFold(e.std, h, blocks);
      if hardware {
        h := Sha256Ni.CompressBlocksNi(e.std, e.ni, e.table, h, blocks);
        return;
      }
      for i := 0 to |blocks|
        invariant h == CompressRun(e.std, old(h), blocks[..i])
      {
        Sha256Ni.RunOneMore(e.std, old(h), blocks, i);
        h := Sha256Scalar.Compress(e.std, h, blocks[i]);
      }
      assert blocks[..|blocks|] == blocks;
    }

    method Append(d: seq<byte>)
      requires bufLen + |d| <= buf.Length
      modifies this`bufLen, buf
      ensures bufLen == old(bufLen) + |d| && buf[..bufLen] == old(buf[..bufLen]) + d
    {
      Store(buf, bufLen, d);
      bufLen := bufLen + |d|;
    }

    /** Top up a part-filled buffer, and fold it in if that fills it. */
    method TopUp(d: seq<byte>, ghost m: seq<byte>)
      requires Lawful(e) && Holds(m) && bufLen > 0 && bufLen + |d| <= 64
      modifies this`h, this`bufLen, this`folded, buf
      ensures Holds(m + d)
      ensures bufLen == if old(bufLen) + |d| == 64 then 0 else old(bufLen) + |d|
    {
      ghost var tail := buf[..bufLen];
      Append(d);
      if bufLen == 64 {
        var block := buf[..];
        assert block == buf[..64];
        Filled(Step(e.std), e.iv, m, folded, tail, h, d, block);
        h := Sha256Scalar.Compress(e.std, h, block);
        folded := folded + [block];
        bufLen := 0;
        assert buf[..0] == [];
      } else {
        Buffered(Step(e.std), e.iv, m, folded, tail, h, d);
      }
    }

    /** Fold in whole blocks and keep the rest, with nothing buffered before. */
    method TakeIn(data: seq<byte>, ghost m: seq<byte>)
      requires Lawful(e) && Holds(m) && bufLen == 0
      modifies this`h, this`bufLen, this`folded, buf
      ensures Holds(m + data)
    {
      assert buf[..0] == [];
      var whole := |data| / 64 * 64;
      var front, rest := data[..whole], data[whole..];
      assert front + rest == data;
      TakenIn(Step(e.std), e.iv, m, folded, h, front, rest);
      var blocks := Blocks(front);
      CompressBlocks(blocks);
      folded := folded + blocks;
      if |rest| > 0 {
        Store(buf, 0, rest);
        bufLen := |rest|;
      }
      assert buf[..bufLen] == rest;
    }

    /** The buffer and the chaining value take in `data`. */
    method Feed(data: seq<byte>, ghost m: seq<byte>)
      requires Lawful(e) && Holds(m)
      modifies this`h, this`bufLen, this`folded, buf
      ensures Holds(m + data)
    {
      if bufLen == 0 {
        TakeIn(data, m);
        return;
      }
      var take := if 64 - bufLen < |data| then 64 - bufLen else |data|;
      Split(m, data, take);
      TopUp(data[..take], m);
      if bufLen == 0 {
        TakeIn(data[take..], m + data[..take]);
      }
    }

    /** Any split of the message over calls leaves the hasher standing for the concatenation. */
    method Update(data: seq<byte>)
      requires Valid()
      modifies this, buf
      ensures Valid() && msg == old(msg) + data
    {
      ghost var m := msg;
      CountAppend(m, data);
      total := Wrap64(total + |data|);
      Feed(data, m);
      msg := m + data;
    }

    /** One zero byte of padding. */
    method PadByte(ghost m: seq<byte>, ghost k: nat)
      requires Valid() && msg == PaddedWith(m, k) && bufLen != 56
      modifies this, buf
      ensures Valid() && msg == PaddedWith(m, k + 1) && ToGo(bufLen) == ToGo(old(bufLen)) - 1
    {
      ghost var blocks, tail, was := folded, buf[..bufLen], h;
      Update([0]);
      OneByte(Step(e.std), e.iv, PaddedWith(m, k), blocks, tail, was, 0, folded, buf[..bufLen], h);
      assert PaddedWith(m, k) + [0] == PaddedWith(m, k + 1);
    }

    /** The length field, which closes the last block. */
    method PadLength(ghost m: seq<byte>, ghost k: nat, bitLen: u64)
      requires Valid() && msg == PaddedWith(m, k) && bufLen == 56 && k < 64 && bitLen == BitLength(|m|)
      modifies this, buf
      ensures Output(h) == Digest(Step(e.std), e.iv, m)
    {
      ghost var blocks, tail, was := folded, buf[..bufLen], h;
      AtFiftySix(Step(e.std), e.iv, m, k, blocks, tail, was);
      Update(Be64(bitLen));
      EightMore(Step(e.std), e.iv, PaddedWith(m, k), blocks, tail, was, Be64(bitLen), folded, buf[..bufLen], h);
      Complete(Step(e.std), e.iv, m, msg, folded, h);
    }

    /** Pad and finish: the digest of everything fed in. */
    method Finish() returns (digest: Digest32)
      requires Valid()
      modifies this, buf
      ensures digest == Digest(Step(e.std), e.iv, old(msg))
    {
      ghost var m := msg;
      CountBits(m);
      var bitLen := Wrap64(total * 8);
      Update([0x80]);
      ghost var k := 0;
      assert PaddedWith(m, 0) == m + [0x80];
      while bufLen != 56
        invariant Valid() && msg == PaddedWith(m, k) && k + ToGo(bufLen) < 64
        decreases ToGo(bufLen)
      {
        PadByte(m, k);
        k := k + 1;
      }
      PadLength(m, k, bitLen);
      return Output(h);
    }
  }
}

/** The account store's copy of the hasher: its own update loop and a two-block finish. */
module Sha256Account {
  import opened Bytes
  import opened Sha256Spec
  import opened Sha256Digest
  import opened Sha256Absorb
  import opened Sha256Scalar

  class Sha256 {
    const m: Alu
    const iv: Regs
    var state: Regs
    const buffer: array<byte>
    var buffered: nat
    var length: u64
    ghost var msg: seq<byte>
    ghost var folded: seq<Block>

    ghost predicate Holds(fed: seq<byte>)
      reads this`state, this`buffered, this`folded, buffer
    {
      buffer.Length == 64 && buffered < 64 && Absorbed(Step(m), iv, fed, folded, buffer[..buffered], state)
    }

    ghost predicate Valid()
      reads this, buffer
    {
      ScalarOrder(m) && Commutes(m) && Holds(msg) && length == Count(msg)
    }

    constructor (m: Alu, iv: Regs)
      requires ScalarOrder(m) && Commutes(m)
      ensures Valid() && fresh(buffer) && msg == [] && this.m == m && this.iv == iv
    {
      this.m, this.iv := m, iv;
      state := iv;
      buffer := new byte[64](_ => 0);
      buffered := 0;
      length := 0;
      msg := [];
      folded := [];
    }

    /** Fold a full block; the buffer is empty afterwards. */
    method FoldBlock(block: Block, ghost fed: seq<byte>, ghost tail: seq<byte>, ghost d: seq<byte>)
      requires ScalarOrder(m) && Commutes(m) && buffer.Length == 64
      requires Absorbed(Step(m), iv, fed, folded, tail, state) && block == tail + d
      modifies this`state, this`folded, this`buffered
      ensures buffered == 0 && Holds(fed + d)
    {
      Filled(Step(m), iv, fed, folded, tail, state, d, block);
      state := Compress(m, state, block);
      folded := folded + [block];
      buffered := 0;
      assert buffer[..0] == [];
    }

    method TopUp(d: seq<byte>, ghost fed: seq<byte>)
      requires ScalarOrder(m) && Commutes(m) && Holds(fed) && buffered > 0 && buffered + |d| <= 64
      modifies this`state, this`folded, this`buffered, buffer
      ensures Holds(fed + d)
      ensures buffered == if old(buffered) + |d| == 64 then 0 else old(buffered) + |d|
    {
      ghost var tail := buffer[..buffered];
      Store(buffer, buffered, d);
      buffered := buffered + |d|;
      assert buffer[..buffered] == tail + d;
      if buffered == 64 {
        assert buffer[..] == buffer[..64];
        FoldBlock(buffer[..], fed, tail, d);
      } else {
        Buffered(Step(m), iv, fed, folded, tail, state, d);
      }
    }

    /** Fold a block straight from the input. */
    method FoldWhole(block: Block, ghost fed: seq<byte>)
      requires ScalarOrder(m) && Commutes(m) && Holds(fed) && buffered == 0
      modifies this`state, this`folded, this`buffered
      ensures buffered == 0 && Holds(fed + block)
    {
      assert buffer[..0] == [] && [] + block == block;
      FoldBlock(block, fed, [], block);
    }

    /** The block loop and the left-over copy, from an empty buffer. */
    method TakeIn(data: seq<byte>, start: nat, ghost fed: seq<byte>)
      requires ScalarOrder(m) && Commutes(m) && Holds(fed) && buffered == 0 && start <= |data|
      modifies this`state, this`folded, this`buffered, buffer
      ensures Holds(fed + data[start..])
    {
      var offset := start;
      ghost var now := fed;
      while offset + 64 <= |data|
        invariant start <= offset <= |data| && buffered == 0
        invariant Holds(now) && now + data[offset..] == fed + data[start..]
      {
        Advance(now, data, offset);
        FoldWhole(data[offset..offset + 64], now);
        now := now + data[offset..offset + 64];
        offset := offset + 64;
      }
      LeftOver(data[offset..], now);
    }

    /** What does not fill a block is copied to the front of the empty buffer. */
    method LeftOver(rest: seq<byte>, ghost fed: seq<byte>)
      requires Holds(fed) && buffered == 0 && |rest| < 64
      modifies this`buffered, buffer
      ensures Holds(fed + rest)
    {
      assert buffer[..0] == [] && [] + rest == rest;
      Buffered(Step(m), iv, fed, folded, [], state, rest);
      if 0 < |rest| {
        Store(buffer, 0, rest);
        buffered := |rest|;
      }
      assert buffer[..buffered] == rest;
    }

    method Update(data: seq<byte>)
      requires Valid()
      modifies this, buffer
      ensures Valid() && msg == old(msg) + data
    {
      ghost var fed := msg;
      CountAppend(fed, data);
      length := Wrap64(length + |data|);
      Feed(data, fed);
      msg := fed + data;
    }

    method Feed(data: seq<byte>, ghost fed: seq<byte>)
      requires ScalarOrder(m) && Commutes(m) && Holds(fed)
      modifies this`state, this`folded, this`buffered, buffer
      ensures Holds(fed + data)
    {
      if buffered == 0 {
        assert data[0..] == data;
        TakeIn(data, 0, fed);
        return;
      }
      var take := if 64 - buffered < |data| then 64 - buffered else |data|;
      Split(fed, data, take);
      TopUp(data[..take], fed);
      if buffered == 0 {
        TakeIn(data, take, fed + data[..take]);
      }
    }

    /** Fill the buffer from `buffered` with `d` to the block edge and fold it. */
    method Close(d: seq<byte>, ghost fed: seq<byte>)
      requires ScalarOrder(m) && Commutes(m) && Holds(fed) && buffered + |d| == 64
      modifies this`state, this`folded, this`buffered, buffer
      ensures buffered == 0 && Holds(fed + d)
    {
      ghost var tail := buffer[..buffered];
      Store(buffer, buffered, d);
      assert buffer[..] == tail + d;
      FoldBlock(buffer[..], fed, tail, d);
    }

    /** The padding, closing one block or two. */
    method Pad(bits: u64, ghost fed: seq<byte>)
      requires ScalarOrder(m) && Commutes(m) && Holds(fed) && bits == BitLength(|fed|)
      modifies this`state, this`folded, this`buffered, buffer
      ensures buffered == 0 && Holds(Padded(fed))
    {
      PaddingByBlock(fed, |folded|, buffered, bits);
      var t := buffered;
      if t + 1 > 56 {
        PadTwice(Marked(63 - t), Zeros(56) + Be64(bits), fed);
      } else {
        Close(Marked(55 - t) + Be64(bits), fed);
      }
    }

    method PadTwice(first: seq<byte>, second: seq<byte>, ghost fed: seq<byte>)
      requires ScalarOrder(m) && Commutes(m) && Holds(fed) && buffered + |first| == 64 && |second| == 64
      modifies this`state, this`folded, this`buffered, buffer
      ensures buffered == 0 && Holds(fed + first + second)
    {
      Close(first, fed);
      Close(second, fed + first);
    }

    /** Padding without going through `Update`: at most two more blocks. */
    method Finalize() returns (digest: Digest32)
      requires Valid()
      modifies this, buffer
      ensures digest == Digest(Step(m), iv, old(msg))
    {
      CountBits(msg);
      Pad(Wrap64(length * 8), msg);
      assert buffer[..0] == [];
      Complete(Step(m), iv, msg, Padded(msg), folded, state);
      return Output(state);
    }
  }

  lemma Advance(now: seq<byte>, data: seq<byte>, offset: nat)
    requires offset + 64 <= |data|
    ensures (now + data[offset..offset + 64]) + data[offset + 64..] == now + data[offset..]
  {
  }

  function Marked(k: nat): (bs: seq<byte>)
    ensures |bs| == k + 1
  {
    [0x80] + Zeros(k)
  }

  /** The padding of a message, cut at the block edges that follow a buffer of `t` bytes. */
  lemma PaddingByBlock(msg: seq<byte>, blocks: nat, t: nat, bits: u64)
    requires |msg| == 64 * blocks + t && t < 64 && bits == BitLength(|msg|)
    ensures t + 1 > 56 ==> Padded(msg) == (msg + Marked(63 - t)) + (Zeros(56) + Be64(bits))
    ensures t + 1 <= 56 ==> Padded(msg) == msg + (Marked(55 - t) + Be64(bits))
  {
    if t + 1 > 56 {
      OneZeroCount(|msg|, 119 - t, blocks + 1);
      assert Zeros(119 - t) == Zeros(63 - t) + Zeros(56);
    } else {
      OneZeroCount(|msg|, 55 - t, blocks);
    }
  }
}

/** The fetcher's one-shot hash of a whole buffer. */
module Sha256OneShot {
  import opened Bytes
  import opened Sha256Spec
  import opened Sha256Digest
  import opened Sha256Scalar

  method Hash(m: Alu, iv: Regs, data: seq<byte>) returns (digest: Digest32)
    requires ScalarOrder(m) && Commutes(m)
    ensures digest == Digest(Step(m), iv, data)
  {
    var bitLen := Wrap64(|data| * 8);
    var msg := data + [0x80];
    ghost var k := 0;
    assert PaddedWith(data, 0) == msg;
    while |msg| % 64 != 56
      invariant msg == PaddedWith(data, k) && k <= ZeroCount(|data|)
      decreases ZeroCount(|data|) - k
    {
      PadMore(|data|, k);
      assert PaddedWith(data, k) + [0] == PaddedWith(data, k + 1);
      msg := msg + [0];
      k := k + 1;
    }
    PadStop(|data|, k);
    msg := msg + Be64(bitLen);
    assert msg == Padded(data);
    digest := Chunks(m, iv, msg);
  }

  method Chunks(m: Alu, iv: Regs, msg: seq<byte>) returns (digest: Digest32)
    requires ScalarOrder(m) && Commutes(m) && |msg| % 64 == 0
    ensures digest == Output(Fold(Step(m), iv, Blocks(msg)))
  {
    var blocks := Blocks(msg);
    var h := iv;
    for i := 0 to |blocks|
      invariant h == Fold(Step(m), iv, blocks[..i])
    {
      assert blocks[..i + 1][..i] == blocks[..i];
      h := Compress(m, h, blocks[i]);
    }
    assert blocks[..|blocks|] == blocks;
    return Output(h);
  }

  lemma PadMore(n: nat, k: nat)
    requires k <= ZeroCount(n) && (n + 1 + k) % 64 != 56
    ensures k < ZeroCount(n)
  {
  }

  lemma PadStop(n: nat, k: nat)
    requires k <= ZeroCount(n) && (n + 1 + k) % 64 == 56
    ensures k == ZeroCount(n)
  {
  }
}

/** All three hashers agree, on the standard's operations. */
module Sha256Agreement {
  import opened Bytes
  import opened Sha256Spec
  import opened Sha256Digest
  import opened Sha256Engine
  import opened Sha256Scalar
  import Sha256Core
  import Sha256Account
  import Sha256OneShot

  /** Feed a message part by part, and finish: however it is split, and whichever copy hashes it, the digest is one. */
  method HashThreeWays(parts: seq<seq<byte>>, hardware: bool) returns (core: Digest32, account: Digest32, oneShot: Digest32)
    ensures core == account == oneShot == Digest(Step(FIPS), IV, Joined(parts))
  {
    core := HashCore(parts, hardware);
    ShippedIsLawful();
    account, oneShot := HashCopies(parts, FIPS, IV);
  }

  method HashCore(parts: seq<seq<byte>>, hardware: bool) returns (digest: Digest32)
    ensures digest == Digest(Step(FIPS), IV, Joined(parts))
  {
    ShippedIsLawful();
    var a := new Sha256Core.Sha256(hardware, SHIPPED);
    for i := 0 to |parts|
      invariant a.Valid() && a.e == SHIPPED && a.msg == Joined(parts[..i]) && fresh(a) && fresh(a.buf)
    {
      assert parts[..i + 1][..i] == parts[..i];
      a.Update(parts[i]);
    }
    assert parts[..|parts|] == parts;
    digest := a.Finish();
  }

  /** The two other copies, over any word operations. */
  method HashCopies(parts: seq<seq<byte>>, m: Alu, iv: Regs) returns (account: Digest32, oneShot: Digest32)
    requires ScalarOrder(m) && Commutes(m)
    ensures account == oneShot == Digest(Step(m), iv, Joined(parts))
  {
    var b := new Sha256Account.Sha256(m, iv);
    var whole: seq<byte> := [];
    for i := 0 to |parts|
      invariant b.Valid() && b.m == m && b.iv == iv && b.msg == Joined(parts[..i]) && fresh(b) && fresh(b.buffer)
      invariant whole == Joined(parts[..i])
    {
      assert parts[..i + 1][..i] == parts[..i];
      b.Update(parts[i]);
      whole := whole + parts[i];
    }
    assert parts[..|parts|] == parts;
    account := b.Finalize();
    oneShot := Sha256OneShot.Hash(m, iv, whole);
  }

  function Joined(parts: seq<seq<byte>>): seq<byte> {
    if parts == [] then [] else Joined(parts[..|parts| - 1]) + parts[|parts| - 1]
  }
}
