/** The guest heap of crates/perun-shims/src/mach.rs: a bump arena whose blocks carry a size prefix. */
module GuestHeap {
  import opened Bytes
  import opened Wrappers

  const BASE: u64 := 0x7FF7_B000_0000
  const SIZE: nat := 0x400_0000
  const LIMIT: u64 := 0x7FF7_B400_0000

  /** A successful allocation: its address, the size asked for, and that size rounded up. */
  datatype Block = Block(user: u64, size: u64, span: nat) {
    /** The prefix starts 16 bytes before the block. */
    function Prefix(): int { user - 16 }

    function End(): int { user + span }

    predicate Holds(addr: u64) { user <= addr < user + size }
  }

  /** The arena's bytes, its first free address, and (for the proofs) all blocks in order. */
  datatype Heap = Heap(tail: u64, mem: seq<byte>, blocks: seq<Block>)

  datatype Op = Malloc(size: u64) | Calloc(count: u64, size: u64) | Realloc(ptr: u64, size: u64) | Free(ptr: u64) | Write(addr: u64, value: byte)

  /** The next multiple of 16. */
  function RoundUp(size: nat): (r: nat)
    ensures r % 16 == 0 && size <= r < size + 16
  {
    size + (16 - size % 16) % 16
  }

  /** `good_size`, with the machine's wrap-around. */
  function GoodSize(size: u64): u64 { Wrap64(size + (16 - size % 16) % 16) }

  /** The bump: the user address (0 when full) and the new tail, exactly as the machine computes them. */
  function Bump(tail: u64, size: u64): (u64, u64) {
    if Wrap64(tail + 16 + GoodSize(size)) > LIMIT then (0, tail)
    else (Wrap64(tail + 16), Wrap64(tail + 16 + GoodSize(size)))
  }

  /** The request's true end still is a 64-bit address. */
  predicate NoWrap(tail: u64, size: u64) { tail + 16 + RoundUp(size) < 0x1_0000_0000_0000_0000 }

  function Off(addr: int): int { addr - BASE }

  /** Which block, if any, starts at `ptr`. */
  predicate IsBlock(h: Heap, ptr: u64) { exists b :: b in h.blocks && b.user == ptr }

  predicate InSomeBlock(h: Heap, addr: u64) { exists b :: b in h.blocks && b.Holds(addr) }

  // ── the invariant ────────────────────────────────────────────────────────

  /** Where the `i`th block's prefix must start. */
  function StartOf(blocks: seq<Block>, i: nat): int
    requires i <= |blocks|
  {
    if i == 0 then BASE else blocks[i - 1].End()
  }

  /** The `i`th block's prefix starts where the block before it ends. */
  predicate Linked(blocks: seq<Block>, i: nat)
    requires i < |blocks|
  {
    blocks[i].user == StartOf(blocks, i) + 16
  }

  /** Blocks lie back to back from the base to the tail. */
  predicate Chained(h: Heap) {
    && (forall i :: 0 <= i < |h.blocks| ==> Linked(h.blocks, i))
    && StartOf(h.blocks, |h.blocks|) == h.tail <= LIMIT
  }

  function StoredSize(mem: seq<byte>, user: u64): nat
    requires 0 <= Off(user - 16) && Off(user - 16) + 8 <= |mem|
  {
    FromLittleEndian(mem[Off(user - 16)..Off(user - 16) + 8])
  }

  predicate Placed(b: Block) { BASE <= b.Prefix() && b.End() <= LIMIT && b.size <= b.span }

  predicate Aligned(b: Block) { b.user % 16 == 0 && b.span == RoundUp(b.size) }

  predicate Stored(mem: seq<byte>, b: Block)
    requires |mem| == SIZE
  {
    Placed(b) && StoredSize(mem, b.user) == b.size
  }

  /** Every block lies in the arena, with its size stored before it. */
  predicate Labelled(h: Heap) {
    |h.mem| == SIZE && forall b :: b in h.blocks ==> Stored(h.mem, b)
  }

  /** Nothing past the tail was ever written. */
  predicate FreshZero(h: Heap) {
    BASE <= h.tail && forall k :: Off(h.tail) <= k < |h.mem| ==> h.mem[k] == 0
  }

  predicate AllAligned(h: Heap) { h.tail % 16 == 0 && forall b :: b in h.blocks ==> Aligned(b) }

  predicate Valid(h: Heap) { Chained(h) && Labelled(h) && FreshZero(h) && AllAligned(h) }

  function Empty(): Heap { Heap(BASE, seq(SIZE, _ => 0), []) }

  lemma EmptyValid()
    ensures Valid(Empty())
  {
  }

  lemma {:induction false} LaterBlock(h: Heap, i: nat, j: nat)
    requires Chained(h) && i < j < |h.blocks|
    ensures h.blocks[i].End() <= h.blocks[j].Prefix()
    decreases j - i
  {
    assert Linked(h.blocks, j);
    if i < j - 1 { LaterBlock(h, i, j - 1); BlockPositive(h, j - 1); }
  }

  lemma BlockPositive(h: Heap, i: nat)
    requires i < |h.blocks|
    ensures h.blocks[i].Prefix() <= h.blocks[i].End()
  {
  }

  /** Blocks with their prefixes are pairwise disjoint, 16-aligned and inside the arena. */
  lemma BlocksDisjoint(h: Heap, i: nat, j: nat)
    requires Valid(h) && i < j < |h.blocks|
    ensures h.blocks[i].user + h.blocks[i].size <= h.blocks[j].user - 16
    ensures Placed(h.blocks[i]) && Placed(h.blocks[j]) && Aligned(h.blocks[i]) && Aligned(h.blocks[j])
  {
    LaterBlock(h, i, j);
    assert h.blocks[i] in h.blocks && h.blocks[j] in h.blocks;
  }

  lemma {:induction false} BlockBeforeTail(h: Heap, i: nat)
    requires Chained(h) && i < |h.blocks|
    ensures h.blocks[i].End() <= h.tail
  {
    if i < |h.blocks| - 1 { LaterBlock(h, i, |h.blocks| - 1); }
  }

  // ── the operations ───────────────────────────────────────────────────────

  function Allocate(h: Heap, size: u64): (Heap, u64)
    requires |h.mem| == SIZE && BASE <= h.tail <= LIMIT
  {
    var (user, tail) := Bump(h.tail, size);
    if user == 0 || Off(h.tail) + 8 > SIZE then (h, 0)
    else (Heap(tail, Splice(h.mem, Off(h.tail), LittleEndian(size, 8)), h.blocks + [Block(user, size, RoundUp(size))]), user)
  }

  /** `block_size` of a null, foreign or real block pointer. */
  function BlockSize(h: Heap, ptr: u64): nat
    requires Valid(h)
  {
    if ptr < 16 || !(BASE <= ptr - 16 < LIMIT) || Off(ptr - 16) + 8 > |h.mem| then 0 else StoredSize(h.mem, ptr)
  }

  function CopyInto(mem: seq<byte>, from: nat, to: nat, n: nat): (m: seq<byte>)
    requires from + n <= |mem| && to + n <= |mem|
    ensures |m| == |mem|
  {
    Splice(mem, to, mem[from..from + n])
  }

  /** What a caller may do: bounded sizes, pointers it was given, writes inside its blocks. */
  predicate Allowed(h: Heap, op: Op) {
    match op
    case Malloc(size) => NoWrap(h.tail, size)
    case Calloc(count, size) => NoWrap(h.tail, Wrap64(count * size))
    case Realloc(ptr, size) => NoWrap(h.tail, size) && (ptr == 0 || IsBlock(h, ptr))
    case Free(_) => true
    case Write(addr, _) => InSomeBlock(h, addr)
  }

  lemma InnerIndex(h: Heap, addr: u64)
    requires Valid(h) && InSomeBlock(h, addr)
    ensures 0 <= Off(addr) < |h.mem|
  {
  }

  /** The length a `realloc` copies, and room for it on both sides. */
  lemma CopyRoom(h: Heap, ptr: u64, size: u64)
    requires Valid(h) && IsBlock(h, ptr) && NoWrap(h.tail, size)
    ensures var (after, user) := Allocate(h, size);
            user != 0 ==>
              && |after.mem| == SIZE && 0 <= Off(ptr) && 0 <= Off(user)
              && Off(ptr) + Min(BlockSize(h, ptr), size) <= SIZE && Off(user) + Min(BlockSize(h, ptr), size) <= SIZE
  {
    var b :| b in h.blocks && b.user == ptr;
    assert Stored(h.mem, b);
    BumpExact(h.tail, size);
  }

  lemma MachineSums(tail: u64, size: u64)
    requires NoWrap(tail, size) && BASE <= tail <= LIMIT
    ensures GoodSize(8) == 16 && GoodSize(size) == RoundUp(size)
    ensures Wrap64(tail + 16 + GoodSize(size)) == tail + 16 + GoodSize(size) && Wrap64(BASE + SIZE) == LIMIT
  {
    WrapSmall(RoundUp(size));
    WrapSmall(tail + 16 + RoundUp(size));
  }

  /** With no wrap the bump is what it looks like: full, or sixteen bytes up with room for the rounded size. */
  lemma BumpExact(tail: u64, size: u64)
    requires NoWrap(tail, size) && BASE <= tail <= LIMIT
    ensures Bump(tail, size) == if tail + 16 + RoundUp(size) > LIMIT then (0, tail) else (tail + 16, tail + 16 + RoundUp(size))
  {
    MachineSums(tail, size);
    WrapSmall(tail + 16);
  }

  function Apply(h: Heap, op: Op): (Heap, u64)
    requires Valid(h) && Allowed(h, op)
  {
    match op
    case Malloc(size) => Allocate(h, size)
    case Calloc(count, size) => Allocate(h, Wrap64(count * size))
    case Realloc(ptr, size) =>
      if ptr == 0 then Allocate(h, size)
      else
        CopyRoom(h, ptr, size);
        var (after, user) := Allocate(h, size);
        if user == 0 then (after, user)
        else (after.(mem := CopyInto(after.mem, Off(ptr), Off(user), Min(BlockSize(h, ptr), size))), user)
    case Free(_) => (h, 0)
    case Write(addr, value) => InnerIndex(h, addr); (h.(mem := h.mem[Off(addr) := value]), 0)
  }

  // ── every operation keeps the invariant ──────────────────────────────────

  /** Bytes outside the rewritten part are as they were. */
  lemma StoredElsewhere(mem: seq<byte>, at: nat, bs: seq<byte>, b: Block)
    requires |mem| == SIZE && at + |bs| <= |mem| && Placed(b)
    requires Off(b.Prefix()) + 8 <= at || at + |bs| <= Off(b.Prefix())
    ensures StoredSize(Splice(mem, at, bs), b.user) == StoredSize(mem, b.user)
  {
    var p := Off(b.Prefix());
    assert Splice(mem, at, bs)[p..p + 8] == mem[p..p + 8];
  }

  lemma NewPrefix(mem: seq<byte>, tail: u64, size: u64, user: u64)
    requires |mem| == SIZE && BASE <= tail && Off(tail) + 8 <= SIZE && user == tail + 16
    ensures StoredSize(Splice(mem, Off(tail), LittleEndian(size, 8)), user) == size
  {
    var after := Splice(mem, Off(tail), LittleEndian(size, 8));
    assert after[Off(tail)..Off(tail) + 8] == LittleEndian(size, 8);
    WordRoundTrip(size);
  }

  lemma ChainGrows(h: Heap, b: Block, tail: u64, mem: seq<byte>)
    requires Chained(h) && b.user == h.tail + 16 && tail == b.End() <= LIMIT
    ensures Chained(Heap(tail, mem, h.blocks + [b]))
  {
    var after := Heap(tail, mem, h.blocks + [b]);
    forall i | 0 <= i < |after.blocks| ensures Linked(after.blocks, i) {
      if i < |h.blocks| { assert Linked(h.blocks, i); }
    }
  }

  lemma InBlocks(h: Heap, b: Block) returns (i: nat)
    requires b in h.blocks
    ensures i < |h.blocks| && h.blocks[i] == b
  {
    i :| 0 <= i < |h.blocks| && h.blocks[i] == b;
  }

  /** Writing the new prefix at the tail leaves the older labels alone. */
  lemma LabelsStay(h: Heap, size: u64, c: Block)
    requires Chained(h) && Labelled(h) && c in h.blocks && BASE <= h.tail && Off(h.tail) + 8 <= SIZE
    ensures Stored(Splice(h.mem, Off(h.tail), LittleEndian(size, 8)), c)
  {
    var i := InBlocks(h, c);
    BlockBeforeTail(h, i);
    assert Stored(h.mem, c);
    StoredElsewhere(h.mem, Off(h.tail), LittleEndian(size, 8), c);
  }

  lemma LabelsGrow(h: Heap, size: u64, after: Heap, b: Block)
    requires Chained(h) && Labelled(h) && BASE <= h.tail && Off(h.tail) + 8 <= SIZE
    requires Placed(b) && b.user == h.tail + 16 && b.size == size
    requires after.mem == Splice(h.mem, Off(h.tail), LittleEndian(size, 8)) && after.blocks == h.blocks + [b]
    ensures Labelled(after)
  {
    NewPrefix(h.mem, h.tail, size, b.user);
    forall c | c in after.blocks ensures Stored(after.mem, c) {
      if c in h.blocks { LabelsStay(h, size, c); }
    }
  }

  /** What a successful allocation is, with no machine arithmetic left. */
  lemma AllocateExact(h: Heap, size: u64)
    requires Valid(h) && NoWrap(h.tail, size)
    ensures var (after, user) := Allocate(h, size);
            && (user == 0 <==> h.tail + 16 + RoundUp(size) > LIMIT)
            && (user == 0 ==> after == h)
            && (user != 0 ==>
                  && user == h.tail + 16 && Off(h.tail) + 16 + size <= SIZE
                  && after.tail == user + RoundUp(size) <= LIMIT
                  && after.blocks == h.blocks + [Block(user, size, RoundUp(size))]
                  && after.mem == Splice(h.mem, Off(h.tail), LittleEndian(size, 8)))
  {
    BumpExact(h.tail, size);
  }

  /** A new block: where it lies, what is stored, and what no byte of an older block notices. */
  lemma AllocateKeepsValid(h: Heap, size: u64)
    requires Valid(h) && NoWrap(h.tail, size)
    ensures var (after, user) := Allocate(h, size);
            && Valid(after)
            && (forall k :: 0 <= k < Off(h.tail) ==> after.mem[k] == h.mem[k])
            && (forall k :: Off(h.tail) + 16 <= k < SIZE ==> after.mem[k] == 0)
  {
    var (after, user) := Allocate(h, size);
    AllocateExact(h, size);
    if user != 0 {
      var b := Block(user, size, RoundUp(size));
      ChainGrows(h, b, after.tail, after.mem);
      LabelsGrow(h, size, after, b);
      AlignmentGrows(h, b, after);
    }
  }

  lemma AlignmentGrows(h: Heap, b: Block, after: Heap)
    requires AllAligned(h) && b.user == h.tail + 16 && b.span == RoundUp(b.size) && after.tail == b.End() && after.blocks == h.blocks + [b]
    ensures AllAligned(after)
  {
  }

  /** Writes that stay inside blocks touch no prefix and nothing past the tail. */
  lemma WriteKeepsValid(h: Heap, mem: seq<byte>)
    requires Valid(h) && |mem| == SIZE
    requires forall k :: 0 <= k < SIZE && mem[k] != h.mem[k] ==> InSomeBlock(h, BASE + k)
    ensures Valid(h.(mem := mem))
  {
    forall b | b in h.blocks ensures Stored(mem, b) {
      assert Stored(h.mem, b);
      var p := Off(b.Prefix());
      forall k | p <= k < p + 8 ensures mem[k] == h.mem[k] {
        PrefixOutside(h, b, k);
      }
      assert mem[p..p + 8] == h.mem[p..p + 8];
    }
    forall k | Off(h.tail) <= k < SIZE ensures mem[k] == 0 {
      TailOutside(h, k);
    }
  }

  lemma PrefixOutside(h: Heap, b: Block, k: nat)
    requires Valid(h) && b in h.blocks && Off(b.Prefix()) <= k < Off(b.Prefix()) + 16
    ensures !InSomeBlock(h, BASE + k)
  {
    var i := InBlocks(h, b);
    forall c | c in h.blocks ensures !c.Holds(BASE + k) {
      var j := InBlocks(h, c);
      BlockMisses(h, i, j, BASE + k);
    }
  }

  lemma BlockMisses(h: Heap, i: nat, j: nat, addr: int)
    requires Valid(h) && i < |h.blocks| && j < |h.blocks| && h.blocks[i].Prefix() <= addr < h.blocks[i].user
    ensures !(h.blocks[j].user <= addr < h.blocks[j].user + h.blocks[j].size)
  {
    assert h.blocks[i] in h.blocks && h.blocks[j] in h.blocks;
    if i < j { LaterBlock(h, i, j); }
    if j < i { LaterBlock(h, j, i); }
  }

  lemma TailOutside(h: Heap, k: nat)
    requires Valid(h) && Off(h.tail) <= k < SIZE
    ensures !InSomeBlock(h, BASE + k)
  {
    forall c | c in h.blocks ensures !c.Holds(BASE + k) {
      var j := InBlocks(h, c);
      BlockBeforeTail(h, j);
    }
  }

  /** A copy into a block changes bytes of that block only. */
  lemma CopyKeepsValid(h: Heap, from: nat, b: Block, n: nat)
    requires Valid(h) && b in h.blocks && n <= b.size && from + n <= SIZE
    ensures Placed(b) && Valid(h.(mem := CopyInto(h.mem, from, Off(b.user), n)))
  {
    assert Stored(h.mem, b);
    var mem := CopyInto(h.mem, from, Off(b.user), n);
    forall k | 0 <= k < SIZE && mem[k] != h.mem[k] ensures InSomeBlock(h, BASE + k) {
      assert b.Holds(BASE + k);
    }
    WriteKeepsValid(h, mem);
  }

  lemma ReallocKeepsValid(h: Heap, ptr: u64, size: u64)
    requires Valid(h) && IsBlock(h, ptr) && NoWrap(h.tail, size)
    ensures Valid(Apply(h, Realloc(ptr, size)).0) && h.blocks <= Apply(h, Realloc(ptr, size)).0.blocks
  {
    AllocateKeepsValid(h, size);
    AllocateExact(h, size);
    CopyRoom(h, ptr, size);
    var (mid, user) := Allocate(h, size);
    if user != 0 {
      var b := Block(user, size, RoundUp(size));
      assert b in mid.blocks;
      CopyKeepsValid(mid, Off(ptr), b, Min(BlockSize(h, ptr), size));
    }
  }

  lemma ApplyKeepsValid(h: Heap, op: Op)
    requires Valid(h) && Allowed(h, op)
    ensures Valid(Apply(h, op).0) && h.blocks <= Apply(h, op).0.blocks
  {
    match op {
      case Malloc(size) =>
        AllocateKeepsValid(h, size);
        AllocateExact(h, size);
      case Calloc(count, size) =>
        AllocateKeepsValid(h, Wrap64(count * size));
        AllocateExact(h, Wrap64(count * size));
      case Realloc(ptr, size) =>
        if ptr == 0 {
          AllocateKeepsValid(h, size);
          AllocateExact(h, size);
        } else {
          ReallocKeepsValid(h, ptr, size);
        }
      case Free(_) =>
      case Write(addr, value) =>
        InnerIndex(h, addr);
        WriteKeepsValid(h, h.mem[Off(addr) := value]);
    }
  }

  /** `malloc_size` answers the size the block was asked for. */
  lemma SizeOfBlock(h: Heap, b: Block)
    requires Valid(h) && b in h.blocks
    ensures BlockSize(h, b.user) == b.size
  {
  }

  /** Each operation of a run is one its caller may do at that point. */
  predicate AllAllowed(h: Heap, ops: seq<Op>)
    requires Valid(h)
    decreases |ops|
  {
    ops == [] || (Allowed(h, ops[0]) && (ApplyKeepsValid(h, ops[0]); AllAllowed(Apply(h, ops[0]).0, ops[1..])))
  }

  function After(h: Heap, ops: seq<Op>): (r: Heap)
    requires Valid(h) && AllAllowed(h, ops)
    ensures Valid(r)
    decreases |ops|
  {
    if ops == [] then h else ApplyKeepsValid(h, ops[0]); After(Apply(h, ops[0]).0, ops[1..])
  }

  /**
   * However a run goes on from any point, the blocks stay disjoint, aligned, inside the arena and
   * labelled, and every block handed out before is still there.
   */
  lemma {:induction false} RunKeepsValid(h: Heap, ops: seq<Op>)
    requires Valid(h) && AllAllowed(h, ops)
    ensures Valid(After(h, ops)) && h.blocks <= After(h, ops).blocks
    decreases |ops|
  {
    if ops != [] {
      ApplyKeepsValid(h, ops[0]);
      RunKeepsValid(Apply(h, ops[0]).0, ops[1..]);
    }
  }

  /** Whatever happens later, `malloc_size` of a block answers the size it was asked for. */
  lemma SizeRemembered(h: Heap, ops: seq<Op>, b: Block)
    requires Valid(h) && AllAllowed(h, ops) && b in h.blocks
    ensures BlockSize(After(h, ops), b.user) == b.size
  {
    RunKeepsValid(h, ops);
    SizeOfBlock(After(h, ops), b);
  }

  // ── contents ─────────────────────────────────────────────────────────────

  function Contents(h: Heap, b: Block): seq<byte>
    requires |h.mem| == SIZE && Placed(b)
  {
    h.mem[Off(b.user)..Off(b.user) + b.size]
  }

  /** `calloc` memory is zero although nothing clears it. */
  lemma CallocIsZero(h: Heap, count: u64, size: u64)
    requires Valid(h) && NoWrap(h.tail, Wrap64(count * size))
    ensures var (after, user) := Apply(h, Calloc(count, size));
            var total := Wrap64(count * size);
            var b := Block(user, total, RoundUp(total));
            user != 0 ==> Valid(after) && b in after.blocks && Placed(b) && Contents(after, b) == seq(total, _ => 0)
  {
    FreshBlockIsZero(h, Wrap64(count * size));
  }

  lemma FreshBlockIsZero(h: Heap, size: u64)
    requires Valid(h) && NoWrap(h.tail, size)
    ensures var (after, user) := Allocate(h, size);
            var b := Block(user, size, RoundUp(size));
            user != 0 ==> Valid(after) && b in after.blocks && Placed(b) && Contents(after, b) == seq(size, _ => 0)
  {
    AllocateKeepsValid(h, size);
    AllocateExact(h, size);
  }

  /** No allocation changes a byte of an existing block. */
  lemma AllocationFrames(h: Heap, size: u64, b: Block)
    requires Valid(h) && b in h.blocks && NoWrap(h.tail, size)
    ensures Placed(b) && Valid(Allocate(h, size).0) && Contents(Allocate(h, size).0, b) == Contents(h, b)
  {
    AllocateKeepsValid(h, size);
    var i := InBlocks(h, b);
    BlockBeforeTail(h, i);
    assert Stored(h.mem, b);
  }

  lemma CopyFrames(h: Heap, from: nat, b: Block, n: nat, c: Block)
    requires |h.mem| == SIZE && Placed(b) && Placed(c) && n <= b.size && from + n <= SIZE
    requires c.End() <= b.user
    ensures Contents(h.(mem := CopyInto(h.mem, from, Off(b.user), n)), c) == Contents(h, c)
  {
  }

  lemma CopyArrives(h: Heap, from: Block, b: Block, n: nat)
    requires |h.mem| == SIZE && Placed(b) && Placed(from) && n <= b.size && n <= from.size
    ensures Contents(h.(mem := CopyInto(h.mem, Off(from.user), Off(b.user), n)), b)[..n] == Contents(h, from)[..n]
  {
    var mem := CopyInto(h.mem, Off(from.user), Off(b.user), n);
    var moved := mem[Off(b.user)..Off(b.user) + n];
    assert moved == h.mem[Off(from.user)..Off(from.user) + n];
    assert mem[Off(b.user)..Off(b.user) + b.size][..n] == moved;
    assert h.mem[Off(from.user)..Off(from.user) + from.size][..n] == moved;
  }

  /** `realloc` keeps the first min(old, new) bytes, and leaves every older block as it was. */
  lemma ReallocPreserves(h: Heap, from: Block, size: u64)
    requires Valid(h) && from in h.blocks && NoWrap(h.tail, size)
    ensures IsBlock(h, from.user)
    ensures var (after, user) := Apply(h, Realloc(from.user, size));
            user != 0 ==>
              var b, n := Block(user, size, RoundUp(size)), Min(from.size, size);
              && Valid(after) && b in after.blocks && Placed(b) && Placed(from)
              && Contents(after, b)[..n] == Contents(h, from)[..n]
              && forall c :: c in h.blocks ==> Placed(c) && Contents(after, c) == Contents(h, c)
  {
    AllocateExact(h, size);
    AllocateKeepsValid(h, size);
    ReallocKeepsValid(h, from.user, size);
    CopyRoom(h, from.user, size);
    assert Stored(h.mem, from);
    var (mid, user) := Allocate(h, size);
    if user != 0 {
      var b, n := Block(user, size, RoundUp(size)), Min(from.size, size);
      AllocationFrames(h, size, from);
      CopyArrives(mid, from, b, n);
      forall c | c in h.blocks ensures Placed(c) && Contents(mid.(mem := CopyInto(mid.mem, Off(from.user), Off(b.user), n)), c) == Contents(h, c) {
        AllocationFrames(h, size, c);
        var j := InBlocks(h, c);
        BlockBeforeTail(h, j);
        CopyFrames(mid, Off(from.user), b, n, c);
      }
    }
  }

  // ── where the machine's arithmetic breaks the promise ────────────────────

  /** The answer is sound: null with the tail unmoved, or a block that ends by the arena's end. */
  predicate Sound(tail: u64, size: u64) {
    var (user, next) := Bump(tail, size);
    if user == 0 then next == tail else user == tail + 16 && user + size <= LIMIT && next == tail + 16 + RoundUp(size)
  }

  /**
   * The bump is sound exactly when the request's true end is a 64-bit address, or its size rounds
   * to zero by wrapping while the arena has no room even for the prefix.
   */
  lemma SoundExactly(tail: u64, size: u64)
    requires BASE <= tail <= LIMIT
    ensures Sound(tail, size) <==> NoWrap(tail, size) || (RoundUp(size) >= 0x1_0000_0000_0000_0000 && tail + 16 > LIMIT)
  {
    if NoWrap(tail, size) {
      BumpExact(tail, size);
    } else if RoundUp(size) >= 0x1_0000_0000_0000_0000 {
      assert GoodSize(size) == 0;
    } else {
      assert GoodSize(size) == RoundUp(size);
      assert Wrap64(tail + 16 + GoodSize(size)) == tail + 16 + GoodSize(size) - 0x1_0000_0000_0000_0000;
    }
  }

  /** The largest size rounds to zero: `malloc` answers with a block that the next one starts on. */
  lemma MallocTooSmall(tail: u64)
    requires BASE <= tail && tail + 16 <= LIMIT
    ensures !Sound(tail, 0xFFFF_FFFF_FFFF_FFFF) && Bump(tail, 0xFFFF_FFFF_FFFF_FFFF) == (tail + 16, tail + 16)
  {
    assert GoodSize(0xFFFF_FFFF_FFFF_FFFF) == 0;
    SoundExactly(tail, 0xFFFF_FFFF_FFFF_FFFF);
  }

  /** `calloc`'s answer is sound: null with the tail unmoved, or room for all `count` elements inside the arena. */
  predicate CallocSound(tail: u64, count: u64, size: u64) { RoomSound(tail, count * size) }

  predicate RoomSound(tail: u64, total: nat) {
    var (user, next) := Bump(tail, Wrap64(total));
    if user == 0 then next == tail else user == tail + 16 && user + total <= LIMIT && next == tail + 16 + RoundUp(total)
  }

  /** It is so exactly when the wrapped request does not fit, or neither the product nor the true end wraps. */
  lemma CallocSoundExactly(tail: u64, count: u64, size: u64)
    requires BASE <= tail <= LIMIT
    ensures CallocSound(tail, count, size) <==>
            Wrap64(tail + 16 + GoodSize(Wrap64(count * size))) > LIMIT || (count * size < 0x1_0000_0000_0000_0000 && NoWrap(tail, count * size))
  {
    RoomExactly(tail, count * size);
  }

  lemma RoomExactly(tail: u64, total: nat)
    requires BASE <= tail <= LIMIT
    ensures RoomSound(tail, total) <==>
            Wrap64(tail + 16 + GoodSize(Wrap64(total))) > LIMIT || (total < 0x1_0000_0000_0000_0000 && NoWrap(tail, total))
  {
    WrapSmall(tail + 16);
    if total < 0x1_0000_0000_0000_0000 {
      WrapSmall(total);
      SoundExactly(tail, total);
      if RoundUp(total) >= 0x1_0000_0000_0000_0000 { assert GoodSize(total) == 0; }
    }
  }

  // ── the shims, in any state ──────────────────────────────────────────────

  /** What a call leaves: the tail, the arena's bytes, and the answer. */
  datatype Raw = Raw(tail: u64, mem: seq<byte>, user: u64)

  predicate InArena(addr: int, n: nat) { BASE <= addr && addr + n <= LIMIT }

  /** `malloc` for any tail and any size; no answer when it writes outside the arena. */
  function RawAllocate(tail: u64, mem: seq<byte>, size: u64): (r: Option<Raw>)
    requires |mem| == SIZE
    ensures r.Some? ==> |r.value.mem| == SIZE
  {
    var end := Wrap64(tail + 16 + GoodSize(size));
    if end > LIMIT then Some(Raw(tail, mem, 0))
    else if !InArena(tail, 8) then None
    else Some(Raw(end, Splice(mem, Off(tail), LittleEndian(size, 8)), Wrap64(tail + 16)))
  }

  /** `malloc_size` of any pointer: 0 for null and foreign ones, else the eight bytes before it, if they are mapped. */
  function RawSize(mapped: bool, mem: seq<byte>, ptr: u64): Option<nat>
    requires |mem| == SIZE
  {
    if ptr < 16 || !(BASE <= ptr - 16 < LIMIT) then Some(0)
    else if !mapped || !InArena(ptr - 16, 8) then None
    else Some(StoredSize(mem, ptr))
  }

  /** Null and every pointer whose prefix lies outside the arena have size 0. */
  lemma ForeignIsZero(mapped: bool, mem: seq<byte>, ptr: u64)
    requires |mem| == SIZE && (ptr < BASE + 16 || ptr >= LIMIT + 16)
    ensures RawSize(mapped, mem, ptr) == Some(0)
  {
  }

  predicate Overlap(a: int, b: int, n: nat) { a < b + n && b < a + n }

  /** Two runs of `n` bytes overlap exactly when they share one. */
  lemma OverlapIsShared(a: int, b: int, n: nat)
    ensures Overlap(a, b, n) <==> exists k :: InRun(k, a, n) && InRun(k, b, n)
  {
    if Overlap(a, b, n) {
      var k := if a < b then b else a;
      assert InRun(k, a, n) && InRun(k, b, n);
    }
  }

  predicate InRun(k: int, a: int, n: nat) { a <= k < a + n }

  /** `copy_nonoverlapping`, which must be given what its name says. */
  function RawCopy(r: Raw, ptr: u64, n: nat): Option<Raw>
    requires |r.mem| == SIZE
  {
    if !InArena(ptr, n) || !InArena(r.user, n) || Overlap(ptr, r.user, n) then None
    else Some(r.(mem := CopyInto(r.mem, Off(ptr), Off(r.user), n)))
  }

  /** `realloc` of any pointer. */
  function RawRealloc(mapped: bool, tail: u64, mem: seq<byte>, ptr: u64, size: u64): Option<Raw>
    requires |mem| == SIZE
  {
    if ptr == 0 then RawAllocate(tail, mem, size)
    else
      match RawSize(mapped, mem, ptr)
      case None => None
      case Some(length) =>
        match RawAllocate(tail, mem, size)
        case None => None
        case Some(r) => if r.user == 0 || length == 0 then Some(r) else RawCopy(r, ptr, Min(length, size))
  }

  lemma MachineConstants()
    ensures GoodSize(8) == 16 && Wrap64(BASE + SIZE) == LIMIT
  {
  }

  /** The answer from the sums the shim forms. */
  lemma RawFromSums(tail: u64, mem: seq<byte>, size: u64, end: u64)
    requires |mem| == SIZE && end == Wrap64(tail + 16 + GoodSize(size))
    ensures end > LIMIT ==> RawAllocate(tail, mem, size) == Some(Raw(tail, mem, 0))
    ensures end <= LIMIT && !InArena(tail, 8) ==> RawAllocate(tail, mem, size) == None
    ensures end <= LIMIT && InArena(tail, 8) ==>
              && Wrap64(tail + 16) == tail + 16
              && RawAllocate(tail, mem, size) == Some(Raw(end, Splice(mem, Off(tail), LittleEndian(size, 8)), tail + 16))
  {
    if InArena(tail, 8) { WrapSmall(tail + 16); }
  }

  lemma RawExact(tail: u64, mem: seq<byte>, size: u64)
    requires |mem| == SIZE && NoWrap(tail, size) && BASE <= tail <= LIMIT
    ensures RawAllocate(tail, mem, size) ==
            if tail + 16 + RoundUp(size) > LIMIT then Some(Raw(tail, mem, 0))
            else Some(Raw(tail + 16 + RoundUp(size), Splice(mem, Off(tail), LittleEndian(size, 8)), tail + 16))
  {
    MachineSums(tail, size);
    WrapSmall(tail + 16);
  }

  /** While the true end is a 64-bit address this is the allocation on blocks. */
  lemma RawIsAllocate(h: Heap, size: u64)
    requires Valid(h) && NoWrap(h.tail, size)
    ensures var (after, user) := Allocate(h, size); RawAllocate(h.tail, h.mem, size) == Some(Raw(after.tail, after.mem, user))
  {
    AllocateExact(h, size);
    RawExact(h.tail, h.mem, size);
  }

  predicate Recorded(before: seq<Block>, after: seq<Block>, size: u64, user: u64) {
    after == if user == 0 then before else before + [Block(user, size, RoundUp(size))]
  }

  /** The machine's answer, with its block recorded, is the allocation. */
  lemma SoundAnswer(h: Heap, size: u64, after: Heap, user: u64)
    requires Valid(h) && NoWrap(h.tail, size)
    requires RawAllocate(h.tail, h.mem, size) == Some(Raw(after.tail, after.mem, user)) && Recorded(h.blocks, after.blocks, size, user)
    ensures (after, user) == Allocate(h, size) && Valid(after)
  {
    RawIsAllocate(h, size);
    AllocateExact(h, size);
    AllocateKeepsValid(h, size);
  }

  /** The same for `realloc`. */
  lemma SoundMove(h: Heap, ptr: u64, size: u64, after: Heap, user: u64)
    requires Valid(h) && Allowed(h, Realloc(ptr, size)) && ptr != 0
    requires RawRealloc(true, h.tail, h.mem, ptr, size) == Some(Raw(after.tail, after.mem, user)) && Recorded(h.blocks, after.blocks, size, user)
    ensures (after, user) == Apply(h, Realloc(ptr, size)) && Valid(after)
  {
    RawIsRealloc(h, ptr, size);
    AllocateExact(h, size);
    ReallocKeepsValid(h, ptr, size);
  }

  lemma TailPastBase(h: Heap)
    requires Chained(h) && h.blocks != []
    ensures h.tail > BASE
  {
    assert Linked(h.blocks, 0);
    BlockBeforeTail(h, 0);
  }

  lemma RawSizeOfBlock(h: Heap, b: Block)
    requires Valid(h) && b in h.blocks
    ensures RawSize(true, h.mem, b.user) == Some(b.size) && BlockSize(h, b.user) == b.size
  {
    assert Stored(h.mem, b);
  }

  /** A new block has room for the bytes of an older one, which lies wholly before it. */
  lemma MoveFits(h: Heap, b: Block, size: u64)
    requires Valid(h) && b in h.blocks && NoWrap(h.tail, size) && Allocate(h, size).1 != 0
    ensures var user, n := Allocate(h, size).1, Min(b.size, size); InArena(b.user, n) && InArena(user, n) && !Overlap(b.user, user, n)
  {
    var j := InBlocks(h, b);
    BlockBeforeTail(h, j);
    AllocateExact(h, size);
    assert Stored(h.mem, b);
  }

  lemma RawIsRealloc(h: Heap, ptr: u64, size: u64)
    requires Valid(h) && Allowed(h, Realloc(ptr, size))
    ensures var (after, user) := Apply(h, Realloc(ptr, size)); RawRealloc(true, h.tail, h.mem, ptr, size) == Some(Raw(after.tail, after.mem, user))
  {
    RawIsAllocate(h, size);
    if ptr != 0 {
      var b :| b in h.blocks && b.user == ptr;
      RawSizeOfBlock(h, b);
      var (mid, user) := Allocate(h, size);
      if user != 0 {
        MoveFits(h, b, size);
        EmptyCopy(mid.mem, Off(ptr), Off(user));
      }
    }
  }

  /** The arena, mapped on first use: `head` is 0 until then. */
  class Arena {
    var head: u64
    var top: u64
    const mem: array<byte>
    ghost var blocks: seq<Block>

    ghost function View(): Heap
      reads this, mem
    {
      Heap(if head == 0 then BASE else top, mem[..], blocks)
    }

    ghost predicate Rep()
      reads this, mem
    {
      mem.Length == SIZE && (head == 0 || head == BASE) && Valid(View())
    }

    constructor ()
      ensures Rep() && View() == Empty() && fresh(mem)
    {
      head, top := 0, 0;
      mem := new byte[SIZE](_ => 0);
      blocks := [];
      new;
      assert mem[..] == Empty().mem;
      EmptyValid();
    }

    /** Mapped as `setupHeap` maps it, or not yet. */
    ghost predicate Mappable()
      reads this
    {
      mem.Length == SIZE && (head == 0 || head == BASE)
    }

    /** The arena is as the call left it, and it answered so; on `None` nothing is promised. */
    ghost predicate Left(r: Option<Raw>, user: Option<u64>)
      reads this, mem
    {
      match r
      case None => user == None
      case Some(raw) => user == Some(raw.user) && View().tail == raw.tail && mem[..] == raw.mem
    }

    /** The bump itself, for every size and state. */
    method BumpShim(size: u64) returns (user: Option<u64>)
      requires Mappable()
      modifies this, mem
      ensures Mappable() && Left(old(RawAllocate(View().tail, mem[..], size)), user)
      ensures user.Some? ==> Recorded(old(blocks), blocks, size, user.value)
    {
      var prefix, rounded := GoodSize(8), GoodSize(size);
      if head == 0 {
        head, top := BASE, BASE;
      }
      var end, limit := Wrap64(top + prefix + rounded), Wrap64(head + SIZE);
      MachineConstants();
      RawFromSums(top, mem[..], size, end);
      if end > limit {
        return Some(0);
      }
      if !InArena(top, 8) {
        return None;
      }
      Store(mem, top - BASE, LittleEndian(size, 8));
      user := Some(Wrap64(top + prefix));
      top := end;
      blocks := blocks + [Block(user.value, size, RoundUp(size))];
    }

    /** `shim_malloc` as the machine has it; and while no sum wraps, as the blocks have it. */
    method MallocShim(size: u64) returns (user: Option<u64>)
      requires Mappable()
      modifies this, mem
      ensures Mappable() && Left(old(RawAllocate(View().tail, mem[..], size)), user)
      ensures user.Some? ==> Recorded(old(blocks), blocks, size, user.value)
      ensures old(Rep() && NoWrap(View().tail, size)) ==> Rep() && user.Some? && (View(), user.value) == Allocate(old(View()), size)
    {
      ghost var before, sound := View(), Rep() && NoWrap(View().tail, size);
      user := BumpShim(size);
      if sound {
        RawIsAllocate(before, size);
        SoundAnswer(before, size, View(), user.value);
      }
    }

    method CallocShim(count: u64, size: u64) returns (user: Option<u64>)
      requires Mappable()
      modifies this, mem
      ensures Mappable() && Left(old(RawAllocate(View().tail, mem[..], Wrap64(count * size))), user)
      ensures old(Rep() && Allowed(View(), Calloc(count, size))) ==> Rep() && user.Some? && (View(), user.value) == Apply(old(View()), Calloc(count, size))
    {
      user := MallocShim(Wrap64(count * size));
    }

    /** `shim_malloc_size` of any pointer, and of a block. */
    method MallocSize(ptr: u64) returns (size: Option<nat>)
      requires Mappable()
      ensures size == RawSize(head != 0, mem[..], ptr)
      ensures Rep() ==> forall b :: b in blocks && b.user == ptr ==> size == Some(b.size)
    {
      ghost var h := View();
      if ptr < 16 {
        size := Some(0);
      } else if !(BASE <= ptr - 16 < BASE + SIZE) {
        size := Some(0);
      } else if head == 0 || !InArena(ptr - 16, 8) {
        size := None;
      } else {
        var at := ptr - 16 - BASE;
        size := Some(FromLittleEndian(mem[at..at + 8]));
        assert mem[at..at + 8] == mem[..][at..at + 8];
      }
      if Rep() {
        forall b | b in blocks && b.user == ptr ensures size == Some(b.size) {
          MappedOnce();
          RawSizeOfBlock(h, b);
        }
      }
    }

    /** There are no blocks before the arena is mapped. */
    lemma MappedOnce()
      requires Rep() && blocks != []
      ensures head == BASE
    {
      TailPastBase(View());
    }

    method FreeShim(ptr: u64)
      requires Rep()
      ensures View() == Apply(View(), Free(ptr)).0
    {
    }

    /** The copy of `realloc`. */
    method CopyBlock(ptr: u64, user: u64, n: nat) returns (ok: bool)
      requires mem.Length == SIZE
      modifies mem
      ensures ok <==> InArena(ptr, n) && InArena(user, n) && !Overlap(ptr, user, n)
      ensures ok ==> mem[..] == CopyInto(old(mem[..]), Off(ptr), Off(user), n)
    {
      ok := InArena(ptr, n) && InArena(user, n) && !Overlap(ptr, user, n);
      if ok {
        var from := ptr - BASE;
        Store(mem, user - BASE, mem[from..from + n]);
      }
    }

    method ReallocShim(ptr: u64, size: u64) returns (user: Option<u64>)
      requires Mappable()
      modifies this, mem
      ensures Mappable() && Left(old(RawRealloc(head != 0, View().tail, mem[..], ptr, size)), user)
      ensures old(Rep() && Allowed(View(), Realloc(ptr, size))) ==> Rep() && user.Some? && (View(), user.value) == Apply(old(View()), Realloc(ptr, size))
    {
      if ptr == 0 {
        user := MallocShim(size);
        return;
      }
      ghost var before, sound := View(), Rep() && Allowed(View(), Realloc(ptr, size));
      if sound {
        MappedOnce();
        RawIsRealloc(before, ptr, size);
      }
      user := MoveBlock(ptr, size);
      if sound { SoundMove(before, ptr, size, View(), user.value); }
    }

    /** `realloc` of a pointer that is not null. */
    method MoveBlock(ptr: u64, size: u64) returns (user: Option<u64>)
      requires Mappable() && ptr != 0
      modifies this, mem
      ensures Mappable() && Left(old(RawRealloc(head != 0, View().tail, mem[..], ptr, size)), user)
      ensures user.Some? ==> Recorded(old(blocks), blocks, size, user.value)
    {
      var length := MallocSize(ptr);
      if length == None { return None; }
      user := MallocShim(size);
      if user == None || user == Some(0) || length == Some(0) { return; }
      var ok := CopyBlock(ptr, user.value, Min(length.value, size));
      if !ok { return None; }
    }

    /** The guest writes one byte of one of its blocks. */
    method GuestWrite(addr: u64, value: byte)
      requires Rep() && InSomeBlock(View(), addr)
      modifies mem
      ensures Rep() && View() == Apply(old(View()), Write(addr, value)).0
    {
      ghost var before := View();
      ApplyKeepsValid(before, Write(addr, value));
      InnerIndex(before, addr);
      mem[addr - BASE] := value;
      assert View() == before.(mem := before.mem[Off(addr) := value]);
      assert View() == Apply(before, Write(addr, value)).0;
    }
  }

  lemma EmptyCopy(mem: seq<byte>, from: nat, to: nat)
    requires from <= |mem| && to <= |mem|
    ensures CopyInto(mem, from, to, 0) == mem
  {
  }

  /** 2^32 elements of 2^32 bytes: `calloc` answers with a block of no bytes. */
  lemma CallocTooSmall(h: Heap)
    requires Valid(h) && h.tail + 16 <= LIMIT
    ensures var op := Calloc(0x1_0000_0000, 0x1_0000_0000);
            && Allowed(h, op) && !CallocSound(h.tail, op.count, op.size)
            && var (after, user) := Apply(h, op); user == h.tail + 16 && after.blocks == h.blocks + [Block(user, 0, 0)]
  {
    assert Wrap64(0x1_0000_0000 * 0x1_0000_0000) == 0 && RoundUp(0) == 0;
    AllocateExact(h, 0);
  }
}
