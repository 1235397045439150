/**
 * Relocation blocks printed in the layout of the format, the places they ask the loader to rewrite,
 * and the numbers those places hold after the load.
 */
module PePrint {
  import opened Bytes
  import opened Wrappers
  import opened PeLoad

  // ── the printer ──────────────────────────────────────────────────────────

  type Kind = k: int | 0 <= k < 16

  type InPage = o: int | 0 <= o < 0x1000

  /** A kind in the high four bits, an offset in the low twelve. */
  datatype Entry = Entry(kind: Kind, offset: InPage)

  datatype Block = Block(page: u32, entries: seq<Entry>)

  const DIR64: Kind := 10
  const HIGHLOW: Kind := 3

  function PrintEntries(es: seq<Entry>): (bs: seq<byte>)
    ensures |bs| == 2 * |es|
  {
    if es == [] then [] else LittleEndian(es[0].kind * 0x1000 + es[0].offset, 2) + PrintEntries(es[1..])
  }

  function PrintBlock(b: Block): (bs: seq<byte>)
    ensures |bs| == 8 + 2 * |b.entries|
  {
    LittleEndian(b.page, 4) + LittleEndian(8 + 2 * |b.entries|, 4) + PrintEntries(b.entries)
  }

  function PrintBlocks(blocks: seq<Block>): seq<byte> {
    if blocks == [] then [] else PrintBlock(blocks[0]) + PrintBlocks(blocks[1..])
  }

  // ── the places asked for ─────────────────────────────────────────────────

  function Target(e: Entry, page: u32): nat { (page + e.offset) % 0x1_0000_0000 }

  /**
   * The places of one entry in a mapping of `size` bytes: eight bytes for a 64-bit fixup, four for a
   * 32-bit one, none for other kinds or within eight bytes of the end; None where the sum of that
   * test wraps and the access leaves the mapping.
   */
  function Place(e: Entry, page: u32, size: u32): Option<seq<Slot>> {
    var at := Target(e, page);
    if e.kind != DIR64 && e.kind != HIGHLOW then Some([])
    else if at + 8 <= size then Some([Slot(at, if e.kind == DIR64 then 8 else 4)])
    else if at + 8 < 0x1_0000_0000 || at + 8 - 0x1_0000_0000 > size then Some([])
    else if e.kind == HIGHLOW && at + 4 <= size then Some([Slot(at, 4)])
    else None
  }

  function Joined(a: Option<seq<Slot>>, b: Option<seq<Slot>>): Option<seq<Slot>> {
    if a.Some? && b.Some? then Some(a.value + b.value) else None
  }

  function EntryPlaces(es: seq<Entry>, page: u32, size: u32): Option<seq<Slot>> {
    if es == [] then Some([]) else Joined(Place(es[0], page, size), EntryPlaces(es[1..], page, size))
  }

  /** The places of all the blocks, in order. */
  function Places(blocks: seq<Block>, size: u32): Option<seq<Slot>> {
    if blocks == [] then Some([]) else Joined(EntryPlaces(blocks[0].entries, blocks[0].page, size), Places(blocks[1..], size))
  }

  // ── reading what was printed ─────────────────────────────────────────────

  /** The bytes `p` stand at `at`. */
  predicate Lies(mem: seq<byte>, at: nat, p: seq<byte>) { at + |p| <= |mem| && mem[at..at + |p|] == p }

  lemma LiesApart(mem: seq<byte>, at: nat, a: seq<byte>, b: seq<byte>)
    requires Lies(mem, at, a + b)
    ensures Lies(mem, at, a) && Lies(mem, at + |a|, b)
  {
    var whole := mem[at..at + |a + b|];
    assert whole[..|a|] == a && whole[|a|..] == b;
  }

  lemma ReadsTwo(mem: seq<byte>, at: nat, v: u16)
    requires Lies(mem, at, LittleEndian(v, 2))
    ensures ReadLe16(mem, at) == v
  {
    var low: byte, high: byte := v % 0x100, v / 0x100;
    assert LittleEndian(high, 1) == [high] + LittleEndian(high / 0x100, 0);
    assert LittleEndian(v, 2) == [low, high];
    assert mem[at..at + 2][0] == mem[at] && mem[at..at + 2][1] == mem[at + 1];
  }

  lemma FourOf(bs: seq<byte>)
    requires |bs| == 4
    ensures FromLittleEndian(bs) == ReadLe32(bs, 0)
  {
    var n: nat, l: nat, m: nat := bs[3], bs[2], bs[1];
    assert FromLittleEndian(bs[3..]) == n;
    assert bs[2..][1..] == bs[3..] && bs[1..][1..] == bs[2..];
    assert FromLittleEndian(bs[2..]) == l + 0x100 * n;
    assert FromLittleEndian(bs[1..]) == m + 0x100 * (l + 0x100 * n);
  }

  lemma Distribute(b: nat, low: nat, p: nat, n: nat)
    ensures b + 0x100 * (low + p * n) == b + 0x100 * low + (0x100 * p) * n
  {
  }

  lemma {:induction false} FromLittleEndianParts(a: seq<byte>, b: seq<byte>)
    ensures FromLittleEndian(a + b) == FromLittleEndian(a) + Pow256(|a|) * FromLittleEndian(b)
  {
    if a == [] {
      assert a + b == b;
    } else {
      var low, p, n := FromLittleEndian(a[1..]), Pow256(|a| - 1), FromLittleEndian(b);
      assert (a + b)[1..] == a[1..] + b;
      FromLittleEndianParts(a[1..], b);
      Distribute(a[0], low, p, n);
    }
  }

  /** A slot's value is the word read there. */
  lemma FourBytes(mem: seq<byte>, at: nat)
    requires at + 4 <= |mem|
    ensures FromLittleEndian(mem[at..at + 4]) == ReadLe32(mem, at)
  {
    FourOf(mem[at..at + 4]);
  }

  lemma EightBytes(mem: seq<byte>, at: nat)
    requires at + 8 <= |mem|
    ensures FromLittleEndian(mem[at..at + 8]) == ReadLe64(mem, at)
  {
    assert mem[at..at + 8] == mem[at..at + 4] + mem[at + 4..at + 8];
    FromLittleEndianParts(mem[at..at + 4], mem[at + 4..at + 8]);
    FourBytes(mem, at);
    FourBytes(mem, at + 4);
    assert Pow256(4) == 0x1_0000_0000;
  }

  lemma ReadsFour(mem: seq<byte>, at: nat, v: u32)
    requires Lies(mem, at, LittleEndian(v, 4))
    ensures ReadLe32(mem, at) == v
  {
    assert Pow256(4) == 0x1_0000_0000;
    LittleEndianRoundTrip(v, 4);
    FourBytes(mem, at);
  }

  // ── the walk meets exactly the places ────────────────────────────────────

  /** What the walk reads an entry as is the place it asks for. */
  lemma DecodesEntry(e: Entry, page: u32, size: u32)
    ensures var t := Decode(e.kind * 0x1000 + e.offset, page, size);
            Place(e, page, size) == match t case Skip => Some([]) case Wild => None case Patch(s) => Some([s])
  {
    var word := e.kind * 0x1000 + e.offset;
    assert word / 0x1000 == e.kind && word % 0x1000 == e.offset;
  }

  function Past(c: Cursor, n: nat): Cursor
    requires n <= c.left
  {
    Cursor(c.off, c.at + 2 * n, c.left - n, c.page)
  }

  /** One entry and the slots met after it. */
  lemma EntryMet(mem: seq<byte>, rva: nat, total: nat, c: Cursor, e: Entry, rest: Option<seq<Slot>>)
    requires Directory(|mem|, rva, total) && Fits(|mem|, c) && c.left > 0 && ReadLe16(mem, c.at) == e.kind * 0x1000 + e.offset
    requires rest == Slots(mem, rva, total, Advance(c))
    ensures Slots(mem, rva, total, c) == Joined(Place(e, c.page, |mem|), rest)
  {
    DecodesEntry(e, c.page, |mem|);
    JoinedNothing(rest);
  }

  lemma JoinedAssociates(a: Option<seq<Slot>>, b: Option<seq<Slot>>, c: Option<seq<Slot>>)
    ensures Joined(Joined(a, b), c) == Joined(a, Joined(b, c))
  {
    if a.Some? && b.Some? && c.Some? { assert (a.value + b.value) + c.value == a.value + (b.value + c.value); }
  }

  lemma JoinedNothing(a: Option<seq<Slot>>)
    ensures Joined(Some([]), a) == a && Joined(a, Some([])) == a
  {
    if a.Some? { assert [] + a.value == a.value && a.value + [] == a.value; }
  }

  lemma {:induction false} EntriesMet(mem: seq<byte>, rva: nat, total: nat, c: Cursor, es: seq<Entry>, rest: Option<seq<Slot>>)
    requires Directory(|mem|, rva, total) && Fits(|mem|, c) && c.left == |es| && Lies(mem, c.at, PrintEntries(es))
    requires rest == Slots(mem, rva, total, Past(c, c.left))
    ensures Slots(mem, rva, total, c) == Joined(EntryPlaces(es, c.page, |mem|), rest)
    decreases |es|
  {
    if es == [] {
      assert Past(c, 0) == c;
      JoinedNothing(rest);
    } else {
      var e, more, size := es[0], es[1..], |mem|;
      LiesApart(mem, c.at, LittleEndian(e.kind * 0x1000 + e.offset, 2), PrintEntries(more));
      ReadsTwo(mem, c.at, e.kind * 0x1000 + e.offset);
      assert Past(Advance(c), c.left - 1) == Past(c, c.left);
      EntriesMet(mem, rva, total, Advance(c), more, rest);
      EntryMet(mem, rva, total, c, e, Joined(EntryPlaces(more, c.page, size), rest));
      JoinedAssociates(Place(e, c.page, size), EntryPlaces(more, c.page, size), rest);
    }
  }

  lemma HeaderPrinted(mem: seq<byte>, at: nat, b: Block)
    requires Lies(mem, at, PrintBlock(b)) && 8 + 2 * |b.entries| < 0x1_0000_0000
    ensures HeaderAt(mem, at) == Header(b.page, 8 + 2 * |b.entries|)
    ensures Lies(mem, at + 8, PrintEntries(b.entries))
  {
    var page, size, es := LittleEndian(b.page, 4), LittleEndian(8 + 2 * |b.entries|, 4), PrintEntries(b.entries);
    LiesApart(mem, at, page + size, es);
    LiesApart(mem, at, page, size);
    ReadsFour(mem, at, b.page);
    ReadsFour(mem, at + 4, 8 + 2 * |b.entries|);
  }

  lemma Entered(rva: nat, total: nat, off: nat, page: u32, n: nat)
    requires off + 8 + 2 * n <= total < 0x1_0000_0000
    ensures Enter(rva, total, off, Header(page, 8 + 2 * n)) == Some(Cursor(off + 8 + 2 * n, rva + off + 8, n, page))
  {
    var size: u32 := 8 + 2 * n;
    assert Wrap32(off + size) == off + size && (size - 8) / 2 == n;
  }

  lemma SlotsEnter(mem: seq<byte>, rva: nat, total: nat, c: Cursor, h: Header, next: Cursor)
    requires Directory(|mem|, rva, total) && Fits(|mem|, c) && c.left == 0 && c.off + 8 <= total
    requires HeaderAt(mem, rva + c.off) == h && Enter(rva, total, c.off, h) == Some(next) && Fits(|mem|, next)
    ensures Slots(mem, rva, total, c) == Slots(mem, rva, total, next)
  {
    HeaderInside(|mem|, rva, total, c.off);
  }

  /** One printed block from its header on: the places of its entries, then what follows it. */
  lemma BlockMet(mem: seq<byte>, rva: nat, total: nat, c: Cursor, b: Block, next: Cursor, found: Option<seq<Slot>>)
    requires Directory(|mem|, rva, total) && Fits(|mem|, c) && c.left == 0 && next.off <= total
    requires next == Cursor(c.off + 8 + 2 * |b.entries|, rva + c.off + 8, |b.entries|, b.page)
    requires HeaderAt(mem, rva + c.off) == Header(b.page, 8 + 2 * |b.entries|)
    requires found == Slots(mem, rva, total, next)
    ensures Slots(mem, rva, total, c) == found
  {
    Entered(rva, total, c.off, b.page, |b.entries|);
    SlotsEnter(mem, rva, total, c, Header(b.page, 8 + 2 * |b.entries|), next);
  }

  /** Past the last block: the walk ends, unless the test for another header wraps and reads past the mapping. */
  lemma NothingMet(mem: seq<byte>, rva: nat, total: nat, c: Cursor)
    requires Directory(|mem|, rva, total) && Fits(|mem|, c) && c.left == 0 && c.off <= total < c.off + 8
    ensures Slots(mem, rva, total, c) == if c.off + 8 < 0x1_0000_0000 then Some([]) else None
  {
    HeaderInside(|mem|, rva, total, c.off);
  }

  /**
   * Over a directory of printed blocks, and fewer than eight bytes after them, the walk meets exactly
   * the places asked for, in order; the walk crashes if the blocks end within eight bytes of 2^32.
   */
  lemma {:induction false} BlocksMet(mem: seq<byte>, rva: nat, total: nat, c: Cursor, blocks: seq<Block>, tail: seq<byte>)
    requires Directory(|mem|, rva, total) && Fits(|mem|, c) && c.left == 0 && |tail| < 8
    requires c.off + |PrintBlocks(blocks)| + |tail| == total && Lies(mem, rva + c.off, PrintBlocks(blocks) + tail)
    ensures Slots(mem, rva, total, c) == if total - |tail| + 8 < 0x1_0000_0000 then Places(blocks, |mem|) else None
    decreases |blocks|
  {
    if blocks == [] {
      NothingMet(mem, rva, total, c);
    } else {
      var b, rest := blocks[0], PrintBlocks(blocks[1..]) + tail;
      assert PrintBlocks(blocks) + tail == PrintBlock(b) + rest;
      LiesApart(mem, rva + c.off, PrintBlock(b), rest);
      HeaderPrinted(mem, rva + c.off, b);
      var next := Cursor(c.off + 8 + 2 * |b.entries|, rva + c.off + 8, |b.entries|, b.page);
      BlocksMet(mem, rva, total, Past(next, next.left), blocks[1..], tail);
      EntriesMet(mem, rva, total, next, b.entries, Slots(mem, rva, total, Past(next, next.left)));
      BlockMet(mem, rva, total, c, b, next, Slots(mem, rva, total, next));
    }
  }

  /** The whole directory. */
  lemma DirectoryMet(mem: seq<byte>, rva: nat, total: nat, blocks: seq<Block>, tail: seq<byte>)
    requires Directory(|mem|, rva, total) && |tail| < 8 && |PrintBlocks(blocks)| + |tail| == total
    requires Lies(mem, rva, PrintBlocks(blocks) + tail)
    ensures Slots(mem, rva, total, START) == if total - |tail| + 8 < 0x1_0000_0000 then Places(blocks, |mem|) else None
  {
    BlocksMet(mem, rva, total, START, blocks, tail);
  }

  // ── the numbers the places hold ──────────────────────────────────────────

  lemma {:induction false} EntryPlaced(es: seq<Entry>, page: u32, size: u32, j: nat, s: Slot)
    requires j < |es| && Place(es[j], page, size) == Some([s]) && EntryPlaces(es, page, size).Some?
    ensures s in EntryPlaces(es, page, size).value
    decreases |es|
  {
    if j == 0 {
      assert [s][0] == s;
    } else {
      EntryPlaced(es[1..], page, size, j - 1, s);
    }
  }

  lemma {:induction false} BlockPlaced(blocks: seq<Block>, size: u32, i: nat, j: nat, s: Slot)
    requires i < |blocks| && j < |blocks[i].entries| && Place(blocks[i].entries[j], blocks[i].page, size) == Some([s])
    requires Places(blocks, size).Some?
    ensures s in Places(blocks, size).value
    decreases |blocks|
  {
    if i == 0 {
      EntryPlaced(blocks[0].entries, blocks[0].page, size, j, s);
    } else {
      BlockPlaced(blocks[1..], size, i - 1, j, s);
    }
  }

  /** The image as copied, with printed blocks and a tail of fewer than eight bytes as its relocation directory. */
  predicate PrintedDirectory(mem: seq<byte>, dir: (u32, u32), blocks: seq<Block>, tail: seq<byte>) {
    |tail| < 8 && |PrintBlocks(blocks)| + |tail| == dir.1 && Lies(mem, dir.0, PrintBlocks(blocks) + tail)
  }

  predicate InRawData(s: Section, at: nat, width: nat) { s.va <= at && at + width <= s.va + s.rawSize }

  lemma EntrySlot(mem: seq<byte>, dir: (u32, u32), blocks: seq<Block>, tail: seq<byte>, i: nat, j: nat, s: Slot)
    requires |mem| < 0x1_0000_0000 && GoodRelocations(mem, Some(dir)) && PrintedDirectory(mem, dir, blocks, tail)
    requires i < |blocks| && j < |blocks[i].entries| && Place(blocks[i].entries[j], blocks[i].page, |mem|) == Some([s])
    ensures s in SlotsOf(mem, Some(dir)) && s.End() <= |mem|
  {
    DirectoryMet(mem, dir.0, dir.1, blocks, tail);
    BlockPlaced(blocks, |mem|, i, j, s);
  }

  lemma RawInside(sections: seq<Section>, k: nat, size: nat)
    requires k < |sections| && InBounds(sections, size)
    ensures sections[k].va + sections[k].rawSize <= size
  {
    assert sections[k] in sections;
  }

  lemma WidePlace(e: Entry, page: u32, size: u32)
    requires e.kind == 10 && Target(e, page) + 8 <= size
    ensures Place(e, page, size) == Some([Slot(Target(e, page), 8)])
  {
  }

  lemma NarrowPlace(e: Entry, page: u32, size: u32)
    requires e.kind == 3 && Target(e, page) + 8 <= size
    ensures Place(e, page, size) == Some([Slot(Target(e, page), 4)])
  {
  }

  lemma WordMoved64(after: seq<byte>, before: seq<byte>, at: nat, off: nat, slide: u64)
    requires at + 8 <= |after| && off + 8 <= |before|
    requires FromLittleEndian(after[at..at + 8]) == (FromLittleEndian(before[off..off + 8]) + slide) % Pow256(8)
    ensures ReadLe64(after, at) == (ReadLe64(before, off) + slide) % 0x1_0000_0000_0000_0000
  {
    EightBytes(after, at);
    EightBytes(before, off);
    Pow256Eight();
  }

  lemma SlotWord64(file: seq<byte>, mem: seq<byte>, slots: seq<Slot>, slide: u64, at: nat, off: nat)
    requires (forall s :: s in slots ==> s.End() <= |mem|) && AllApart(slots) && Slot(at, 8) in slots
    requires at + 8 <= |mem| && off + 8 <= |file| && mem[at..at + 8] == file[off..off + 8]
    ensures ReadLe64(PatchAll(mem, slots, slide), at) == (ReadLe64(file, off) + slide) % 0x1_0000_0000_0000_0000
  {
    SlotValue(mem, slots, slide, Slot(at, 8));
    WordMoved64(PatchAll(mem, slots, slide), file, at, off, slide);
  }

  lemma SlotLoaded64(file: seq<byte>, size: u32, headerSize: u32, sections: seq<Section>, dir: (u32, u32), slide: u64, mem: seq<byte>,
                     slot: Slot, off: nat) returns (loaded: seq<byte>)
    requires CopyImage(file, size, headerSize, sections) == Some(mem) && |mem| == size
    requires GoodRelocations(mem, Some(dir)) && slot in SlotsOf(mem, Some(dir)) && slot.width == 8
    requires off + 8 <= |file| && mem[slot.at..slot.End()] == file[off..off + 8]
    ensures Loaded(file, size, headerSize, sections, Some(dir), slide) == Some(loaded) && slot.at + 8 <= |loaded|
    ensures ReadLe64(loaded, slot.at) == (ReadLe64(file, off) + slide) % 0x1_0000_0000_0000_0000
  {
    var slots := SlotsOf(mem, Some(dir));
    loaded := PatchAll(mem, slots, slide);
    SlotWord64(file, mem, slots, slide, slot.at, off);
    LoadedIsPatched(file, size, headerSize, sections, Some(dir), slide, mem);
  }

  /** Each 64-bit entry whose place lies in copied data: the word loaded is the file's word plus the slide, modulo 2^64. */
  lemma Fixup64(file: seq<byte>, size: u32, headerSize: u32, sections: seq<Section>, dir: (u32, u32), slide: u64, mem: seq<byte>,
                blocks: seq<Block>, tail: seq<byte>, i: nat, j: nat, k: nat) returns (loaded: seq<byte>, at: nat, off: nat)
    requires WellFormed(file, size, headerSize, sections) && CopyImage(file, size, headerSize, sections) == Some(mem) && |mem| == size
    requires GoodRelocations(mem, Some(dir)) && PrintedDirectory(mem, dir, blocks, tail)
    requires i < |blocks| && j < |blocks[i].entries| && blocks[i].entries[j].kind == 10
    requires k < |sections| && sections[k].Copied(file) && InRawData(sections[k], Target(blocks[i].entries[j], blocks[i].page), 8)
    ensures Loaded(file, size, headerSize, sections, Some(dir), slide) == Some(loaded)
    ensures at == Target(blocks[i].entries[j], blocks[i].page) && off == sections[k].rawPtr + (at - sections[k].va)
    ensures at + 8 <= |loaded| && off + 8 <= |file|
    ensures ReadLe64(loaded, at) == (ReadLe64(file, off) + slide) % 0x1_0000_0000_0000_0000
  {
    at := Target(blocks[i].entries[j], blocks[i].page);
    off := sections[k].rawPtr + (at - sections[k].va);
    RawInside(sections, k, size);
    WidePlace(blocks[i].entries[j], blocks[i].page, size);
    var slot := Slot(at, 8);
    assert slot in SlotsOf(mem, Some(dir)) && slot.End() <= size by { EntrySlot(mem, dir, blocks, tail, i, j, slot); }
    assert off + 8 <= |file| && mem[slot.at..slot.End()] == file[off..off + 8] by { SlotBytes(file, size, headerSize, sections, mem, slot, k); }
    loaded := SlotLoaded64(file, size, headerSize, sections, dir, slide, mem, slot, off);
  }

  lemma WordMoved32(after: seq<byte>, before: seq<byte>, at: nat, off: nat, slide: u64)
    requires at + 4 <= |after| && off + 4 <= |before|
    requires FromLittleEndian(after[at..at + 4]) == (FromLittleEndian(before[off..off + 4]) + slide) % Pow256(4)
    ensures ReadLe32(after, at) == (ReadLe32(before, off) + slide) % 0x1_0000_0000
  {
    FourBytes(after, at);
    FourBytes(before, off);
    assert Pow256(4) == 0x1_0000_0000;
  }

  lemma SlotWord32(file: seq<byte>, mem: seq<byte>, slots: seq<Slot>, slide: u64, at: nat, off: nat)
    requires (forall s :: s in slots ==> s.End() <= |mem|) && AllApart(slots) && Slot(at, 4) in slots
    requires at + 4 <= |mem| && off + 4 <= |file| && mem[at..at + 4] == file[off..off + 4]
    ensures ReadLe32(PatchAll(mem, slots, slide), at) == (ReadLe32(file, off) + slide) % 0x1_0000_0000
  {
    SlotValue(mem, slots, slide, Slot(at, 4));
    WordMoved32(PatchAll(mem, slots, slide), file, at, off, slide);
  }

  lemma SlotLoaded32(file: seq<byte>, size: u32, headerSize: u32, sections: seq<Section>, dir: (u32, u32), slide: u64, mem: seq<byte>,
                     slot: Slot, off: nat) returns (loaded: seq<byte>)
    requires CopyImage(file, size, headerSize, sections) == Some(mem) && |mem| == size
    requires GoodRelocations(mem, Some(dir)) && slot in SlotsOf(mem, Some(dir)) && slot.width == 4
    requires off + 4 <= |file| && mem[slot.at..slot.End()] == file[off..off + 4]
    ensures Loaded(file, size, headerSize, sections, Some(dir), slide) == Some(loaded) && slot.at + 4 <= |loaded|
    ensures ReadLe32(loaded, slot.at) == (ReadLe32(file, off) + slide) % 0x1_0000_0000
  {
    var slots := SlotsOf(mem, Some(dir));
    loaded := PatchAll(mem, slots, slide);
    SlotWord32(file, mem, slots, slide, slot.at, off);
    LoadedIsPatched(file, size, headerSize, sections, Some(dir), slide, mem);
  }

  /** Each 32-bit entry eight bytes or more from the end likewise, modulo 2^32. */
  lemma Fixup32(file: seq<byte>, size: u32, headerSize: u32, sections: seq<Section>, dir: (u32, u32), slide: u64, mem: seq<byte>,
                blocks: seq<Block>, tail: seq<byte>, i: nat, j: nat, k: nat) returns (loaded: seq<byte>, at: nat, off: nat)
    requires WellFormed(file, size, headerSize, sections) && CopyImage(file, size, headerSize, sections) == Some(mem) && |mem| == size
    requires GoodRelocations(mem, Some(dir)) && PrintedDirectory(mem, dir, blocks, tail)
    requires i < |blocks| && j < |blocks[i].entries| && blocks[i].entries[j].kind == 3
    requires k < |sections| && sections[k].Copied(file) && InRawData(sections[k], Target(blocks[i].entries[j], blocks[i].page), 4)
    requires Target(blocks[i].entries[j], blocks[i].page) + 8 <= size
    ensures Loaded(file, size, headerSize, sections, Some(dir), slide) == Some(loaded)
    ensures at == Target(blocks[i].entries[j], blocks[i].page) && off == sections[k].rawPtr + (at - sections[k].va)
    ensures at + 4 <= |loaded| && off + 4 <= |file|
    ensures ReadLe32(loaded, at) == (ReadLe32(file, off) + slide) % 0x1_0000_0000
  {
    at := Target(blocks[i].entries[j], blocks[i].page);
    off := sections[k].rawPtr + (at - sections[k].va);
    NarrowPlace(blocks[i].entries[j], blocks[i].page, size);
    var slot := Slot(at, 4);
    assert slot in SlotsOf(mem, Some(dir)) && slot.End() <= size by { EntrySlot(mem, dir, blocks, tail, i, j, slot); }
    assert off + 4 <= |file| && mem[slot.at..slot.End()] == file[off..off + 4] by { SlotBytes(file, size, headerSize, sections, mem, slot, k); }
    loaded := SlotLoaded32(file, size, headerSize, sections, dir, slide, mem, slot, off);
  }

  /** Every byte no 64-bit or 32-bit place covers, mapped from a copied section, is the file's byte. */
  lemma PlainByte(file: seq<byte>, size: u32, headerSize: u32, sections: seq<Section>, dir: (u32, u32), slide: u64, mem: seq<byte>,
                  blocks: seq<Block>, tail: seq<byte>, rva: u32, k: nat)
    requires WellFormed(file, size, headerSize, sections) && CopyImage(file, size, headerSize, sections) == Some(mem) && |mem| == size
    requires GoodRelocations(mem, Some(dir)) && PrintedDirectory(mem, dir, blocks, tail)
    requires Places(blocks, size).Some? ==> Untouched(Places(blocks, size).value, rva)
    requires k < |sections| && sections[k].Copied(file) && InRawData(sections[k], rva, 1)
    ensures var loaded, off := Loaded(file, size, headerSize, sections, Some(dir), slide), sections[k].rawPtr + (rva - sections[k].va);
            loaded.Some? && rva < |loaded.value| && off < |file| && loaded.value[rva] == file[off]
  {
    DirectoryMet(mem, dir.0, dir.1, blocks, tail);
    LoadedIsPatched(file, size, headerSize, sections, Some(dir), slide, mem);
    CopyHits(file, HeadersOnly(file, size, headerSize), sections, rva, k);
    UntouchedByte(mem, SlotsOf(mem, Some(dir)), slide, rva);
  }

  // ── one section, wherever it lies ────────────────────────────────────────

  /**
   * A section with file bytes is copied up to the end of the image, whatever its size, and crashes the
   * load exactly when it starts past the end.
   */
  lemma SectionCopied(file: seq<byte>, mem: seq<byte>, s: Section, k: nat)
    requires |mem| < 0x1_0000_0000 && s.rawSize != 0 && s.rawPtr != 0 && s.rawPtr + s.rawSize <= |file| && k < |mem|
    ensures var r := CopySection(file, mem, s);
            && (r.Some? <==> s.va <= |mem|)
            && (r.Some? ==> |r.value| == |mem| && r.value[k] == if s.va <= k < s.va + s.rawSize then file[s.rawPtr + (k - s.va)] else mem[k])
  {
  }

  // ── the file view ────────────────────────────────────────────────────────

  /** An address of the first section that holds it maps to its raw data, unless it is past that or the offset is past 2^32. */
  lemma {:induction false} OffsetIs(sections: seq<Section>, rva: u32, i: nat)
    requires i < |sections| && sections[i].Holds(rva) && forall j :: 0 <= j < i ==> !sections[j].Holds(rva)
    ensures var s := sections[i]; var off := s.rawPtr + (rva - s.va);
            RvaToOffset(sections, rva) == if rva < s.va + s.rawSize && off < 0x1_0000_0000 then Some(off) else None
    decreases i
  {
    if i > 0 { OffsetIs(sections[1..], rva, i - 1); }
  }

  /** An address in no section has none, and a section holds its larger size. */
  lemma {:induction false} NoOffset(sections: seq<Section>, rva: u32)
    requires forall s :: s in sections ==> rva < s.va || (rva >= s.va + s.virtualSize && rva >= s.va + s.rawSize)
    ensures RvaToOffset(sections, rva) == None
  {
    if sections != [] {
      assert sections[0] in sections;
      NoOffset(sections[1..], rva);
    }
  }
}
