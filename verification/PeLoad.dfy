/**
 * Copying and relocating a PE image (crates/perun-core/src/loader.rs) against the file view of the
 * same image (`rva_to_offset` in crates/perun-core/src/image.rs). The mapping is an array of
 * `size` bytes that starts zeroed; an access outside it, or outside the file, is a crash.
 */
module PeLoad {
  import opened Bytes
  import opened Wrappers

  datatype Section = Section(virtualSize: u32, va: u32, rawSize: u32, rawPtr: u32) {
    function MemSize(): nat { if virtualSize > rawSize then virtualSize else rawSize }

    function MemEnd(): nat { va + MemSize() }

    predicate Holds(rva: nat) { va <= rva < MemEnd() }

    /** The loader copies the section: it has raw data, and the file has all of it. */
    predicate Copied(file: seq<byte>) { rawSize != 0 && rawPtr != 0 && rawPtr + rawSize <= |file| }
  }

  // ── the file view ────────────────────────────────────────────────────────

  /** `rva_to_offset`: the first section that holds the address, unless it is past the raw data. */
  function RvaToOffset(sections: seq<Section>, rva: u32): Option<nat> {
    if sections == [] then None
    else
      var s := sections[0];
      if s.Holds(rva) then
        if rva - s.va >= s.rawSize || s.rawPtr + (rva - s.va) >= 0x1_0000_0000 then None else Some(s.rawPtr + (rva - s.va))
      else RvaToOffset(sections[1..], rva)
  }

  method FindOffset(sections: seq<Section>, rva: u32) returns (off: Option<nat>)
    ensures off == RvaToOffset(sections, rva)
  {
    for i := 0 to |sections|
      invariant RvaToOffset(sections[i..], rva) == RvaToOffset(sections, rva)
    {
      var s := sections[i];
      assert sections[i..][0] == s && sections[i..][1..] == sections[i + 1..];
      if s.va <= rva && rva < s.va + s.MemSize() {
        var delta := rva - s.va;
        if delta >= s.rawSize { return None; }
        return if s.rawPtr + delta >= 0x1_0000_0000 then None else Some(s.rawPtr + delta);
      }
    }
    off := None;
  }

  // ── copying ──────────────────────────────────────────────────────────────

  /** Bytes of the section that go into a mapping of `size` bytes, in 32-bit arithmetic. */
  function CopyLength(s: Section, size: u32): nat { Min(s.rawSize, Wrap32(size - s.va)) }

  function CopySection(file: seq<byte>, mem: seq<byte>, s: Section): Option<seq<byte>> {
    if !s.Copied(file) then Some(mem)
    else if |mem| >= 0x1_0000_0000 || s.va + CopyLength(s, |mem|) > |mem| then None
    else Some(Splice(mem, s.va, file[s.rawPtr..s.rawPtr + CopyLength(s, |mem|)]))
  }

  function CopySections(file: seq<byte>, mem: seq<byte>, sections: seq<Section>): Option<seq<byte>>
    decreases |sections|
  {
    if sections == [] then Some(mem)
    else match CopySection(file, mem, sections[0])
      case None => None
      case Some(next) => CopySections(file, next, sections[1..])
  }

  function CopyImage(file: seq<byte>, size: u32, headerSize: u32, sections: seq<Section>): Option<seq<byte>> {
    var n := Min(headerSize, size);
    if n > |file| then None
    else CopySections(file, Splice(seq(size, _ => 0), 0, file[..n]), sections)
  }

  /** The copy phase of `Image::load`, into a fresh mapping; false stands for a crash. */
  method Copy(file: seq<byte>, mem: array<byte>, headerSize: u32, sections: seq<Section>) returns (ok: bool)
    requires mem.Length < 0x1_0000_0000 && mem[..] == seq(mem.Length, _ => 0)
    modifies mem
    ensures ok == CopyImage(file, mem.Length, headerSize, sections).Some?
    ensures ok ==> Some(mem[..]) == CopyImage(file, mem.Length, headerSize, sections)
  {
    var n := if headerSize < mem.Length then headerSize else mem.Length;
    if n > |file| { return false; }
    Store(mem, 0, file[..n]);
    ghost var start := mem[..];
    for i := 0 to |sections|
      invariant CopySections(file, mem[..], sections[i..]) == CopySections(file, start, sections)
    {
      var s := sections[i];
      assert sections[i..][0] == s && sections[i..][1..] == sections[i + 1..];
      if s.rawSize == 0 || s.rawPtr == 0 || s.rawPtr + s.rawSize > |file| {
        continue;
      }
      var length := CopyLength(s, mem.Length);
      if s.va + length > mem.Length { return false; }
      Store(mem, s.va, file[s.rawPtr..s.rawPtr + length]);
    }
    ok := true;
  }

  // ── the two views agree before relocation ────────────────────────────────

  predicate Apart(s: Section, t: Section) { s.MemEnd() <= t.va || t.MemEnd() <= s.va }

  predicate Disjoint(sections: seq<Section>) {
    forall i, j :: 0 <= i < j < |sections| ==> Apart(sections[i], sections[j])
  }

  predicate InBounds(sections: seq<Section>, size: nat) {
    forall s :: s in sections ==> s.MemEnd() <= size
  }

  lemma CopySectionExact(file: seq<byte>, mem: seq<byte>, s: Section)
    requires |mem| < 0x1_0000_0000 && s.MemEnd() <= |mem|
    ensures var r := CopySection(file, mem, s);
            && r.Some? && |r.value| == |mem|
            && (forall k :: 0 <= k < |mem| && !s.Holds(k) ==> r.value[k] == mem[k])
            && (!s.Copied(file) ==> r.value == mem)
            && (s.Copied(file) ==> forall k :: s.va <= k < s.va + s.rawSize ==> r.value[k] == file[s.rawPtr + (k - s.va)])
  {
  }

  /** No section copied later reaches an address none of them holds. */
  lemma {:induction false} CopyMisses(file: seq<byte>, mem: seq<byte>, sections: seq<Section>, rva: nat)
    requires |mem| < 0x1_0000_0000 && InBounds(sections, |mem|) && rva < |mem|
    requires forall s :: s in sections ==> !s.Holds(rva)
    ensures var r := CopySections(file, mem, sections); r.Some? && |r.value| == |mem| && r.value[rva] == mem[rva]
    decreases |sections|
  {
    if sections != [] {
      assert sections[0] in sections;
      CopySectionExact(file, mem, sections[0]);
      CopyMisses(file, CopySection(file, mem, sections[0]).value, sections[1..], rva);
    }
  }

  /** What an address holds after the copies: its file byte if its section was copied, else what was there. */
  lemma {:induction false} CopyHits(file: seq<byte>, mem: seq<byte>, sections: seq<Section>, rva: u32, i: nat)
    requires |mem| < 0x1_0000_0000 && InBounds(sections, |mem|) && Disjoint(sections)
    requires i < |sections| && sections[i].Holds(rva) && rva - sections[i].va < sections[i].rawSize
    ensures var r := CopySections(file, mem, sections); var s := sections[i];
            && r.Some? && |r.value| == |mem| && rva < |mem|
            && r.value[rva] == if s.Copied(file) then file[s.rawPtr + (rva - s.va)] else mem[rva]
    decreases |sections|
  {
    var s := sections[0];
    assert s in sections && sections[i] in sections;
    CopySectionExact(file, mem, s);
    var next := CopySection(file, mem, s).value;
    if i == 0 {
      forall t | t in sections[1..] ensures !t.Holds(rva) {
        var j :| 1 <= j < |sections| && sections[j] == t;
        assert Apart(sections[0], sections[j]);
      }
      CopyMisses(file, next, sections[1..], rva);
    } else {
      assert Apart(sections[0], sections[i]);
      RestDisjoint(sections);
      CopyHits(file, next, sections[1..], rva, i - 1);
    }
  }

  lemma RestDisjoint(sections: seq<Section>)
    requires Disjoint(sections) && sections != []
    ensures Disjoint(sections[1..])
  {
  }

  /** The section an offset comes from. */
  lemma {:induction false} OffsetSection(sections: seq<Section>, rva: u32) returns (i: nat)
    requires RvaToOffset(sections, rva).Some?
    ensures i < |sections| && sections[i].Holds(rva) && rva - sections[i].va < sections[i].rawSize
    ensures RvaToOffset(sections, rva) == Some(sections[i].rawPtr + (rva - sections[i].va))
  {
    if sections[0].Holds(rva) {
      i := 0;
    } else {
      i := OffsetSection(sections[1..], rva);
      i := i + 1;
    }
  }

  /** Well-formed headers: enough file for them, and sections apart and inside the image. */
  predicate WellFormed(file: seq<byte>, size: u32, headerSize: u32, sections: seq<Section>) {
    Min(headerSize, size) <= |file| && InBounds(sections, size) && Disjoint(sections)
  }

  function HeadersOnly(file: seq<byte>, size: u32, headerSize: u32): (mem: seq<byte>)
    requires Min(headerSize, size) <= |file|
    ensures |mem| == size
  {
    Splice(seq(size, _ => 0), 0, file[..Min(headerSize, size)])
  }

  /**
   * After the copy, an address the file view maps holds its file byte exactly when its section was
   * copied or the byte happens to be what was there: a header byte, or zero past the headers.
   */
  lemma CopyAgreesExactly(file: seq<byte>, size: u32, headerSize: u32, sections: seq<Section>, rva: u32)
    requires WellFormed(file, size, headerSize, sections) && RvaToOffset(sections, rva).Some?
    ensures var r := CopyImage(file, size, headerSize, sections); r.Some? && |r.value| == size && rva < size
    ensures var mem, off := CopyImage(file, size, headerSize, sections).value, RvaToOffset(sections, rva).value;
            off < |file| ==>
              (mem[rva] == file[off] <==>
                (exists s :: s in sections && s.Holds(rva) && s.Copied(file)) || file[off] == HeadersOnly(file, size, headerSize)[rva])
  {
    var i := OffsetSection(sections, rva);
    var start := HeadersOnly(file, size, headerSize);
    CopyHits(file, start, sections, rva, i);
    OnlyHolder(sections, i, rva);
  }

  /** Disjoint sections share no address. */
  lemma OnlyHolder(sections: seq<Section>, i: nat, rva: nat)
    requires Disjoint(sections) && i < |sections| && sections[i].Holds(rva)
    ensures forall s :: s in sections && s.Holds(rva) ==> s == sections[i]
  {
    forall j | 0 <= j < |sections| && j != i ensures !sections[j].Holds(rva) {
      assert if i < j then Apart(sections[i], sections[j]) else Apart(sections[j], sections[i]);
    }
  }

  /** An address no section holds keeps the header byte, or zero past the headers. */
  lemma OutsideSections(file: seq<byte>, size: u32, headerSize: u32, sections: seq<Section>, rva: u32)
    requires WellFormed(file, size, headerSize, sections) && rva < size
    requires forall s :: s in sections ==> !s.Holds(rva)
    ensures var r := CopyImage(file, size, headerSize, sections);
            r.Some? && |r.value| == size && r.value[rva] == if rva < headerSize then file[rva] else 0
  {
    CopyMisses(file, HeadersOnly(file, size, headerSize), sections, rva);
  }

  // ── relocation ───────────────────────────────────────────────────────────

  /** One rewritten place: `width` bytes at `at`. */
  datatype Slot = Slot(at: nat, width: nat) {
    function End(): nat { at + width }
  }

  function ValueAt(mem: seq<byte>, s: Slot): nat
    requires s.End() <= |mem|
  {
    FromLittleEndian(mem[s.at..s.End()])
  }

  /** The little-endian value of `bytes` plus the slide, modulo its width. */
  function Shifted(bytes: seq<byte>, slide: u64): nat {
    (FromLittleEndian(bytes) + slide) % Pow256(|bytes|)
  }

  function Slid(mem: seq<byte>, s: Slot, slide: u64): nat
    requires s.End() <= |mem|
  {
    Shifted(mem[s.at..s.End()], slide)
  }

  function Relocate(mem: seq<byte>, s: Slot, slide: u64): (r: seq<byte>)
    requires s.End() <= |mem|
    ensures |r| == |mem|
  {
    Splice(mem, s.at, LittleEndian(Slid(mem, s, slide), s.width))
  }

  /** What an entry asks for: nothing, a slot, or an access past the mapping. */
  datatype Target = Skip | Patch(slot: Slot) | Wild

  function Decode(entry: u16, page: u32, size: u32): (t: Target)
    ensures t.Patch? ==> t.slot.End() <= size && (t.slot.width == 4 || t.slot.width == 8)
  {
    var kind, at := entry / 0x1000, Wrap32(page + entry % 0x1000);
    if Wrap32(at + 8) > size || (kind != 10 && kind != 3) then Skip
    else
      var slot := Slot(at, if kind == 10 then 8 else 4);
      if slot.End() > size then Wild else Patch(slot)
  }

  /** The directory, as `check_rva` leaves it: inside the mapping, and not at address 0. */
  predicate Directory(size: nat, rva: nat, total: nat) { 0 < rva && rva + total <= size < 0x1_0000_0000 }

  /** Where the walk stands: `left` entries of the current block to read from `at` on, then the block at `off`. */
  datatype Cursor = Cursor(off: nat, at: nat, left: nat, page: u32)

  datatype Header = Header(page: u32, size: u32)

  function HeaderAt(mem: seq<byte>, at: nat): Header
    requires at + 8 <= |mem|
  {
    Header(ReadLe32(mem, at), ReadLe32(mem, at + 4))
  }

  /** The cursor past a block header, unless the block ends the walk; the offset is a 32-bit sum. */
  function Enter(rva: nat, total: nat, off: nat, h: Header): Option<Cursor> {
    if h.size < 8 || Wrap32(off + h.size) > total then None
    else Some(Cursor(Wrap32(off + h.size), rva + off + 8, (h.size - 8) / 2, h.page))
  }

  predicate Fits(size: nat, c: Cursor) { c.at + 2 * c.left <= size }

  function Advance(c: Cursor): Cursor
    requires c.left > 0
  {
    Cursor(c.off, c.at + 2, c.left - 1, c.page)
  }

  /** The loop's guard: another header starts inside the directory, by a 32-bit sum. */
  predicate More(off: nat, total: nat) { Wrap32(off + 8) <= total }

  predicate HeaderFits(size: nat, rva: nat, off: nat) { rva + off + 8 <= size }

  /** Where a header can be read at all, the sum does not wrap. */
  lemma HeaderInside(size: nat, rva: nat, total: nat, off: nat)
    requires Directory(size, rva, total)
    ensures More(off, total) && HeaderFits(size, rva, off) <==> off + 8 <= total
  {
    if HeaderFits(size, rva, off) || off + 8 <= total { assert off + 8 < 0x1_0000_0000; }
  }

  /** A block whose size makes the offset wrap has entries past the mapping: the offset only grows. */
  lemma EnterGrows(size: nat, rva: nat, total: nat, off: nat, h: Header)
    requires Directory(size, rva, total) && off + 8 <= total
    requires Enter(rva, total, off, h).Some? && Fits(size, Enter(rva, total, off, h).value)
    ensures off + 8 <= off + h.size == Enter(rva, total, off, h).value.off <= total
  {
  }

  /** The walk over blocks and their entries; None is a crash. */
  function Walk(mem: seq<byte>, rva: nat, total: nat, c: Cursor, slide: u64): (r: Option<seq<byte>>)
    requires Directory(|mem|, rva, total) && Fits(|mem|, c)
    ensures r.Some? ==> |r.value| == |mem|
    decreases total - c.off, c.left
  {
    if c.left > 0 then
      match Decode(ReadLe16(mem, c.at), c.page, |mem|)
      case Skip => Walk(mem, rva, total, Advance(c), slide)
      case Wild => None
      case Patch(slot) => Walk(Relocate(mem, slot, slide), rva, total, Advance(c), slide)
    else if !More(c.off, total) then Some(mem)
    else if !HeaderFits(|mem|, rva, c.off) then None
    else
      HeaderInside(|mem|, rva, total, c.off);
      var h := HeaderAt(mem, rva + c.off);
      match Enter(rva, total, c.off, h)
      case None => Some(mem)
      case Some(next) =>
        if !Fits(|mem|, next) then None
        else
          EnterGrows(|mem|, rva, total, c.off, h);
          Walk(mem, rva, total, next, slide)
  }

  const START: Cursor := Cursor(0, 0, 0, 0)

  method RelocateSlot(mem: array<byte>, s: Slot, slide: u64)
    requires s.End() <= mem.Length && (s.width == 4 || s.width == 8)
    modifies mem
    ensures mem[..] == Relocate(old(mem[..]), s, slide)
  {
    var value := FromLittleEndian(mem[s.at..s.at + s.width]);
    assert mem[s.at..s.at + s.width] == mem[..][s.at..s.at + s.width];
    Store(mem, s.at, LittleEndian((value + slide) % Pow256(s.width), s.width));
  }

  /** One entry of the walk. */
  lemma OneEntry(mem: seq<byte>, rva: nat, total: nat, c: Cursor, slide: u64, target: Target)
    requires Directory(|mem|, rva, total) && Fits(|mem|, c) && c.left > 0 && target == Decode(ReadLe16(mem, c.at), c.page, |mem|)
    ensures target.Skip? ==> Walk(mem, rva, total, c, slide) == Walk(mem, rva, total, Advance(c), slide)
    ensures target.Wild? ==> Walk(mem, rva, total, c, slide) == None
    ensures target.Patch? ==> Walk(mem, rva, total, c, slide) == Walk(Relocate(mem, target.slot, slide), rva, total, Advance(c), slide)
  {
  }

  /** The inner loop, over one block's entries; false stands for a crash. */
  method RelocateEntries(mem: array<byte>, rva: u32, total: u32, c: Cursor, slide: u64) returns (ok: bool)
    requires Directory(mem.Length, rva, total)
    modifies mem
    ensures !Fits(mem.Length, c) ==> !ok
    ensures Fits(mem.Length, c) ==>
              var before := Walk(old(mem[..]), rva, total, c, slide);
              if ok then before == Walk(mem[..], rva, total, Cursor(c.off, c.at + 2 * c.left, 0, c.page), slide) else before == None
  {
    if !Fits(mem.Length, c) {
      // Some entry lies past the mapping: the loop stops there if not before.
      return false;
    }
    ghost var whole := Walk(mem[..], rva, total, c, slide);
    var now := c;
    for j := 0 to c.left
      invariant now == Cursor(c.off, c.at + 2 * j, c.left - j, c.page)
      invariant Walk(mem[..], rva, total, now, slide) == whole
    {
      var target := Decode(ReadLe16(mem[..], now.at), c.page, mem.Length);
      OneEntry(mem[..], rva, total, now, slide, target);
      match target {
        case Skip =>
        case Wild => return false;
        case Patch(slot) => RelocateSlot(mem, slot, slide);
      }
      now := Advance(now);
    }
    ok := true;
  }

  /** One block header of the walk. */
  lemma OneHeader(mem: seq<byte>, rva: nat, total: nat, c: Cursor, slide: u64)
    requires Directory(|mem|, rva, total) && c.left == 0 && c.at <= |mem| && More(c.off, total)
    ensures !HeaderFits(|mem|, rva, c.off) ==> Walk(mem, rva, total, c, slide) == None
    ensures HeaderFits(|mem|, rva, c.off) ==>
              match Enter(rva, total, c.off, HeaderAt(mem, rva + c.off))
              case None => Walk(mem, rva, total, c, slide) == Some(mem)
              case Some(next) =>
                if !Fits(|mem|, next) then Walk(mem, rva, total, c, slide) == None
                else c.off < next.off <= total && Walk(mem, rva, total, c, slide) == Walk(mem, rva, total, next, slide)
  {
    HeaderInside(|mem|, rva, total, c.off);
    if HeaderFits(|mem|, rva, c.off) {
      var next := Enter(rva, total, c.off, HeaderAt(mem, rva + c.off));
      if next.Some? && Fits(|mem|, next.value) { EnterGrows(|mem|, rva, total, c.off, HeaderAt(mem, rva + c.off)); }
    }
  }

  /** `apply_relocations`; it always ends, and false stands for a crash. */
  method ApplyRelocations(mem: array<byte>, rva: u32, total: u32, slide: u64) returns (ok: bool)
    requires 0 < rva && mem.Length < 0x1_0000_0000
    modifies mem
    ensures rva + total > mem.Length ==> !ok && mem[..] == old(mem[..])
    ensures rva + total <= mem.Length ==>
              var r := Walk(old(mem[..]), rva, total, START, slide);
              ok == r.Some? && (ok ==> Some(mem[..]) == r)
  {
    if rva + total > mem.Length { return false; }
    ghost var whole := Walk(mem[..], rva, total, START, slide);
    var off: nat, at: nat, page: u32 := 0, 0, 0;
    while Wrap32(off + 8) <= total
      invariant at <= mem.Length
      invariant Walk(mem[..], rva, total, Cursor(off, at, 0, page), slide) == whole
      decreases total - off
    {
      OneHeader(mem[..], rva, total, Cursor(off, at, 0, page), slide);
      if rva + off + 8 > mem.Length { return false; }
      var block := Enter(rva, total, off, HeaderAt(mem[..], rva + off));
      if block.None? { break; }
      var done := RelocateEntries(mem, rva, total, block.value, slide);
      if !done { return false; }
      off, at, page := block.value.off, block.value.at + 2 * block.value.left, block.value.page;
    }
    ok := true;
  }

  // ── what relocation leaves ───────────────────────────────────────────────

  function PatchAll(mem: seq<byte>, slots: seq<Slot>, slide: u64): (r: seq<byte>)
    requires forall s :: s in slots ==> s.End() <= |mem|
    ensures |r| == |mem|
    decreases |slots|
  {
    if slots == [] then mem else PatchAll(Relocate(mem, slots[0], slide), slots[1..], slide)
  }

  /** The slots the walk meets from `c` on, or None when it would crash. */
  function Slots(mem: seq<byte>, rva: nat, total: nat, c: Cursor): (r: Option<seq<Slot>>)
    requires Directory(|mem|, rva, total) && Fits(|mem|, c)
    ensures r.Some? ==> forall s :: s in r.value ==> s.End() <= |mem|
    decreases total - c.off, c.left
  {
    if c.left > 0 then
      match Slots(mem, rva, total, Advance(c))
      case None => None
      case Some(rest) =>
        match Decode(ReadLe16(mem, c.at), c.page, |mem|)
        case Skip => Some(rest)
        case Wild => None
        case Patch(slot) => Some([slot] + rest)
    else if !More(c.off, total) then Some([])
    else if !HeaderFits(|mem|, rva, c.off) then None
    else
      HeaderInside(|mem|, rva, total, c.off);
      var h := HeaderAt(mem, rva + c.off);
      match Enter(rva, total, c.off, h)
      case None => Some([])
      case Some(next) =>
        if !Fits(|mem|, next) then None
        else
          EnterGrows(|mem|, rva, total, c.off, h);
          Slots(mem, rva, total, next)
  }

  /** The directory's bytes are as they were. */
  predicate SameDirectory(a: seq<byte>, b: seq<byte>, rva: nat, total: nat) {
    |a| == |b| && rva + total <= |a| && forall k :: rva <= k < rva + total ==> a[k] == b[k]
  }

  lemma SameReads(a: seq<byte>, b: seq<byte>, rva: nat, total: nat, at: nat)
    requires SameDirectory(a, b, rva, total) && rva <= at
    ensures at + 2 <= rva + total ==> ReadLe16(a, at) == ReadLe16(b, at)
    ensures at + 4 <= rva + total ==> ReadLe32(a, at) == ReadLe32(b, at)
  {
  }

  /** Relocation never rewrites its own directory. */
  predicate OffDirectory(slots: seq<Slot>, rva: nat, total: nat) {
    forall s :: s in slots ==> s.End() <= rva || rva + total <= s.at
  }

  lemma RelocateKeepsDirectory(a: seq<byte>, b: seq<byte>, s: Slot, slide: u64, rva: nat, total: nat)
    requires SameDirectory(a, b, rva, total) && s.End() <= |b| && (s.End() <= rva || rva + total <= s.at)
    ensures SameDirectory(a, Relocate(b, s, slide), rva, total)
  {
  }

  /** The entries still to read lie inside the directory. */
  predicate InDirectory(rva: nat, total: nat, c: Cursor) { rva <= c.at && Fits(rva + total, c) }

  /** One entry, while patching and in the slot list. */
  lemma EntryStep(dir: seq<byte>, mem: seq<byte>, rva: nat, total: nat, c: Cursor, slide: u64, target: Target, rest: seq<Slot>)
    requires SameDirectory(dir, mem, rva, total) && Directory(|dir|, rva, total) && c.left > 0 && InDirectory(rva, total, c)
    requires target == Decode(ReadLe16(dir, c.at), c.page, |dir|) && Slots(dir, rva, total, Advance(c)) == Some(rest)
    ensures !target.Wild? ==> Slots(dir, rva, total, c) == Some(if target.Skip? then rest else [target.slot] + rest)
    ensures target.Wild? ==> Slots(dir, rva, total, c) == None
    ensures target.Skip? ==> Walk(mem, rva, total, c, slide) == Walk(mem, rva, total, Advance(c), slide)
    ensures target.Patch? ==> Walk(mem, rva, total, c, slide) == Walk(Relocate(mem, target.slot, slide), rva, total, Advance(c), slide)
  {
    SameReads(dir, mem, rva, total, c.at);
  }

  /** One block header, likewise. */
  lemma HeaderStep(dir: seq<byte>, mem: seq<byte>, rva: nat, total: nat, c: Cursor, slide: u64, next: Option<Cursor>)
    requires SameDirectory(dir, mem, rva, total) && Directory(|dir|, rva, total) && c.left == 0 && Fits(|dir|, c) && c.off + 8 <= total
    requires next == Enter(rva, total, c.off, HeaderAt(dir, rva + c.off))
    ensures next.None? ==> Slots(dir, rva, total, c) == Some([]) && Walk(mem, rva, total, c, slide) == Some(mem)
    ensures next.Some? && Fits(|dir|, next.value) ==>
              && c.off + 8 <= next.value.off <= total && InDirectory(rva, total, next.value)
              && Slots(dir, rva, total, c) == Slots(dir, rva, total, next.value)
              && Walk(mem, rva, total, c, slide) == Walk(mem, rva, total, next.value, slide)
    ensures next.Some? && !Fits(|dir|, next.value) ==> Slots(dir, rva, total, c) == None
  {
    var at := rva + c.off;
    HeaderInside(|dir|, rva, total, c.off);
    SameReads(dir, mem, rva, total, at);
    SameReads(dir, mem, rva, total, at + 4);
    assert HeaderAt(dir, at) == HeaderAt(mem, at);
    if next.Some? && Fits(|dir|, next.value) { EnterGrows(|dir|, rva, total, c.off, HeaderAt(dir, at)); }
  }

  /** Reading entries while patching is reading them all first. */
  lemma {:induction false} WalkPatches(dir: seq<byte>, mem: seq<byte>, rva: nat, total: nat, c: Cursor, slide: u64)
    requires SameDirectory(dir, mem, rva, total) && Directory(|dir|, rva, total) && Fits(|dir|, c) && (c.left > 0 ==> InDirectory(rva, total, c))
    requires Slots(dir, rva, total, c).Some? && OffDirectory(Slots(dir, rva, total, c).value, rva, total)
    ensures Walk(mem, rva, total, c, slide) == Some(PatchAll(mem, Slots(dir, rva, total, c).value, slide))
    decreases total - c.off, c.left
  {
    if c.left > 0 {
      var target, rest := Decode(ReadLe16(dir, c.at), c.page, |dir|), Slots(dir, rva, total, Advance(c)).value;
      EntryStep(dir, mem, rva, total, c, slide, target, rest);
      if target.Skip? {
        WalkPatches(dir, mem, rva, total, Advance(c), slide);
      } else {
        FirstSlot(mem, target.slot, rest, slide, rva, total);
        RelocateKeepsDirectory(dir, mem, target.slot, slide, rva, total);
        WalkPatches(dir, Relocate(mem, target.slot, slide), rva, total, Advance(c), slide);
      }
    } else if More(c.off, total) {
      HeaderInside(|dir|, rva, total, c.off);
      var next := Enter(rva, total, c.off, HeaderAt(dir, rva + c.off));
      HeaderStep(dir, mem, rva, total, c, slide, next);
      if next.Some? { WalkPatches(dir, mem, rva, total, next.value, slide); }
    }
  }

  lemma FirstSlot(mem: seq<byte>, s: Slot, rest: seq<Slot>, slide: u64, rva: nat, total: nat)
    requires s.End() <= |mem| && (forall t :: t in rest ==> t.End() <= |mem|) && OffDirectory([s] + rest, rva, total)
    ensures (s.End() <= rva || rva + total <= s.at) && OffDirectory(rest, rva, total)
    ensures PatchAll(mem, [s] + rest, slide) == PatchAll(Relocate(mem, s, slide), rest, slide)
  {
    var all := [s] + rest;
    assert all[1..] == rest && s in all;
    forall t | t in rest ensures t.End() <= rva || rva + total <= t.at { assert t in all; }
  }

  predicate SlotsApart(s: Slot, t: Slot) { s.End() <= t.at || t.End() <= s.at }

  predicate AllApart(slots: seq<Slot>) {
    forall i, j :: 0 <= i < j < |slots| ==> SlotsApart(slots[i], slots[j])
  }

  lemma {:induction false} PatchElsewhere(mem: seq<byte>, slots: seq<Slot>, slide: u64, lo: nat, hi: nat)
    requires forall s :: s in slots ==> s.End() <= |mem|
    requires lo <= hi <= |mem| && forall s :: s in slots ==> s.End() <= lo || hi <= s.at
    ensures PatchAll(mem, slots, slide)[lo..hi] == mem[lo..hi]
    decreases |slots|
  {
    if slots != [] {
      assert slots[0] in slots;
      RelocateElsewhere(mem, slots[0], slide, lo, hi);
      PatchElsewhere(Relocate(mem, slots[0], slide), slots[1..], slide, lo, hi);
    }
  }

  lemma RelocateElsewhere(mem: seq<byte>, s: Slot, slide: u64, lo: nat, hi: nat)
    requires s.End() <= |mem| && lo <= hi <= |mem| && (s.End() <= lo || hi <= s.at)
    ensures Relocate(mem, s, slide)[lo..hi] == mem[lo..hi]
  {
  }

  lemma RelocatedValue(mem: seq<byte>, s: Slot, slide: u64)
    requires s.End() <= |mem|
    ensures ValueAt(Relocate(mem, s, slide), s) == Slid(mem, s, slide)
  {
    LittleEndianRoundTrip(Slid(mem, s, slide), s.width);
    assert Relocate(mem, s, slide)[s.at..s.at + s.width] == LittleEndian(Slid(mem, s, slide), s.width);
  }

  lemma SameBytesSameValue(a: seq<byte>, b: seq<byte>, s: Slot, slide: u64)
    requires s.End() <= |a| && s.End() <= |b| && a[s.at..s.End()] == b[s.at..s.End()]
    ensures ValueAt(a, s) == ValueAt(b, s) && Slid(a, s, slide) == Slid(b, s, slide)
  {
  }

  /** Every slot of disjoint slots ends with its own value plus the slide. */
  lemma {:induction false} PatchHits(mem: seq<byte>, slots: seq<Slot>, slide: u64, i: nat)
    requires forall s :: s in slots ==> s.End() <= |mem|
    requires AllApart(slots) && i < |slots|
    ensures ValueAt(PatchAll(mem, slots, slide), slots[i]) == Slid(mem, slots[i], slide)
    decreases |slots|
  {
    var s, rest := slots[0], slots[1..];
    var next := Relocate(mem, s, slide);
    if i == 0 {
      forall t | t in rest ensures t.End() <= s.at || s.End() <= t.at {
        var j :| 1 <= j < |slots| && slots[j] == t;
        assert SlotsApart(slots[0], slots[j]);
      }
      PatchElsewhere(next, rest, slide, s.at, s.End());
      RelocatedValue(mem, s, slide);
      SameBytesSameValue(PatchAll(next, rest, slide), next, s, slide);
    } else {
      RestApart(slots);
      assert SlotsApart(slots[0], slots[i]);
      assert next[slots[i].at..slots[i].End()] == mem[slots[i].at..slots[i].End()];
      SameBytesSameValue(next, mem, slots[i], slide);
      PatchHits(next, rest, slide, i - 1);
    }
  }

  lemma RestApart(slots: seq<Slot>)
    requires AllApart(slots) && slots != []
    ensures AllApart(slots[1..])
  {
    var rest := slots[1..];
    forall i, j | 0 <= i < j < |rest| ensures SlotsApart(rest[i], rest[j]) {
      assert SlotsApart(slots[i + 1], slots[j + 1]);
    }
  }

  // ── the loaded image ─────────────────────────────────────────────────────

  /** `Image::load` up to import patching: relocations run only when the image moved and has a directory. */
  function Loaded(file: seq<byte>, size: u32, headerSize: u32, sections: seq<Section>, dir: Option<(u32, u32)>, slide: u64): Option<seq<byte>> {
    match CopyImage(file, size, headerSize, sections)
    case None => None
    case Some(mem) =>
      if slide == 0 || dir.None? then Some(mem)
      else
        var (rva, total) := dir.value;
        if |mem| != size || rva == 0 || rva + total > size then None else Walk(mem, rva, total, START, slide)
  }

  /** The copy and relocation phases of `Image::load`; a directory at address 0 parses as none. */
  method Load(file: seq<byte>, mem: array<byte>, headerSize: u32, sections: seq<Section>, dir: Option<(u32, u32)>, slide: u64) returns (ok: bool)
    requires mem.Length < 0x1_0000_0000 && mem[..] == seq(mem.Length, _ => 0)
    requires dir.Some? ==> dir.value.0 != 0
    modifies mem
    ensures ok == Loaded(file, mem.Length, headerSize, sections, dir, slide).Some?
    ensures ok ==> Some(mem[..]) == Loaded(file, mem.Length, headerSize, sections, dir, slide)
  {
    ok := Copy(file, mem, headerSize, sections);
    if ok && slide != 0 && dir.Some? {
      ok := ApplyRelocations(mem, dir.value.0, dir.value.1, slide);
    }
  }

  /** Relocations a loader may meet: inside the image, off their own directory, and disjoint. */
  predicate GoodRelocations(mem: seq<byte>, dir: Option<(u32, u32)>) {
    dir.Some? ==>
      && Directory(|mem|, dir.value.0, dir.value.1)
      && (var slots := Slots(mem, dir.value.0, dir.value.1, START);
          slots.Some? && OffDirectory(slots.value, dir.value.0, dir.value.1) && AllApart(slots.value))
  }

  function SlotsOf(mem: seq<byte>, dir: Option<(u32, u32)>): (slots: seq<Slot>)
    requires GoodRelocations(mem, dir)
    ensures forall s :: s in slots ==> s.End() <= |mem|
    ensures AllApart(slots)
  {
    if dir.None? then [] else Slots(mem, dir.value.0, dir.value.1, START).value
  }

  lemma UntouchedByte(mem: seq<byte>, slots: seq<Slot>, slide: u64, k: nat)
    requires (forall s :: s in slots ==> s.End() <= |mem|) && Untouched(slots, k) && k < |mem|
    ensures PatchAll(mem, slots, slide)[k] == mem[k]
  {
    PatchElsewhere(mem, slots, slide, k, k + 1);
    var patched := PatchAll(mem, slots, slide);
    assert patched[k] == patched[k..k + 1][0] && mem[k] == mem[k..k + 1][0];
  }

  lemma SlotValue(mem: seq<byte>, slots: seq<Slot>, slide: u64, slot: Slot)
    requires (forall s :: s in slots ==> s.End() <= |mem|) && AllApart(slots) && slot in slots
    ensures ValueAt(PatchAll(mem, slots, slide), slot) == Slid(mem, slot, slide)
  {
    var k :| 0 <= k < |slots| && slots[k] == slot;
    PatchHits(mem, slots, slide, k);
  }

  predicate Untouched(slots: seq<Slot>, rva: nat) { forall s :: s in slots ==> rva < s.at || s.End() <= rva }

  lemma SmallMod(a: nat, m: nat)
    requires a < m
    ensures (a + 0) % m == a
  {
  }

  lemma NoSlide(mem: seq<byte>, s: Slot)
    requires s.End() <= |mem|
    ensures Relocate(mem, s, 0) == mem
  {
    var bytes := mem[s.at..s.End()];
    FromLittleEndianBound(bytes);
    SmallMod(FromLittleEndian(bytes), Pow256(s.width));
    BytesRoundTrip(bytes);
    SpliceSame(mem, s.at, bytes);
  }

  lemma SpliceSame(mem: seq<byte>, at: nat, bs: seq<byte>)
    requires at + |bs| <= |mem| && bs == mem[at..at + |bs|]
    ensures Splice(mem, at, bs) == mem
  {
  }

  lemma {:induction false} SlideZero(mem: seq<byte>, slots: seq<Slot>)
    requires forall s :: s in slots ==> s.End() <= |mem|
    ensures PatchAll(mem, slots, 0) == mem
    decreases |slots|
  {
    if slots != [] {
      NoSlide(mem, slots[0]);
      SlideZero(mem, slots[1..]);
    }
  }

  /** The loaded bytes are the copied bytes with every listed slot slid, whether or not the image moved. */
  lemma LoadedIsPatched(file: seq<byte>, size: u32, headerSize: u32, sections: seq<Section>, dir: Option<(u32, u32)>, slide: u64, mem: seq<byte>)
    requires CopyImage(file, size, headerSize, sections) == Some(mem) && |mem| == size && GoodRelocations(mem, dir)
    ensures Loaded(file, size, headerSize, sections, dir, slide) == Some(PatchAll(mem, SlotsOf(mem, dir), slide))
  {
    if slide == 0 {
      SlideZero(mem, SlotsOf(mem, dir));
    } else if dir.Some? {
      WalkPatches(mem, mem, dir.value.0, dir.value.1, START, slide);
    }
  }

  /** Every address the file view maps, in a section that was copied, holds its file byte unless a slot covers it. */
  lemma MappedBytesAgree(file: seq<byte>, size: u32, headerSize: u32, sections: seq<Section>, dir: Option<(u32, u32)>, slide: u64, mem: seq<byte>, rva: u32)
    requires WellFormed(file, size, headerSize, sections) && CopyImage(file, size, headerSize, sections) == Some(mem)
    requires |mem| == size && GoodRelocations(mem, dir) && Untouched(SlotsOf(mem, dir), rva)
    requires RvaToOffset(sections, rva).Some? && forall s :: s in sections && s.Holds(rva) ==> s.Copied(file)
    ensures var loaded, off := Loaded(file, size, headerSize, sections, dir, slide), RvaToOffset(sections, rva).value;
            loaded.Some? && rva < |loaded.value| && off < |file| && loaded.value[rva] == file[off]
  {
    var i := OffsetSection(sections, rva);
    assert sections[i] in sections && sections[i].Copied(file);
    CopyAgreesExactly(file, size, headerSize, sections, rva);
    LoadedIsPatched(file, size, headerSize, sections, dir, slide, mem);
    UntouchedByte(mem, SlotsOf(mem, dir), slide, rva);
  }

  /** Every slot inside a copied section's raw data holds its file value plus the slide, modulo its width. */
  lemma SlotsAgree(file: seq<byte>, size: u32, headerSize: u32, sections: seq<Section>, dir: Option<(u32, u32)>, slide: u64, mem: seq<byte>, slot: Slot, i: nat)
    requires WellFormed(file, size, headerSize, sections) && CopyImage(file, size, headerSize, sections) == Some(mem)
    requires |mem| == size && GoodRelocations(mem, dir) && slot in SlotsOf(mem, dir)
    requires i < |sections| && sections[i].Copied(file)
    requires sections[i].va <= slot.at && slot.End() <= sections[i].va + sections[i].rawSize
    ensures var loaded, off := Loaded(file, size, headerSize, sections, dir, slide), sections[i].rawPtr + (slot.at - sections[i].va);
            && loaded.Some? && slot.End() <= |loaded.value| && off + slot.width <= |file|
            && ValueAt(loaded.value, slot) == Shifted(file[off..off + slot.width], slide)
  {
    LoadedIsPatched(file, size, headerSize, sections, dir, slide, mem);
    SlotValue(mem, SlotsOf(mem, dir), slide, slot);
    SlotBytes(file, size, headerSize, sections, mem, slot, i);
    SlidFromFile(file, mem, slot, sections[i].rawPtr + (slot.at - sections[i].va), slide);
  }

  lemma SlidFromFile(file: seq<byte>, mem: seq<byte>, slot: Slot, off: nat, slide: u64)
    requires slot.End() <= |mem| && off + slot.width <= |file| && mem[slot.at..slot.End()] == file[off..off + slot.width]
    ensures Slid(mem, slot, slide) == Shifted(file[off..off + slot.width], slide)
  {
    var bytes := mem[slot.at..slot.End()];
    assert Slid(mem, slot, slide) == Shifted(bytes, slide);
  }

  lemma SlotBytes(file: seq<byte>, size: u32, headerSize: u32, sections: seq<Section>, mem: seq<byte>, slot: Slot, i: nat)
    requires WellFormed(file, size, headerSize, sections) && CopyImage(file, size, headerSize, sections) == Some(mem)
    requires i < |sections| && sections[i].Copied(file) && slot.End() <= |mem| == size
    requires sections[i].va <= slot.at && slot.End() <= sections[i].va + sections[i].rawSize
    ensures var off := sections[i].rawPtr + (slot.at - sections[i].va);
            off + slot.width <= |file| && mem[slot.at..slot.End()] == file[off..off + slot.width]
  {
    var s := sections[i];
    var off := s.rawPtr + (slot.at - s.va);
    forall a | slot.at <= a < slot.End() ensures mem[a] == file[s.rawPtr + (a - s.va)] {
      CopyHits(file, HeadersOnly(file, size, headerSize), sections, a, i);
    }
  }

  /** A section with a raw size and no raw pointer: the file view maps its first byte to the file's, the copy leaves zero. */
  lemma UncopiedSection(b: byte)
    requires b != 0
    ensures var file, sections := [b], [Section(1, 0x1000, 1, 0)];
            && WellFormed(file, 0x2000, 0, sections) && RvaToOffset(sections, 0x1000) == Some(0)
            && var mem := CopyImage(file, 0x2000, 0, sections); mem.Some? && |mem.value| == 0x2000 && mem.value[0x1000] != file[0]
  {
    CopyAgreesExactly([b], 0x2000, 0, [Section(1, 0x1000, 1, 0)], 0x1000);
  }

  /** A section whose raw data ends past the file: the same. */
  lemma TruncatedSection(b: byte)
    requires b != 0
    ensures var file, sections := [0, b], [Section(2, 0x1000, 2, 1)];
            && WellFormed(file, 0x2000, 0, sections) && RvaToOffset(sections, 0x1000) == Some(1)
            && var mem := CopyImage(file, 0x2000, 0, sections); mem.Some? && |mem.value| == 0x2000 && mem.value[0x1000] != file[1]
  {
    CopyAgreesExactly([0, b], 0x2000, 0, [Section(2, 0x1000, 2, 1)], 0x1000);
  }
}
