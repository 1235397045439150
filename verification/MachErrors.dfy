/**
 * The limits and refusals of the Mach-O code, each with its own number and its own condition: what the
 * parser answers for every bad command, what the reader fetches and refuses to fetch, where a fixup is
 * refused, and what a segment brought in from the file leaves at every address.
 */
module MachErrors {
  import opened Bytes
  import opened Wrappers
  import opened MachParse
  import L = MachLoader
  import D = DyldStream
  import Leb

  // ── load commands ────────────────────────────────────────────────────────

  /** A segment command must be whole; a table's command must hold its fields. */
  lemma CommandRefused(d: seq<byte>, c: LoadCommand, acc: Commands)
    requires 8 <= c.cmdsize && c.off + c.cmdsize <= |d|
    ensures AddCommand(d, c, acc) == Failure(ParseError.BadLoadCommands) <==> c.cmd == 0x19 && c.cmdsize < 72
    ensures AddCommand(d, c, acc) == Failure(ParseError.Truncated) <==>
            (c.cmd == 0x02 && c.off + 24 > |d|) || (c.cmd in {0x22, 0x8000_0022} && c.off + 48 > |d|)
    ensures AddCommand(d, c, acc).Failure? ==> AddCommand(d, c, acc).error in {ParseError.BadLoadCommands, ParseError.Truncated}
  {
  }

  /** A command stops the walk when its header or its end lies outside the bytes, or it is shorter than its header. */
  lemma CommandMissing(d: seq<byte>, off: nat, n: nat, acc: Commands)
    requires n > 0
    requires off + 8 > |d| || ReadLe32(d, off + 4) < 8 || off + ReadLe32(d, off + 4) > |d|
    ensures Walk(d, off, n, acc) == Failure(ParseError.BadLoadCommands)
  {
  }

  // ── names ────────────────────────────────────────────────────────────────

  /** A name that nothing ends, or that starts past the table, is no name. */
  lemma {:induction false} UnendedName(table: seq<byte>, off: nat)
    requires forall i :: off <= i < |table| ==> table[i] != 0
    ensures NameAt(table, off) == []
  {
    if off < |table| { NoNul(table[off..]); }
  }

  lemma {:induction false} NoNul(t: seq<byte>)
    requires forall i :: 0 <= i < |t| ==> t[i] != 0
    ensures D.NulAt(t) == |t|
  {
    if t != [] { NoNul(t[1..]); }
  }

  // ── fixup streams ────────────────────────────────────────────────────────

  /** A stream outside the bytes, or one that does not decode, stops the parse with its own error and value. */
  lemma StreamRefused(f: DyldFields, k: nat, src: Source, segments: seq<Segment64>, symbol: seq<byte>, acc: Fixups, e: ParseError)
    requires k < 4 && f[2 * k + 1] != 0
    requires
      || (src.Window(f[2 * k], f[2 * k + 1]) == None && e == ParseError.Truncated)
      || (src.Window(f[2 * k], f[2 * k + 1]).Some?
          && match D.Decode(src.Window(f[2 * k], f[2 * k + 1]).value, symbol, KindOf(k), k == 3).result
             case Failure(Truncated) => e == ParseError.Truncated
             case Failure(UnsupportedFixup(kind, value)) => e == Unsupported(kind, value)
             case Success(_) => false)
    ensures Streams(f, k, src, segments, symbol, acc).result == Failure(e)
  {
  }

  // ── the reader's tail ────────────────────────────────────────────────────

  /** The ranges fetched: both tables of symbols when neither is empty, and each stream that is not. */
  lemma RangesAre(cs: Commands, r: Range)
    ensures r in Ranges(cs) <==>
            || (cs.symtab.Some? && cs.symtab.value.nsyms > 0 && cs.symtab.value.strsize > 0
                && (r == Range(cs.symtab.value.symoff, 16 * cs.symtab.value.nsyms) || r == Range(cs.symtab.value.stroff, cs.symtab.value.strsize)))
            || (cs.dyld.Some? && exists k {:trigger cs.dyld.value[2 * k]} :: 0 <= k < 4 && cs.dyld.value[2 * k + 1] > 0 && r == Range(cs.dyld.value[2 * k], cs.dyld.value[2 * k + 1]))
  {
    if cs.dyld.Some? { StreamRangesAre(cs.dyld.value, 0, r); }
  }

  lemma {:induction false} StreamRangesAre(f: DyldFields, k: nat, r: Range)
    requires k <= 4
    ensures r in StreamRanges(f, k) <==> exists i {:trigger f[2 * i]} :: k <= i < 4 && f[2 * i + 1] > 0 && r == Range(f[2 * i], f[2 * i + 1])
    decreases 4 - k
  {
    if k < 4 {
      StreamRangesAre(f, k + 1, r);
      assert f[2 * k] == f[2 * k];
    }
  }

  /** One range is fetched, from the least start to the greatest end: at most eight mebibytes, all of them in the file. */
  lemma FetchRefused(file: seq<byte>, ranges: seq<Range>, first: Range, last: Range)
    requires first in ranges && last in ranges
    requires forall r :: r in ranges ==> first.off <= r.off && r.off + r.size <= last.off + last.size
    ensures var size, end := last.off + last.size - first.off, last.off + last.size;
            Fetch(file, ranges) ==
            if size > 8 * 1024 * 1024 then Failure(ParseError.BadLoadCommands)
            else if end > |file| then Failure(ParseError.Io)
            else Success(Tail(file[first.off..end], Positions(ranges, first.off)))
  {
    assert Start(ranges) == first.off && End(ranges) == last.off + last.size;
  }

  /** The reader takes at most one mebibyte of commands, and never none. */
  lemma ReaderLimits(file: seq<byte>)
    requires |file| >= 32 && file[..8] == [0xCF, 0xFA, 0xED, 0xFE, 0x07, 0x00, 0x00, 0x01]
    ensures var count, size := ReadLe16(file, 16), ReadLe32(file, 20);
            ReaderRefuses(file) ==
            if count == 0 || size == 0 || size > 1024 * 1024 then Some(ParseError.BadLoadCommands)
            else if 32 + size > |file| then Some(ParseError.Io)
            else None
  {
    assert file[0] == file[..8][0] && file[1] == file[..8][1] && file[2] == file[..8][2] && file[3] == file[..8][3];
    assert file[4] == file[..8][4] && file[5] == file[..8][5] && file[6] == file[..8][6] && file[7] == file[..8][7];
  }

  // ── fixups ───────────────────────────────────────────────────────────────

  /** The first segment of a name. */
  ghost predicate Named(segments: seq<L.Segment>, name: L.Name, i: nat) {
    i < |segments| && segments[i].name == name && forall j :: 0 <= j < i ==> segments[j].name != name
  }

  lemma {:induction false} FindNamed(segments: seq<L.Segment>, name: L.Name, i: nat)
    requires Named(segments, name, i)
    ensures L.Find(segments, name) == Some(segments[i])
    decreases i
  {
    if i > 0 {
      assert segments[0].name != name;
      FindNamed(segments[1..], name, i - 1);
    }
  }

  /** A slot of the file buffer: past the segment, past its file bytes, past the file, or at its place. */
  lemma BufferSlot(info: L.MachInfo, name: L.Name, segOff: u64, size: nat, i: nat)
    requires Named(info.segments, name, i)
    ensures var s, end := info.segments[i], (segOff + 8) % 0x1_0000_0000_0000_0000;
            var at := (s.fileoff + segOff) % 0x1_0000_0000_0000_0000;
            L.SegmentFileOffset(info, name, segOff, size) ==
            if end > s.vmsize then Failure(L.Error.BadSegment)
            else if end > s.filesize then Success(None)
            else if (at + 8) % 0x1_0000_0000_0000_0000 > size then Failure(L.Error.Truncated)
            else Success(Some(at))
  {
    FindNamed(info.segments, name, i);
  }

  /** A slot of the mapping likewise. */
  lemma MappedSlot(info: L.MachInfo, name: L.Name, segOff: u64, span: nat, i: nat)
    requires Named(info.segments, name, i)
    ensures var s, end := info.segments[i], (segOff + 8) % 0x1_0000_0000_0000_0000;
            var at := (s.vmaddr - info.base + segOff) % 0x1_0000_0000_0000_0000;
            L.SegmentMapOffset(info, name, segOff, span) ==
            if end > s.vmsize then Failure(L.Error.BadSegment)
            else if (at + 8) % 0x1_0000_0000_0000_0000 > span then Failure(L.Error.Truncated)
            else Success(at)
  {
    FindNamed(info.segments, name, i);
    WrapTwice(info.segments[i].vmaddr - info.base, segOff);
  }

  lemma WrapTwice(a: int, b: nat)
    ensures Wrap64(Wrap64(a) + b) == Wrap64(a + b)
  {
  }

  lemma UnnamedSlot(info: L.MachInfo, name: L.Name, segOff: u64, size: nat)
    requires forall s :: s in info.segments ==> s.name != name
    ensures L.SegmentFileOffset(info, name, segOff, size) == Failure(L.Error.MissingSegment)
    ensures L.SegmentMapOffset(info, name, segOff, size) == Failure(L.Error.MissingSegment)
  {
  }

  // ── a segment brought in from the file ───────────────────────────────────

  /** The conditions for mapping whole pages of a segment. */
  predicate WholePagesMapped(s: L.Segment, at: nat, span: nat) {
    s.fileoff % 4096 == 0 && at % 4096 == 0 && at < span
  }

  /** Page-mapped text shows the file to the end of its last page, and zeros past the file's end. */
  lemma TextBroughtIn(m: seq<byte>, file: seq<byte>, base: u64, s: L.Segment, p: nat)
    requires L.NameStr(s.name) == [0x5F, 0x5F, 0x54, 0x45, 0x58, 0x54] && 0 < s.filesize < 0xFFFF_FFFF_FFFF_F000 && p < |m|
    requires WholePagesMapped(s, (s.vmaddr - base) % 0x1_0000_0000_0000_0000, |m|)
    ensures var at, r := (s.vmaddr - base) % 0x1_0000_0000_0000_0000, L.MapIn(m, file, base, s);
            && r.Success?
            && r.value[p] ==
               if at <= p && (p - at) / 4096 * 4096 < s.filesize then
                 if s.fileoff + (p - at) < |file| then file[s.fileoff + (p - at)] else 0
               else m[p]
  {
    var at, pages := Wrap64(s.vmaddr - base), (s.filesize + 0xFFF) / 0x1000 * 0x1000;
    WrapSmall(pages);
    assert L.WholePages(s) == pages;
    if p >= at { LastPage(s.filesize, p - at); }
  }

  lemma LastPage(size: nat, i: nat)
    requires size > 0
    ensures i / 4096 * 4096 < size <==> i < (size + 0xFFF) / 0x1000 * 0x1000
  {
  }

  /** Any other segment with file bytes is read up to the mapping's end, and nothing past it is touched. */
  lemma SegmentBroughtIn(m: seq<byte>, file: seq<byte>, base: u64, s: L.Segment, p: nat)
    requires L.NameStr(s.name) != [0x5F, 0x5F, 0x50, 0x41, 0x47, 0x45, 0x5A, 0x45, 0x52, 0x4F] && 0 < s.filesize && p < |m|
    requires L.NameStr(s.name) != [0x5F, 0x5F, 0x54, 0x45, 0x58, 0x54] || !WholePagesMapped(s, (s.vmaddr - base) % 0x1_0000_0000_0000_0000, |m|)
    ensures var at, r := (s.vmaddr - base) % 0x1_0000_0000_0000_0000, L.MapIn(m, file, base, s);
            && (r.Failure? <==> at < |m| && s.fileoff + Min(s.filesize, |m| - at) > |file|)
            && (r.Failure? ==> r.error == L.Error.Truncated)
            && (r.Success? ==> r.value[p] == if at <= p < at + s.filesize then file[s.fileoff + (p - at)] else m[p])
  {
  }

  /** A segment whose file bytes end past the buffer is refused; one whose place or bytes leave the mapping or the buffer crashes. */
  lemma SegmentCopied(m: seq<byte>, work: seq<byte>, base: u64, s: L.Segment)
    requires L.NameStr(s.name) != [0x5F, 0x5F, 0x50, 0x41, 0x47, 0x45, 0x5A, 0x45, 0x52, 0x4F] && s.filesize > 0
    ensures var end, at := (s.fileoff + s.filesize) % 0x1_0000_0000_0000_0000, (s.vmaddr - base) % 0x1_0000_0000_0000_0000;
            var r := L.CopyOut(m, work, base, s);
            && (r == Failure(L.Error.SegmentOutOfBounds) <==> end > |work|)
            && (r == Failure(L.Error.Crash) <==> end <= |work| && (at > |m| || s.fileoff + Min(s.filesize, |m| - at) > |work|))
            && (r.Failure? ==> r.error in {L.Error.SegmentOutOfBounds, L.Error.Crash})
  {
  }

  // ── headers, entries and section headers ─────────────────────────────────

  /** Four bytes of magic, then four of processor. */
  lemma HeaderRefused(file: seq<byte>)
    ensures HeaderError(file) == Some(ParseError.NotMachO) <==> |file| < 32 || file[..4] != [0xCF, 0xFA, 0xED, 0xFE]
    ensures HeaderError(file) == Some(ParseError.NoX86Slice) <==> |file| >= 32 && file[..4] == [0xCF, 0xFA, 0xED, 0xFE] && file[4..8] != [0x07, 0x00, 0x00, 0x01]
    ensures HeaderError(file).Some? ==> HeaderError(file).value in {ParseError.NotMachO, ParseError.NoX86Slice}
  {
    if |file| >= 32 {
      WordBytes(file, 0, 0xCF, 0xFA, 0xED, 0xFE);
      WordBytes(file, 4, 0x07, 0x00, 0x00, 0x01);
    }
  }

  lemma WordBytes(d: seq<byte>, off: nat, a: byte, b: byte, c: byte, e: byte)
    requires off + 4 <= |d|
    ensures d[off..off + 4] == [a, b, c, e] <==> ReadLe32(d, off) == a as int + 0x100 * (b as int) + 0x1_0000 * (c as int) + 0x100_0000 * (e as int)
  {
    var s := d[off..off + 4];
    assert s[0] == d[off] && s[1] == d[off + 1] && s[2] == d[off + 2] && s[3] == d[off + 3];
    assert s == [a, b, c, e] <==> s[0] == a && s[1] == b && s[2] == c && s[3] == e;
  }

  /** An entry for a segment that does not exist stops the program. */
  lemma {:induction false} EntryCrashes(entries: seq<D.Entry>, segments: seq<Segment64>, acc: Fixups, i: nat)
    requires i < |entries| && entries[i].segment >= |segments|
    ensures Attach(entries, segments, acc) == Failure(ParseError.Crash)
    decreases i
  {
    if i > 0 && entries[0].segment < |segments| {
      var name := segments[entries[0].segment].range.name;
      EntryCrashes(entries[1..], segments,
                   match entries[0].bind
                   case None => acc.(rebases := acc.rebases + [Rebase(name, entries[0].offset)])
                   case Some(target) => acc.(binds := acc.binds + [Bind(name, entries[0].offset, target)]),
                   i - 1);
    }
  }

  /** So does a section header, or the fields of a matching one, past the bytes. */
  lemma {:induction false} HeaderCrashes(d: seq<byte>, off: nat, i: nat, n: nat, found: Option<Text>, k: nat)
    requires i <= k < n && off + 72 + 80 * k + 16 > |d|
    ensures Sections(d, off, i, n, found) == Failure(ParseError.Crash)
    decreases n - i
  {
    var so := SectionAt(off, i);
    if HeaderEnd(d, so) <= |d| { HeaderCrashes(d, off, i + 1, n, NextText(d, so, found), k); }
  }

  // ── opcodes ──────────────────────────────────────────────────────────────

  /** The opcodes refused and what the error says: the opcode with a zero operand, or the operand of a type that is not a pointer. */
  lemma OpcodeRefused(t: seq<byte>, st: D.State, isLazy: bool, opcode: nat, imm: nat)
    requires t != [] && opcode == t[0] / 0x10 && imm == t[0] % 0x10
    ensures opcode >= 9 ==> D.OpStep(t, st, D.StreamKind.Rebase, isLazy) == D.Stop(D.UnsupportedFixup(D.StreamKind.Rebase, t[0] - imm))
    ensures opcode >= 13 ==> D.OpStep(t, st, D.StreamKind.Bind, isLazy) == D.Stop(D.UnsupportedFixup(D.StreamKind.Bind, t[0] - imm))
    ensures opcode == 1 && imm != 1 ==> D.OpStep(t, st, D.StreamKind.Rebase, isLazy) == D.Stop(D.UnsupportedFixup(D.StreamKind.Rebase, imm))
    ensures opcode == 5 && imm > 1 ==> D.OpStep(t, st, D.StreamKind.Bind, isLazy) == D.Stop(D.UnsupportedFixup(D.StreamKind.Bind, imm))
  {
  }

  /** Every other stop is a number or a name that the stream does not end. */
  lemma OtherStops(t: seq<byte>, st: D.State, kind: D.StreamKind, isLazy: bool, opcode: nat, imm: nat)
    requires t != [] && opcode == t[0] / 0x10 && imm == t[0] % 0x10 && D.OpStep(t, st, kind, isLazy).Stop?
    requires !(kind == D.StreamKind.Rebase && (opcode >= 9 || (opcode == 1 && imm != 1)))
    requires !(kind == D.StreamKind.Bind && (opcode >= 13 || (opcode == 5 && imm > 1)))
    ensures D.OpStep(t, st, kind, isLazy) == D.Stop(D.Truncated)
  {
  }

  /** A number is refused exactly when it does not end within ten bytes. */
  lemma NumberRefused(t: seq<byte>)
    ensures Leb.ReadUleb(t).Failure? <==> forall i :: 0 <= i < 10 && i < |t| ==> t[i] >= 0x80
    ensures Leb.ReadSleb(t).Failure? <==> Leb.ReadUleb(t).Failure?
  {
    LengthIs(t, 10);
  }

  lemma {:induction false} LengthIs(t: seq<byte>, n: nat)
    ensures (Leb.LebLength(t).Some? && Leb.LebLength(t).value <= n) <==> exists i :: 0 <= i < n && i < |t| && t[i] < 0x80
    decreases |t|
  {
    if t != [] && t[0] >= 0x80 && n > 0 {
      LengthIs(t[1..], n - 1);
      assert forall i :: 0 <= i < |t| - 1 ==> t[1..][i] == t[i + 1];
      if i :| 0 <= i < n && i < |t| && t[i] < 0x80 { assert t[1..][i - 1] < 0x80; }
      if i :| 0 <= i < n - 1 && i < |t[1..]| && t[1..][i] < 0x80 { assert t[i + 1] < 0x80; }
    }
  }
}
