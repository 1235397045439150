/** The reader-based parser refines the buffer-based one, and serves exactly the images that keep to its limits. */
module ParsersAgree {
  import opened Bytes
  import opened Wrappers
  import opened MachParse
  import D = DyldStream
  import L = MachLoader

  // ── load commands ────────────────────────────────────────────────────────

  /** Everything the walk reads of `c` lies before `end`. */
  predicate Inside(c: LoadCommand, end: nat) {
    && c.off + c.cmdsize <= end
    && (c.cmd == SYMTAB ==> c.off + 24 <= end)
    && (c.cmd == DYLD_INFO || c.cmd == DYLD_INFO_ONLY ==> c.off + 48 <= end)
  }

  predicate AllInside(list: seq<LoadCommand>, end: nat) {
    forall c :: c in list ==> Inside(c, end)
  }

  lemma AddPrefix(file: seq<byte>, end: nat, c: LoadCommand, acc: Commands)
    requires end <= |file| && Inside(c, end) && 8 <= c.cmdsize
    ensures AddCommand(file[..end], c, acc) == AddCommand(file, c, acc)
  {
    var d := file[..end];
    if c.cmd == SEGMENT_64 && c.cmdsize >= 72 {
      assert d[c.off + 8..c.off + 24] == file[c.off + 8..c.off + 24];
    }
    if (c.cmd == DYLD_INFO || c.cmd == DYLD_INFO_ONLY) {
      assert FieldsAt(d, c.off) == FieldsAt(file, c.off);
    }
  }

  lemma CommandPrefix(file: seq<byte>, end: nat, off: nat)
    requires end <= |file|
    ensures var c := CommandAt(file[..end], off); c.Some? ==> CommandAt(file, off) == c && c.value.off + c.value.cmdsize <= end
    ensures var c := CommandAt(file, off); c.Some? && c.value.off + c.value.cmdsize <= end ==> CommandAt(file[..end], off) == c
  {
  }

  /** A command that is not inside makes the shorter walk stop at it. */
  lemma AddOutside(file: seq<byte>, end: nat, c: LoadCommand, acc: Commands)
    requires end <= |file| && 8 <= c.cmdsize && c.off + c.cmdsize <= end
    ensures AddCommand(file[..end], c, acc).Success? ==> Inside(c, end) && AddCommand(file, c, acc) == AddCommand(file[..end], c, acc)
  {
    if Inside(c, end) { AddPrefix(file, end, c, acc); }
  }

  lemma {:induction false} WalkGrows(d: seq<byte>, off: nat, n: nat, acc: Commands)
    ensures var r := Walk(d, off, n, acc); r.Success? ==> acc.list <= r.value.list
    decreases n
  {
    if n > 0 {
      var c := CommandAt(d, off);
      if c.Some? {
        var more := AddCommand(d, c.value, acc);
        if more.Success? {
          assert acc.list <= more.value.list;
          WalkGrows(d, off + c.value.cmdsize, n - 1, more.value);
        }
      }
    }
  }

  /** Walking only the commands' own bytes succeeds exactly when the whole walk does and stays inside them. */
  lemma {:induction false} WalkPrefix(file: seq<byte>, end: nat, off: nat, n: nat, acc: Commands)
    requires end <= |file| && AllInside(acc.list, end)
    ensures var short, whole := Walk(file[..end], off, n, acc), Walk(file, off, n, acc);
            (short.Success? <==> whole.Success? && AllInside(whole.value.list, end)) && (short.Success? ==> short == whole)
    decreases n
  {
    if n > 0 {
      var d := file[..end];
      CommandPrefix(file, end, off);
      var c := CommandAt(file, off);
      if c.Some? {
        WalkGrowsPast(file, off, n, acc);
        if CommandAt(d, off).Some? {
          AddOutside(file, end, c.value, acc);
        }
        if Inside(c.value, end) {
          AddPrefix(file, end, c.value, acc);
          var more := AddCommand(file, c.value, acc);
          if more.Success? { WalkPrefix(file, end, off + c.value.cmdsize, n - 1, more.value); }
        }
      }
    }
  }

  lemma WalkGrowsPast(d: seq<byte>, off: nat, n: nat, acc: Commands)
    requires n > 0 && CommandAt(d, off).Some?
    ensures var r := Walk(d, off, n, acc); r.Success? ==> CommandAt(d, off).value in r.value.list
  {
    var c := CommandAt(d, off).value;
    var more := AddCommand(d, c, acc);
    if more.Success? {
      assert c in more.value.list;
      WalkGrows(d, off + c.cmdsize, n - 1, more.value);
    }
  }

  // ── section headers ──────────────────────────────────────────────────────

  predicate SectionsInside(d: seq<byte>, off: nat, i: nat, n: nat, end: nat) {
    forall k :: i <= k < n ==> HeaderEnd(d, SectionAt(off, k)) <= end
  }

  /** Every section header the scan visits ends by `end`. */
  predicate TextInside(file: seq<byte>, list: seq<LoadCommand>, end: nat)
    requires Placed(file, list)
  {
    forall c :: c in list && c.cmd == SEGMENT_64 && IsTextSegment(file, c) ==> SectionsInside(file, c.off, 0, ReadLe32(file, c.off + 64), end)
  }

  lemma HeaderPrefix(file: seq<byte>, end: nat, so: nat)
    requires end <= |file|
    ensures HeaderEnd(file[..end], so) <= end <==> HeaderEnd(file, so) <= end
    ensures HeaderEnd(file, so) <= end ==> forall found :: NextText(file[..end], so, found) == NextText(file, so, found)
  {
  }

  lemma FirstSectionInside(d: seq<byte>, off: nat, i: nat, n: nat, end: nat)
    requires i < n && HeaderEnd(d, SectionAt(off, i)) <= end
    ensures SectionsInside(d, off, i, n, end) <==> SectionsInside(d, off, i + 1, n, end)
  {
  }

  lemma {:induction false} SectionsPrefix(file: seq<byte>, end: nat, off: nat, i: nat, n: nat, found: Option<Text>)
    requires end <= |file|
    ensures var short, whole := Sections(file[..end], off, i, n, found), Sections(file, off, i, n, found);
            (short.Success? <==> SectionsInside(file, off, i, n, end)) && (short.Success? ==> short == whole)
    decreases n - i
  {
    if i < n {
      var so := SectionAt(off, i);
      HeaderPrefix(file, end, so);
      if HeaderEnd(file, so) <= end {
        SectionsPrefix(file, end, off, i + 1, n, NextText(file, so, found));
        FirstSectionInside(file, off, i, n, end);
      }
    }
  }

  lemma TextSegmentPrefix(file: seq<byte>, end: nat, c: LoadCommand)
    requires end <= |file| && c.off + 72 <= end
    ensures IsTextSegment(file[..end], c) == IsTextSegment(file, c)
    ensures ReadLe32(file[..end], c.off + 64) == ReadLe32(file, c.off + 64)
  {
  }

  lemma {:induction false} TextPrefix(file: seq<byte>, end: nat, list: seq<LoadCommand>, found: Option<Text>)
    requires end <= |file| && Placed(file[..end], list)
    ensures Placed(file, list)
    ensures var short, whole := TextOf(file[..end], list, found), TextOf(file, list, found);
            (short.Success? <==> whole.Success? && TextInside(file, list, end)) && (short.Success? ==> short == whole)
    decreases |list|
  {
    if list != [] {
      var c, rest := list[0], list[1..];
      assert list == [c] + rest;
      var isText := c.cmd == SEGMENT_64 && IsTextSegment(file, c);
      if c.cmd == SEGMENT_64 { TextSegmentPrefix(file, end, c); }
      if isText {
        var n := ReadLe32(file, c.off + 64);
        SectionsPrefix(file, end, c.off, 0, n, found);
        assert TextInside(file, list, end) <==> SectionsInside(file, c.off, 0, n, end) && TextInside(file, rest, end);
        if Sections(file[..end], c.off, 0, n, found).Success? {
          TextPrefix(file, end, rest, Sections(file, c.off, 0, n, found).value);
        }
      } else {
        assert TextInside(file, list, end) <==> TextInside(file, rest, end);
        TextPrefix(file, end, rest, found);
      }
    }
  }

  // ── the tail read ────────────────────────────────────────────────────────

  predicate FetchServes(file: seq<byte>, ranges: seq<Range>) {
    ranges == [] || (End(ranges) - Start(ranges) <= MAX_TAIL && End(ranges) <= |file|)
  }

  /** `off` is the start of a fetched range and `size` bytes from it were fetched. */
  predicate Fetched(ranges: seq<Range>, off: nat, size: nat) {
    ranges != [] && (exists r :: r in ranges && r.off == off) && off + size <= End(ranges)
  }

  lemma SliceOfSlice(s: seq<byte>, start: nat, end: nat, off: nat, size: nat)
    requires start <= off && off + size <= end <= |s|
    ensures s[start..end][off - start..off - start + size] == s[off..off + size]
  {
    var t, a := s[start..end], off - start;
    var left, right := t[a..a + size], s[off..off + size];
    forall k | 0 <= k < size ensures left[k] == right[k] {
      assert t[a + k] == s[start + (a + k)];
    }
  }

  lemma FetchedWindow(file: seq<byte>, ranges: seq<Range>, off: nat, size: nat)
    requires FetchServes(file, ranges)
    ensures Fetch(file, ranges).Success?
    ensures Fetch(file, ranges).value.Window(off, size).Some? <==> Fetched(ranges, off, size)
    ensures Fetched(ranges, off, size) ==> Fetch(file, ranges).value.Window(off, size) == Whole(file).Window(off, size)
  {
    if ranges != [] {
      var start, end := Start(ranges), End(ranges);
      if Fetched(ranges, off, size) {
        SliceOfSlice(file, start, end, off, size);
      }
    }
  }

  lemma {:induction false} StreamFetched(f: DyldFields, j: nat, k: nat, ranges: seq<Range>)
    requires j <= k < 4 && f[2 * k + 1] > 0
    requires forall r :: r in StreamRanges(f, j) ==> r in ranges
    ensures Fetched(ranges, f[2 * k], f[2 * k + 1])
    decreases k - j
  {
    if j == k {
      assert Range(f[2 * k], f[2 * k + 1]) in StreamRanges(f, j);
    } else {
      StreamFetched(f, j + 1, k, ranges);
    }
  }

  /** The streams read the same windows from either source. */
  lemma {:induction false} StreamsAgree(f: DyldFields, k: nat, file: seq<byte>, ranges: seq<Range>, segments: seq<Segment64>, symbol: seq<byte>, acc: Fixups)
    requires k <= 4 && FetchServes(file, ranges)
    requires forall r :: r in StreamRanges(f, 0) ==> r in ranges
    ensures Fetch(file, ranges).Success?
    ensures Streams(f, k, Fetch(file, ranges).value, segments, symbol, acc) == Streams(f, k, Whole(file), segments, symbol, acc)
    decreases 4 - k
  {
    if k < 4 {
      var off, size := f[2 * k], f[2 * k + 1];
      if size == 0 {
        StreamsAgree(f, k + 1, file, ranges, segments, symbol, acc);
      } else {
        StreamFetched(f, 0, k, ranges);
        FetchedWindow(file, ranges, off, size);
        var o := D.Decode(Whole(file).Window(off, size).value, symbol, KindOf(k), k == 3);
        if o.result.Success? {
          var more := Attach(o.result.value, segments, acc);
          if more.Success? { StreamsAgree(f, k + 1, file, ranges, segments, o.symbol, more.value); }
        }
      }
    } else {
      FetchedWindow(file, ranges, 0, 0);
    }
  }

  /** Both symbol tables start a fetched range and lie within the fetch. */
  predicate SymtabServes(cs: Commands) {
    match cs.symtab
    case None => true
    case Some(t) => Fetched(Ranges(cs), t.symoff, t.nsyms * 16) && Fetched(Ranges(cs), t.stroff, t.strsize)
  }

  /** Two windows, each as good as the file's when fetched. */
  lemma WindowsAgree(short: Source, file: seq<byte>, t: Symtab, ranges: seq<Range>)
    requires short.Window(t.symoff, t.nsyms * 16).Some? <==> Fetched(ranges, t.symoff, t.nsyms * 16)
    requires short.Window(t.stroff, t.strsize).Some? <==> Fetched(ranges, t.stroff, t.strsize)
    requires Fetched(ranges, t.symoff, t.nsyms * 16) ==> short.Window(t.symoff, t.nsyms * 16) == Whole(file).Window(t.symoff, t.nsyms * 16)
    requires Fetched(ranges, t.stroff, t.strsize) ==> short.Window(t.stroff, t.strsize) == Whole(file).Window(t.stroff, t.strsize)
    ensures var a, b := SymbolsOf(Some(t), short), SymbolsOf(Some(t), Whole(file));
            (a.Success? <==> Fetched(ranges, t.symoff, t.nsyms * 16) && Fetched(ranges, t.stroff, t.strsize)) && (a.Success? ==> a == b)
  {
  }

  lemma SymbolsAgree(file: seq<byte>, cs: Commands)
    requires FetchServes(file, Ranges(cs)) && Fetch(file, Ranges(cs)).Success?
    ensures var short, whole := SymbolsOf(cs.symtab, Fetch(file, Ranges(cs)).value), SymbolsOf(cs.symtab, Whole(file));
            (short.Success? <==> SymtabServes(cs)) && (short.Success? ==> short == whole)
  {
    if cs.symtab.Some? {
      var t := cs.symtab.value;
      FetchedWindow(file, Ranges(cs), t.symoff, t.nsyms * 16);
      FetchedWindow(file, Ranges(cs), t.stroff, t.strsize);
      WindowsAgree(Fetch(file, Ranges(cs)).value, file, t, Ranges(cs));
    }
  }

  // ── the theorem ──────────────────────────────────────────────────────────

  /** The reader's limits on the commands `cs`: they and what they refer to can be read. */
  predicate BodyServes(file: seq<byte>, end: nat, cs: Commands)
    requires Placed(file, cs.list)
  {
    AllInside(cs.list, end) && TextInside(file, cs.list, end) && FetchServes(file, Ranges(cs)) && SymtabServes(cs)
  }

  /** All of the reader's limits, on an image whose commands the whole-buffer walk accepts. */
  predicate Serves(file: seq<byte>, cs: Commands)
    requires |file| >= 32 && Placed(file, cs.list)
  {
    ReadLe32(file, 20) <= MAX_COMMANDS && BodyServes(file, CommandEnd(file), cs)
  }

  lemma FixupsAgree(file: seq<byte>, cs: Commands, symbol: seq<byte>)
    requires FetchServes(file, Ranges(cs)) && Fetch(file, Ranges(cs)).Success?
    ensures FixupsOf(cs.dyld, Fetch(file, Ranges(cs)).value, cs.segments, symbol) == FixupsOf(cs.dyld, Whole(file), cs.segments, symbol)
  {
    if cs.dyld.Some? {
      StreamsAgree(cs.dyld.value, 0, file, Ranges(cs), cs.segments, symbol, Fixups([], []));
    }
  }

  lemma AssembleAgrees(cs: Commands, symbol: seq<byte>, fixups: Outcome<Fixups>,
                       symbols: Result<seq<Symbol>, ParseError>, text: Result<Option<Text>, ParseError>,
                       allSymbols: Result<seq<Symbol>, ParseError>, allText: Result<Option<Text>, ParseError>, servedSymbols: bool, servedText: bool)
    requires (symbols.Success? <==> servedSymbols) && (symbols.Success? ==> symbols == allSymbols)
    requires (text.Success? <==> allText.Success? && servedText) && (text.Success? ==> text == allText)
    ensures var short, whole := Assemble(cs, symbol, fixups, symbols, text), Assemble(cs, symbol, fixups, allSymbols, allText);
            && (short.result.Success? ==> short == whole)
            && (whole.result.Success? ==> (short.result.Success? <==> servedSymbols && servedText))
  {
  }

  lemma FinishAgrees(file: seq<byte>, end: nat, cs: Commands, symbol: seq<byte>)
    requires end <= |file| && Placed(file[..end], cs.list) && FetchServes(file, Ranges(cs))
    ensures Placed(file, cs.list) && Fetch(file, Ranges(cs)).Success?
    ensures var short, whole := Finish(file[..end], Fetch(file, Ranges(cs)).value, cs, symbol), Finish(file, Whole(file), cs, symbol);
            && (short.result.Success? ==> short == whole)
            && (whole.result.Success? ==> (short.result.Success? <==> TextInside(file, cs.list, end) && SymtabServes(cs)))
  {
    FetchOnly(file, Ranges(cs));
    TextPrefix(file, end, cs.list, None);
    SymbolsAgree(file, cs);
    FixupsAgree(file, cs, symbol);
    var src := Fetch(file, Ranges(cs)).value;
    AssembleAgrees(cs, symbol, FixupsOf(cs.dyld, src, cs.segments, symbol), SymbolsOf(cs.symtab, src), TextOf(file[..end], cs.list, None),
                   SymbolsOf(cs.symtab, Whole(file)), TextOf(file, cs.list, None), SymtabServes(cs), TextInside(file, cs.list, end));
  }

  lemma FetchOnly(file: seq<byte>, ranges: seq<Range>)
    ensures Fetch(file, ranges).Success? <==> FetchServes(file, ranges)
  {
  }

  lemma BodiesAgree(file: seq<byte>, end: nat, n: nat, symbol: seq<byte>)
    requires end <= |file|
    ensures ReaderBody(file, end, n, symbol).result.Success? ==> ReaderBody(file, end, n, symbol) == OwnedBody(file, n, symbol)
    ensures OwnedBody(file, n, symbol).result.Success? ==>
              var cs := Walk(file, 32, n, NONE);
              cs.Success? && Placed(file, cs.value.list) && (ReaderBody(file, end, n, symbol).result.Success? <==> BodyServes(file, end, cs.value))
  {
    WalkPrefix(file, end, 32, n, NONE);
    WalkPlaced(file, 32, n, NONE);
    WalkPlaced(file[..end], 32, n, NONE);
    var short := Walk(file[..end], 32, n, NONE);
    if short.Success? {
      FetchOnly(file, Ranges(short.value));
      if FetchServes(file, Ranges(short.value)) {
        FinishAgrees(file, end, short.value, symbol);
      }
    }
  }

  /** An image the buffer parser accepts has commands, and they take bytes. */
  lemma NonEmptyHeader(file: seq<byte>, end: nat, n: nat, symbol: seq<byte>)
    requires OwnedBody(file, n, symbol).result.Success? && AllInside(Walk(file, 32, n, NONE).value.list, end)
    ensures n > 0 && end > 32
  {
    if n > 0 { WalkGrowsPast(file, 32, n, NONE); }
  }

  /**
   * On every thin image and from every leftover symbol, the reader succeeds exactly when the buffer
   * parser does and the image keeps to the reader's limits; and then both return the same base,
   * segments, commands, rebases, binds, symbols and `__text` bounds, and leave the same symbol.
   */
  lemma ParsersAgree(file: seq<byte>, symbol: seq<byte>)
    ensures Reader(file, symbol).result.Success? ==> Reader(file, symbol) == Owned(file, symbol)
    ensures Owned(file, symbol).result.Success? ==>
              var cs := Walk(file, 32, ReadLe16(file, 16), NONE);
              cs.Success? && Placed(file, cs.value.list) && (Reader(file, symbol).result.Success? <==> Serves(file, cs.value))
  {
    if |file| >= 32 && HeaderError(file).None? && CommandEnd(file) <= |file| {
      var n, end := ReadLe16(file, 16), CommandEnd(file);
      BodiesAgree(file, end, n, symbol);
      if OwnedBody(file, n, symbol).result.Success? && AllInside(Walk(file, 32, n, NONE).value.list, end) {
        NonEmptyHeader(file, end, n, symbol);
      }
    }
  }

  /** A symbol table with no entries, whose offsets start no stream, is refused although nothing in it is read. */
  lemma EmptySymtabRefused(file: seq<byte>, symbol: seq<byte>)
    requires Owned(file, symbol).result.Success?
    requires var cs := Walk(file, 32, ReadLe16(file, 16), NONE).value;
             cs.symtab.Some? && cs.symtab.value.nsyms == 0 && (cs.dyld.Some? ==> forall k :: 0 <= k < 4 ==> cs.dyld.value[2 * k] != cs.symtab.value.symoff)
    ensures Reader(file, symbol).result.Failure?
  {
    ParsersAgree(file, symbol);
    var cs := Walk(file, 32, ReadLe16(file, 16), NONE).value;
    if cs.dyld.Some? { StreamOffsets(cs.dyld.value, 0); }
  }

  lemma {:induction false} StreamOffsets(f: DyldFields, k: nat)
    requires k <= 4
    ensures forall r :: r in StreamRanges(f, k) ==> exists j :: k <= j < 4 && r.off == f[2 * j]
    decreases 4 - k
  {
    if k < 4 {
      StreamOffsets(f, k + 1);
      assert f[2 * k] == f[2 * k];
    }
  }

  // ── an image only one parser takes ───────────────────────────────────────

  /** A header, one segment that is no `__TEXT`, and a symbol table without entries. */
  ghost predicate Bare(file: seq<byte>) {
    && |file| == 128 && HeaderError(file) == None && ReadLe16(file, 16) == 2 && CommandEnd(file) == 128
    && ReadLe32(file, 32) == SEGMENT_64 && ReadLe32(file, 36) == 72 && SegmentAt(file, 32).range.Loadable() && file[40] == 0x44
    && ReadLe32(file, 104) == SYMTAB && ReadLe32(file, 108) == 24
    && ReadLe32(file, 112) == ReadLe32(file, 116) == ReadLe32(file, 120) == ReadLe32(file, 124) == 0
  }

  lemma BareCommands(file: seq<byte>)
    requires Bare(file)
    ensures Walk(file, 32, 2, NONE) ==
            Success(Commands([SegmentAt(file, 32)], [LoadCommand(SEGMENT_64, 72, 32), LoadCommand(SYMTAB, 24, 104)], Some(Symtab(0, 0, 0, 0)), None))
  {
    var c, d := LoadCommand(SEGMENT_64, 72, 32), LoadCommand(SYMTAB, 24, 104);
    var one := Commands([SegmentAt(file, 32)], [c], None, None);
    assert CommandAt(file, 32) == Some(c) && CommandAt(file, 104) == Some(d);
    assert NONE.list + [c] == [c] && NONE.segments + [SegmentAt(file, 32)] == [SegmentAt(file, 32)];
    assert AddCommand(file, c, NONE) == Success(one);
    assert [c] + [d] == [c, d];
    assert Walk(file, 32, 2, NONE) == Walk(file, 104, 1, one);
    assert Walk(file, 128, 0, one.(list := [c, d], symtab := Some(Symtab(0, 0, 0, 0)))).Success?;
  }

  lemma BareOwned(file: seq<byte>, symbol: seq<byte>)
    requires Bare(file)
    ensures Owned(file, symbol).result.Success?
  {
    BareCommands(file);
    var cs := Walk(file, 32, 2, NONE).value;
    assert IsBase(cs.segments, Base(cs.segments)) && cs.segments[0].range.Loadable();
    assert file[40..56][0] == 0x44;
    assert TextOf(file, cs.list[1..][1..], None) == Success(None);
    assert TextOf(file, cs.list[1..], None) == Success(None);
    assert TextOf(file, cs.list, None) == Success(None);
  }

  /** Whichever such image: the buffer parser takes it and the reader refuses it. */
  lemma OnlyOwned(file: seq<byte>, symbol: seq<byte>)
    requires Bare(file)
    ensures Owned(file, symbol).result.Success? && Reader(file, symbol).result.Failure?
  {
    BareCommands(file);
    BareOwned(file, symbol);
    EmptySymtabRefused(file, symbol);
  }

  function ByteAt(i: nat): byte {
    if i == 0 then 0xCF else if i == 1 then 0xFA else if i == 2 then 0xED else if i == 3 then 0xFE else if i == 4 then 0x07 else if i == 7 then 0x01
    else if i == 16 then 2 else if i == 20 then 96
    else if i == 32 then 0x19 else if i == 36 then 72 else if i == 40 then 0x44 else if i == 57 then 0x10 else if i == 65 then 0x10
    else if i == 104 then 2 else if i == 108 then 24
    else 0
  }

  /** There is one: a page at 0x1000. */
  lemma BareImage()
    ensures Bare(seq(128, (i: nat) => ByteAt(i)))
  {
    var file := seq(128, (i: nat) => ByteAt(i));
    BareName(file);
    assert ReadLe64(file, 64) > 0;
  }

  lemma BareName(file: seq<byte>)
    requires |file| == 128 && file[40] == 0x44 && file[41] == 0
    ensures !SegmentAt(file, 32).range.PageZero()
  {
    var name := SegmentAt(file, 32).range.name;
    assert name[0] == 0x44 && L.NameStr(name)[0] == 0x44;
  }
}
