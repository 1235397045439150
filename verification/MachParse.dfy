/**
 * The load-command parsers of macho.rs: `ParseOwned` over a whole buffer, and `ParseReader`, which
 * reads the header with its commands and one contiguous range of the tail. Thin images only.
 */
module MachParse {
  import opened Bytes
  import opened Wrappers
  import L = MachLoader
  import D = DyldStream
  import Utf8

  const MAGIC: u32 := 0xFEED_FACF
  const CPU_X86_64: u32 := 0x0100_0007
  const SEGMENT_64: u32 := 0x19
  const SYMTAB: u32 := 0x2
  const DYLD_INFO: u32 := 0x22
  const DYLD_INFO_ONLY: u32 := 0x8000_0022
  const MAX_COMMANDS: nat := 0x10_0000
  const MAX_TAIL: nat := 0x80_0000
  const SECTION: seq<byte> := [0x5F, 0x5F, 0x74, 0x65, 0x78, 0x74]

  datatype ParseError = NotMachO | NoX86Slice | Truncated | BadLoadCommands | Unsupported(kind: D.StreamKind, value: byte) | Io | Crash

  datatype LoadCommand = LoadCommand(cmd: u32, cmdsize: u32, off: nat)

  /** A segment command; the two protections are kept as bit patterns. */
  datatype Segment64 = Segment64(range: L.Segment, initprot: u32, maxprot: u32)

  datatype Symtab = Symtab(symoff: u32, nsyms: u32, stroff: u32, strsize: u32)

  type DyldFields = f: seq<u32> | |f| == 10 witness [0, 0, 0, 0, 0, 0, 0, 0, 0, 0]

  datatype Commands = Commands(segments: seq<Segment64>, list: seq<LoadCommand>, symtab: Option<Symtab>, dyld: Option<DyldFields>)

  datatype Rebase = Rebase(segment: L.Name, segOff: u64)

  datatype Bind = Bind(segment: L.Name, segOff: u64, target: D.Target)

  datatype Fixups = Fixups(rebases: seq<Rebase>, binds: seq<Bind>)

  datatype Symbol = Symbol(name: seq<byte>, addr: u64)

  datatype Text = Text(off: u64, size: u64)

  datatype MachInfo = MachInfo(base: u64, segments: seq<Segment64>, commands: seq<LoadCommand>, fixups: Fixups,
                               symbols: seq<Symbol>, text: Option<Text>)

  /** A finished call and the stream symbol it leaves. */
  datatype Outcome<T> = Outcome(symbol: seq<byte>, result: Result<T, ParseError>)

  // ── load commands ────────────────────────────────────────────────────────

  const NONE: Commands := Commands([], [], None, None)

  function SegmentAt(d: seq<byte>, off: nat): Segment64
    requires off + 72 <= |d|
  {
    Segment64(L.Segment(d[off + 8..off + 24], ReadLe64(d, off + 24), ReadLe64(d, off + 32), ReadLe64(d, off + 40), ReadLe64(d, off + 48)),
              ReadLe32(d, off + 56), ReadLe32(d, off + 60))
  }

  function FieldsAt(d: seq<byte>, off: nat): DyldFields
    requires off + 48 <= |d|
  {
    seq(10, i requires 0 <= i < 10 => ReadLe32(d, off + 8 + i * 4))
  }

  /** What one command adds; its header and its size have been checked. */
  function AddCommand(d: seq<byte>, c: LoadCommand, acc: Commands): Result<Commands, ParseError>
    requires 8 <= c.cmdsize && c.off + c.cmdsize <= |d|
  {
    var more := acc.(list := acc.list + [c]);
    if c.cmd == SEGMENT_64 then
      if c.cmdsize < 72 then Failure(BadLoadCommands) else Success(more.(segments := acc.segments + [SegmentAt(d, c.off)]))
    else if c.cmd == SYMTAB then
      if c.off + 24 > |d| then Failure(Truncated)
      else Success(more.(symtab := Some(Symtab(ReadLe32(d, c.off + 8), ReadLe32(d, c.off + 12), ReadLe32(d, c.off + 16), ReadLe32(d, c.off + 20)))))
    else if c.cmd == DYLD_INFO || c.cmd == DYLD_INFO_ONLY then
      if c.off + 48 > |d| then Failure(Truncated) else Success(more.(dyld := Some(FieldsAt(d, c.off))))
    else Success(more)
  }

  function CommandAt(d: seq<byte>, off: nat): (c: Option<LoadCommand>)
    ensures c.Some? ==> c.value.off == off && 8 <= c.value.cmdsize && off + c.value.cmdsize <= |d|
  {
    if off + 8 > |d| then None
    else
      var c := LoadCommand(ReadLe32(d, off), ReadLe32(d, off + 4), off);
      if c.cmdsize < 8 || off + c.cmdsize > |d| then None else Some(c)
  }

  function Walk(d: seq<byte>, off: nat, n: nat, acc: Commands): Result<Commands, ParseError>
    decreases n
  {
    if n == 0 then Success(acc)
    else match CommandAt(d, off)
      case None => Failure(BadLoadCommands)
      case Some(c) =>
        match AddCommand(d, c, acc)
        case Failure(e) => Failure(e)
        case Success(more) => Walk(d, off + c.cmdsize, n - 1, more)
  }

  method WalkCommands(d: seq<byte>, ncmd: nat) returns (r: Result<Commands, ParseError>)
    ensures r == Walk(d, 32, ncmd, NONE)
  {
    var off: nat, acc := 32, NONE;
    for i := 0 to ncmd
      invariant Walk(d, off, ncmd - i, acc) == Walk(d, 32, ncmd, NONE)
    {
      if off + 8 > |d| { return Failure(BadLoadCommands); }
      var cmd, cmdsize := ReadLe32(d, off), ReadLe32(d, off + 4);
      if cmdsize < 8 || off + cmdsize > |d| { return Failure(BadLoadCommands); }
      var more := AddCommand(d, LoadCommand(cmd, cmdsize, off), acc);
      if more.Failure? { return Failure(more.error); }
      acc := more.value;
      off := off + cmdsize;
    }
    r := Success(acc);
  }

  // ── preferred base ───────────────────────────────────────────────────────

  predicate IsBase(segments: seq<Segment64>, base: Option<u64>) {
    match base
    case None => forall s :: s in segments ==> !s.range.Loadable()
    case Some(b) =>
      && (exists s :: s in segments && s.range.Loadable() && s.range.vmaddr == b)
      && (forall s :: s in segments && s.range.Loadable() ==> b <= s.range.vmaddr)
  }

  function Base(segments: seq<Segment64>): (b: Option<u64>)
    ensures IsBase(segments, b)
  {
    if segments == [] then None
    else
      var front, last := segments[..|segments| - 1], segments[|segments| - 1];
      var best := Base(front);
      assert segments == front + [last];
      if last.range.Loadable() && (best.None? || last.range.vmaddr < best.value) then Some(last.range.vmaddr) else best
  }

  method FindBase(segments: seq<Segment64>) returns (base: Option<u64>)
    ensures base == Base(segments)
  {
    base := None;
    for i := 0 to |segments|
      invariant base == Base(segments[..i])
    {
      assert segments[..i + 1][..i] == segments[..i];
      var s := segments[i].range;
      if s.PageZero() || s.vmsize == 0 {
        continue;
      }
      if base.None? || s.vmaddr < base.value {
        base := Some(s.vmaddr);
      }
    }
    assert segments[..|segments|] == segments;
  }

  // ── where the tables are read from ───────────────────────────────────────

  /** The whole file, or one fetched range of it with the positions of the offsets asked for. */
  datatype Source = Whole(file: seq<byte>) | Tail(bytes: seq<byte>, at: map<nat, nat>) {
    function Window(off: nat, size: nat): Option<seq<byte>> {
      match this
      case Whole(file) => if off + size > |file| then None else Some(file[off..off + size])
      case Tail(bytes, at) =>
        if off !in at || at[off] + size > |bytes| then None else Some(bytes[at[off]..at[off] + size])
    }
  }

  // ── fixups ───────────────────────────────────────────────────────────────

  /** Attach entries to their segments; an index past the table stops the program. */
  function Attach(entries: seq<D.Entry>, segments: seq<Segment64>, acc: Fixups): Result<Fixups, ParseError> {
    if entries == [] then Success(acc)
    else
      var e := entries[0];
      if e.segment >= |segments| then Failure(Crash)
      else
        var name := segments[e.segment].range.name;
        Attach(entries[1..], segments,
               match e.bind
               case None => acc.(rebases := acc.rebases + [Rebase(name, e.offset)])
               case Some(target) => acc.(binds := acc.binds + [Bind(name, e.offset, target)]))
  }

  method AttachEntries(entries: seq<D.Entry>, segments: seq<Segment64>, acc0: Fixups) returns (r: Result<Fixups, ParseError>)
    ensures r == Attach(entries, segments, acc0)
  {
    var acc := acc0;
    for i := 0 to |entries|
      invariant Attach(entries[i..], segments, acc) == Attach(entries, segments, acc0)
    {
      var e := entries[i];
      assert entries[i..][0] == e && entries[i..][1..] == entries[i + 1..];
      if e.segment >= |segments| { return Failure(Crash); }
      var name := segments[e.segment].range.name;
      match e.bind {
        case None => acc := acc.(rebases := acc.rebases + [Rebase(name, e.offset)]);
        case Some(target) => acc := acc.(binds := acc.binds + [Bind(name, e.offset, target)]);
      }
    }
    r := Success(acc);
  }

  function FromDecode(e: D.DecodeError): ParseError {
    match e
    case Truncated => Truncated
    case UnsupportedFixup(kind, value) => Unsupported(kind, value)
  }

  function KindOf(k: nat): D.StreamKind { if k == 0 then D.StreamKind.Rebase else D.StreamKind.Bind }

  /** The rebase, bind, weak-bind and lazy-bind streams, from the `k`th on. */
  function Streams(f: DyldFields, k: nat, src: Source, segments: seq<Segment64>, symbol: seq<byte>, acc: Fixups): Outcome<Fixups>
    requires k <= 4
    decreases 4 - k, f
  {
    if k == 4 then Outcome(symbol, Success(acc))
    else
      var off, size := f[2 * k], f[2 * k + 1];
      if size == 0 then Streams(f, k + 1, src, segments, symbol, acc)
      else match src.Window(off, size)
        case None => Outcome(symbol, Failure(Truncated))
        case Some(s) =>
          var o := D.Decode(s, symbol, KindOf(k), k == 3);
          match o.result
          case Failure(e) => Outcome(o.symbol, Failure(FromDecode(e)))
          case Success(entries) =>
            match Attach(entries, segments, acc)
            case Failure(e) => Outcome(o.symbol, Failure(e))
            case Success(more) => Streams(f, k + 1, src, segments, o.symbol, more)
  }

  function FixupsOf(dyld: Option<DyldFields>, src: Source, segments: seq<Segment64>, symbol: seq<byte>): Outcome<Fixups> {
    match dyld
    case None => Outcome(symbol, Success(Fixups([], [])))
    case Some(f) => Streams(f, 0, src, segments, symbol, Fixups([], []))
  }

  method ReadStreams(decoder: D.Decoder, f: DyldFields, src: Source, segments: seq<Segment64>) returns (r: Result<Fixups, ParseError>)
    modifies decoder
    ensures Outcome(decoder.symbol, r) == Streams(f, 0, src, segments, old(decoder.symbol), Fixups([], []))
  {
    var acc := Fixups([], []);
    ghost var whole := Streams(f, 0, src, segments, decoder.symbol, acc);
    for k := 0 to 4
      invariant Streams(f, k, src, segments, decoder.symbol, acc) == whole
    {
      var off, size := f[2 * k], f[2 * k + 1];
      if size == 0 {
        continue;
      }
      var s := src.Window(off, size);
      if s.None? { return Failure(Truncated); }
      assert s.value[0..0 + size] == s.value;
      var entries := decoder.DecodeStream(s.value, 0, size, KindOf(k), k == 3);
      if entries.Failure? { return Failure(FromDecode(entries.error)); }
      var more := AttachEntries(entries.value, segments, acc);
      if more.Failure? { return Failure(more.error); }
      acc := more.value;
    }
    r := Success(acc);
  }

  // ── symbols ──────────────────────────────────────────────────────────────

  /** The name at `off`, empty when nothing ends it. */
  function NameAt(table: seq<byte>, off: nat): seq<byte> {
    if off >= |table| then []
    else
      var n := D.NulAt(table[off..]);
      if off + n >= |table| then [] else Utf8.Lossy(table[off..][..n])
  }

  /** Defined in a section (type bits 0x0e all set), placed, and named. */
  function SymbolAt(entries: seq<byte>, table: seq<byte>, i: nat): Option<Symbol>
    requires i * 16 + 16 <= |entries|
  {
    var e := i * 16;
    var name := NameAt(table, ReadLe32(entries, e));
    if entries[e + 4] / 2 % 8 == 7 && ReadLe64(entries, e + 8) != 0 && name != [] then Some(Symbol(name, ReadLe64(entries, e + 8))) else None
  }

  function Kept(found: seq<Option<Symbol>>): seq<Symbol> {
    if found == [] then []
    else Kept(found[..|found| - 1]) + match found[|found| - 1] case None => [] case Some(s) => [s]
  }

  /** The symbols among the first `n` entries, in order. */
  function Symbols(entries: seq<byte>, table: seq<byte>, n: nat): seq<Symbol>
    requires n * 16 <= |entries|
  {
    Kept(seq(n, i requires 0 <= i < n => SymbolAt(entries, table, i)))
  }

  function SymbolsOf(symtab: Option<Symtab>, src: Source): Result<seq<Symbol>, ParseError> {
    match symtab
    case None => Success([])
    case Some(t) =>
      match src.Window(t.symoff, t.nsyms * 16)
      case None => Failure(Truncated)
      case Some(entries) =>
        match src.Window(t.stroff, t.strsize)
        case None => Failure(Truncated)
        case Some(table) => Success(Symbols(entries, table, t.nsyms))
  }

  method ReadSymbol(entries: seq<byte>, table: seq<byte>, i: nat) returns (s: Option<Symbol>)
    requires i * 16 + 16 <= |entries|
    ensures s == SymbolAt(entries, table, i)
  {
    var e := i * 16;
    var strx, ntype, value := ReadLe32(entries, e), entries[e + 4], ReadLe64(entries, e + 8);
    if ntype / 2 % 8 != 7 || value == 0 || strx >= |table| {
      return None;
    }
    var name := NameAt(table, strx);
    s := if name == [] then None else Some(Symbol(name, value));
  }

  lemma KeptNext(found: seq<Option<Symbol>>, i: nat)
    requires i < |found|
    ensures Kept(found[..i + 1]) == if found[i].None? then Kept(found[..i]) else Kept(found[..i]) + [found[i].value]
  {
    assert found[..i + 1][..i] == found[..i];
  }

  method ReadSymbols(entries: seq<byte>, table: seq<byte>, nsyms: nat) returns (out: seq<Symbol>)
    requires nsyms * 16 <= |entries|
    ensures out == Symbols(entries, table, nsyms)
  {
    out := [];
    ghost var found := seq(nsyms, i requires 0 <= i < nsyms => SymbolAt(entries, table, i));
    for i := 0 to nsyms
      invariant out == Kept(found[..i])
    {
      var s := ReadSymbol(entries, table, i);
      assert found[i] == s;
      KeptNext(found, i);
      if s.Some? {
        out := out + [s.value];
      }
    }
    assert found[..nsyms] == found;
  }

  // ── the __text section ───────────────────────────────────────────────────

  predicate IsTextSegment(d: seq<byte>, c: LoadCommand)
    requires c.off + 72 <= |d|
  {
    c.cmd == SEGMENT_64 && L.TEXT <= d[c.off + 8..c.off + 24]
  }

  predicate NamedText(d: seq<byte>, so: nat)
    requires so + 16 <= |d|
  {
    d[so..so + 6] == SECTION
  }

  /** Where the section header at `so` must end for the scan to read it. */
  function HeaderEnd(d: seq<byte>, so: nat): nat {
    if so + 16 <= |d| && NamedText(d, so) then so + 52 else so + 16
  }

  function NextText(d: seq<byte>, so: nat, found: Option<Text>): Option<Text>
    requires HeaderEnd(d, so) <= |d|
  {
    if NamedText(d, so) then Some(Text(ReadLe32(d, so + 48), ReadLe64(d, so + 40))) else found
  }

  /** Where the `i`th section header of the segment command at `off` starts. */
  function SectionAt(off: nat, i: nat): nat { off + 72 + i * 80 }

  /** Section headers from `i` on; reading past the buffer stops the program. The last match wins. */
  function Sections(d: seq<byte>, off: nat, i: nat, n: nat, found: Option<Text>): Result<Option<Text>, ParseError>
    decreases n - i
  {
    if i >= n then Success(found)
    else
      var so := SectionAt(off, i);
      if HeaderEnd(d, so) > |d| then Failure(Crash)
      else Sections(d, off, i + 1, n, NextText(d, so, found))
  }

  predicate Placed(d: seq<byte>, list: seq<LoadCommand>) {
    forall c :: c in list && c.cmd == SEGMENT_64 ==> c.off + 72 <= |d|
  }

  function TextOf(d: seq<byte>, list: seq<LoadCommand>, found: Option<Text>): Result<Option<Text>, ParseError>
    requires Placed(d, list)
  {
    if list == [] then Success(found)
    else
      var c := list[0];
      assert forall x :: x in list[1..] ==> x in list;
      if c.cmd == SEGMENT_64 && IsTextSegment(d, c) then
        match Sections(d, c.off, 0, ReadLe32(d, c.off + 64), found)
        case Failure(e) => Failure(e)
        case Success(next) => TextOf(d, list[1..], next)
      else TextOf(d, list[1..], found)
  }

  method ScanSections(d: seq<byte>, off: nat, n: nat, found0: Option<Text>) returns (r: Result<Option<Text>, ParseError>)
    ensures r == Sections(d, off, 0, n, found0)
  {
    var found := found0;
    for i := 0 to n
      invariant Sections(d, off, i, n, found) == Sections(d, off, 0, n, found0)
    {
      var so := SectionAt(off, i);
      if so + 16 > |d| { return Failure(Crash); }
      if d[so..so + 6] == SECTION {
        if so + 52 > |d| { return Failure(Crash); }
        found := Some(Text(ReadLe32(d, so + 48), ReadLe64(d, so + 40)));
      }
    }
    r := Success(found);
  }

  method FindText(d: seq<byte>, list: seq<LoadCommand>) returns (r: Result<Option<Text>, ParseError>)
    requires Placed(d, list)
    ensures r == TextOf(d, list, None)
  {
    var found: Option<Text> := None;
    for k := 0 to |list|
      invariant TextOf(d, list[k..], found) == TextOf(d, list, None)
    {
      var c := list[k];
      assert list[k..][0] == c && list[k..][1..] == list[k + 1..];
      if c.cmd != SEGMENT_64 {
        continue;
      }
      if !(L.TEXT <= d[c.off + 8..c.off + 24]) {
        continue;
      }
      var scanned := ScanSections(d, c.off, ReadLe32(d, c.off + 64), found);
      if scanned.Failure? { return Failure(scanned.error); }
      found := scanned.value;
    }
    r := Success(found);
  }

  // ── the two parsers ──────────────────────────────────────────────────────

  lemma {:induction false} WalkPlaced(d: seq<byte>, off: nat, n: nat, acc: Commands)
    requires Placed(d, acc.list)
    ensures var r := Walk(d, off, n, acc); r.Success? ==> Placed(d, r.value.list)
    decreases n
  {
    if n > 0 {
      var c := CommandAt(d, off);
      if c.Some? {
        var more := AddCommand(d, c.value, acc);
        if more.Success? { WalkPlaced(d, off + c.value.cmdsize, n - 1, more.value); }
      }
    }
  }

  /** The first of the four parts that failed, or all of them. */
  function Assemble(cs: Commands, symbol: seq<byte>, fixups: Outcome<Fixups>, symbols: Result<seq<Symbol>, ParseError>,
                    text: Result<Option<Text>, ParseError>): Outcome<MachInfo>
  {
    match Base(cs.segments)
    case None => Outcome(symbol, Failure(Truncated))
    case Some(base) =>
      match fixups.result
      case Failure(e) => Outcome(fixups.symbol, Failure(e))
      case Success(fs) =>
        match symbols
        case Failure(e) => Outcome(fixups.symbol, Failure(e))
        case Success(named) =>
          match text
          case Failure(e) => Outcome(fixups.symbol, Failure(e))
          case Success(bounds) => Outcome(fixups.symbol, Success(MachInfo(base, cs.segments, cs.list, fs, named, bounds)))
  }

  /** From the collected commands to the result, with the tables read from `src`. */
  function Finish(d: seq<byte>, src: Source, cs: Commands, symbol: seq<byte>): Outcome<MachInfo>
    requires Placed(d, cs.list)
  {
    Assemble(cs, symbol, FixupsOf(cs.dyld, src, cs.segments, symbol), SymbolsOf(cs.symtab, src), TextOf(d, cs.list, None))
  }

  function HeaderError(file: seq<byte>): Option<ParseError> {
    if |file| < 32 || ReadLe32(file, 0) != MAGIC then Some(NotMachO)
    else if ReadLe32(file, 4) != CPU_X86_64 then Some(NoX86Slice)
    else None
  }

  /** The bytes the header claims, itself included. */
  function CommandEnd(file: seq<byte>): nat
    requires |file| >= 32
  {
    32 + (ReadLe32(file, 20) as int)
  }

  function Owned(file: seq<byte>, symbol: seq<byte>): Outcome<MachInfo> {
    if HeaderError(file).Some? then Outcome(symbol, Failure(HeaderError(file).value))
    else if CommandEnd(file) > |file| then Outcome(symbol, Failure(BadLoadCommands))
    else OwnedBody(file, ReadLe16(file, 16), symbol)
  }

  function OwnedBody(file: seq<byte>, ncmd: nat, symbol: seq<byte>): Outcome<MachInfo> {
    match Walk(file, 32, ncmd, NONE)
    case Failure(e) => Outcome(symbol, Failure(e))
    case Success(cs) => WalkPlaced(file, 32, ncmd, NONE); Finish(file, Whole(file), cs, symbol)
  }

  datatype Range = Range(off: nat, size: nat)

  function SymtabRanges(symtab: Option<Symtab>): seq<Range> {
    match symtab
    case Some(t) => if t.nsyms > 0 && t.strsize > 0 then [Range(t.symoff, t.nsyms * 16), Range(t.stroff, t.strsize)] else []
    case None => []
  }

  function StreamRanges(f: DyldFields, k: nat): seq<Range>
    requires k <= 4
    decreases 4 - k, f
  {
    if k == 4 then []
    else (if f[2 * k + 1] > 0 then [Range(f[2 * k], f[2 * k + 1])] else []) + StreamRanges(f, k + 1)
  }

  function Ranges(cs: Commands): seq<Range> {
    SymtabRanges(cs.symtab) + match cs.dyld case None => [] case Some(f) => StreamRanges(f, 0)
  }

  function Start(ranges: seq<Range>): (s: nat)
    requires ranges != []
    ensures forall r :: r in ranges ==> s <= r.off
    ensures exists r :: r in ranges && s == r.off
  {
    if |ranges| == 1 then ranges[0].off
    else
      assert ranges == [ranges[0]] + ranges[1..];
      var s := Start(ranges[1..]);
      if ranges[0].off < s then ranges[0].off else s
  }

  function End(ranges: seq<Range>): (e: nat)
    requires ranges != []
    ensures forall r :: r in ranges ==> r.off + r.size <= e
    ensures exists r :: r in ranges && e == r.off + r.size
  {
    if |ranges| == 1 then ranges[0].off + ranges[0].size
    else
      assert ranges == [ranges[0]] + ranges[1..];
      var e := End(ranges[1..]);
      if ranges[0].off + ranges[0].size > e then ranges[0].off + ranges[0].size else e
  }

  function Positions(ranges: seq<Range>, start: nat): map<nat, nat>
    requires forall r :: r in ranges ==> start <= r.off
  {
    map r | r in ranges :: r.off := r.off - start
  }

  /** The one tail read, and the offset map over it. */
  function Fetch(file: seq<byte>, ranges: seq<Range>): Result<Source, ParseError> {
    if ranges == [] then Success(Tail([], map[]))
    else
      var start, end := Start(ranges), End(ranges);
      if end - start > MAX_TAIL then Failure(BadLoadCommands)
      else if end > |file| then Failure(Io)
      else Success(Tail(file[start..end], Positions(ranges, start)))
  }

  /** The checks before any command is looked at. */
  function ReaderRefuses(file: seq<byte>): (e: Option<ParseError>)
    ensures e.None? ==> |file| >= 32 && CommandEnd(file) <= |file|
  {
    if |file| < 32 then Some(Io)
    else if HeaderError(file).Some? then HeaderError(file)
    else if ReadLe16(file, 16) == 0 || ReadLe32(file, 20) == 0 || ReadLe32(file, 20) > MAX_COMMANDS then Some(BadLoadCommands)
    else if CommandEnd(file) > |file| then Some(Io)
    else None
  }

  function Reader(file: seq<byte>, symbol: seq<byte>): Outcome<MachInfo> {
    if ReaderRefuses(file).Some? then Outcome(symbol, Failure(ReaderRefuses(file).value))
    else ReaderBody(file, CommandEnd(file), ReadLe16(file, 16), symbol)
  }

  /** The commands come from the first `end` bytes, the tables from the fetched tail. */
  function ReaderBody(file: seq<byte>, end: nat, ncmd: nat, symbol: seq<byte>): Outcome<MachInfo>
    requires end <= |file|
  {
    var d := file[..end];
    match Walk(d, 32, ncmd, NONE)
    case Failure(e) => Outcome(symbol, Failure(e))
    case Success(cs) =>
      match Fetch(file, Ranges(cs))
      case Failure(e) => Outcome(symbol, Failure(e))
      case Success(src) => WalkPlaced(d, 32, ncmd, NONE); Finish(d, src, cs, symbol)
  }

  method FinishParse(decoder: D.Decoder, d: seq<byte>, src: Source, cs: Commands) returns (r: Result<MachInfo, ParseError>)
    requires Placed(d, cs.list)
    modifies decoder
    ensures Outcome(decoder.symbol, r) == Finish(d, src, cs, old(decoder.symbol))
  {
    var base := FindBase(cs.segments);
    if base.None? { return Failure(Truncated); }
    var fixups := Fixups([], []);
    if cs.dyld.Some? {
      var read := ReadStreams(decoder, cs.dyld.value, src, cs.segments);
      if read.Failure? { return Failure(read.error); }
      fixups := read.value;
    }
    var symbols: seq<Symbol> := [];
    if cs.symtab.Some? {
      var t := cs.symtab.value;
      var entries, table := src.Window(t.symoff, t.nsyms * 16), src.Window(t.stroff, t.strsize);
      if entries.None? || table.None? { return Failure(Truncated); }
      symbols := ReadSymbols(entries.value, table.value, t.nsyms);
    }
    var text := FindText(d, cs.list);
    if text.Failure? { return Failure(text.error); }
    r := Success(MachInfo(base.value, cs.segments, cs.list, fixups, symbols, text.value));
  }

  /** `parse_thin_owned`; `decoder` holds the thread's stream symbol. */
  method ParseOwned(decoder: D.Decoder, file: seq<byte>) returns (r: Result<MachInfo, ParseError>)
    modifies decoder
    ensures Outcome(decoder.symbol, r) == Owned(file, old(decoder.symbol))
  {
    if |file| < 32 || ReadLe32(file, 0) != MAGIC { return Failure(NotMachO); }
    if ReadLe32(file, 4) != CPU_X86_64 { return Failure(NoX86Slice); }
    var ncmd, sizeofcmds := ReadLe16(file, 16), ReadLe32(file, 20);
    if 32 + sizeofcmds > |file| { return Failure(BadLoadCommands); }
    var cs := WalkCommands(file, ncmd);
    if cs.Failure? { return Failure(cs.error); }
    WalkPlaced(file, 32, ncmd, NONE);
    r := FinishParse(decoder, file, Whole(file), cs.value);
  }

  method ReadHeader(file: seq<byte>) returns (r: Result<seq<byte>, ParseError>)
    ensures r.Failure? ==> ReaderRefuses(file) == Some(r.error)
    ensures r.Success? ==> ReaderRefuses(file) == None && r.value == file[..CommandEnd(file)]
  {
    if |file| < 32 { return Failure(Io); }
    if ReadLe32(file, 0) != MAGIC { return Failure(NotMachO); }
    if ReadLe32(file, 4) != CPU_X86_64 { return Failure(NoX86Slice); }
    var ncmd, sizeofcmds := ReadLe16(file, 16), ReadLe32(file, 20);
    if ncmd == 0 || sizeofcmds == 0 || sizeofcmds > MAX_COMMANDS { return Failure(BadLoadCommands); }
    if 32 + sizeofcmds > |file| { return Failure(Io); }
    r := Success(file[..32] + file[32..32 + sizeofcmds]);
  }

  /** `parse_reader` on a thin file. */
  method ParseReader(decoder: D.Decoder, file: seq<byte>) returns (r: Result<MachInfo, ParseError>)
    modifies decoder
    ensures Outcome(decoder.symbol, r) == Reader(file, old(decoder.symbol))
  {
    var header := ReadHeader(file);
    if header.Failure? { return Failure(header.error); }
    var d, ncmd := header.value, ReadLe16(file, 16);
    var cs := WalkCommands(d, ncmd);
    if cs.Failure? { return Failure(cs.error); }
    WalkPlaced(d, 32, ncmd, NONE);
    var src := Fetch(file, Ranges(cs.value));
    if src.Failure? { return Failure(src.error); }
    r := FinishParse(decoder, d, src.value, cs.value);
  }
}
