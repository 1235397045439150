/**
 * The two loaders of a parsed Mach-O image. `LoadParsed` patches the file buffer, stages the slots
 * that have no file bytes, and copies the segments out. `MapAndFixup` copies the segments first and
 * patches mapped memory. A mapping is an array of `Span(info)` bytes that starts zeroed.
 */
module MachLoader {
  import opened Bytes
  import opened Rdtsc
  import opened Wrappers

  type Name = n: seq<byte> | |n| == 16 witness [0, 0, 0, 0, 0, 0, 0, 0, 0, 0, 0, 0, 0, 0, 0, 0]

  const PAGEZERO: seq<byte> := [0x5F, 0x5F, 0x50, 0x41, 0x47, 0x45, 0x5A, 0x45, 0x52, 0x4F]
  const TEXT: seq<byte> := [0x5F, 0x5F, 0x54, 0x45, 0x58, 0x54]

  datatype Segment = Segment(name: Name, vmaddr: u64, vmsize: u64, fileoff: u64, filesize: u64) {
    predicate PageZero() { NameStr(name) == PAGEZERO }

    /** Counted in the span and in the base. */
    predicate Loadable() { !PageZero() && vmsize > 0 }

    /** Has bytes to copy. */
    predicate Copied() { !PageZero() && filesize > 0 }
  }

  /** `rebase` adds the slide to the slot; otherwise the slot is set to `value`. */
  datatype Fixup = Fixup(segment: Name, segOff: u64, rebase: bool, value: u64)

  datatype Deferred = Deferred(segment: Name, segOff: u64, value: u64)

  datatype RebaseEntry = RebaseEntry(segment: Name, segOff: u64)

  datatype BindEntry = BindEntry(segment: Name, segOff: u64, name: string, addend: int)

  datatype MachInfo = MachInfo(text: TextSection, base: u64, segments: seq<Segment>,
                               rebases: seq<RebaseEntry>, binds: seq<BindEntry>)

  /** The resolver, the zero page and the trap-stub pool, as fixed functions of the symbol name. */
  datatype Host = Host(resolve: string -> Option<u64>, zeroPage: u64, stub: string -> u64)

  /** `Crash` stands for a slice panic or an access outside the mapping. */
  datatype Error = BadSegment | Truncated | MissingSegment | SegmentOutOfBounds | MapFailed | Crash

  function NameStr(name: seq<byte>): seq<byte> {
    if name == [] || name[0] == 0 then [] else [name[0]] + NameStr(name[1..])
  }

  predicate StartsWith(s: string, prefix: string) { prefix <= s }

  predicate IsDataSymbol(name: string) {
    || StartsWith(name, "_OBJC_CLASS_$_")
    || StartsWith(name, "_OBJC_METACLASS_$_")
    || StartsWith(name, "_OBJC_SELECTOR_REFERENCES")
    || StartsWith(name, "_OBJC_IVAR_$_")
    || StartsWith(name, "_NSConstant")
    || StartsWith(name, "_kNS")
    || StartsWith(name, "_kCF")
    || StartsWith(name, "_kIO")
    || StartsWith(name, "_kDA")
    || StartsWith(name, "_NS")
    || name == "___stack_chk_guard"
  }

  function BindValue(host: Host, b: BindEntry): u64 {
    match host.resolve(b.name)
    case Some(p) => Wrap64(p + b.addend)
    case None => if IsDataSymbol(b.name) then host.zeroPage else host.stub(b.name)
  }

  function RebaseFixup(info: MachInfo, loadBase: u64, r: RebaseEntry): Fixup {
    Fixup(r.segment, r.segOff, true, Wrap64(loadBase - info.base))
  }

  function BindFixup(host: Host, b: BindEntry): Fixup {
    Fixup(b.segment, b.segOff, false, BindValue(host, b))
  }

  function RebaseFixups(info: MachInfo, loadBase: u64): seq<Fixup> {
    seq(|info.rebases|, i requires 0 <= i < |info.rebases| => RebaseFixup(info, loadBase, info.rebases[i]))
  }

  function BindFixups(info: MachInfo, host: Host): seq<Fixup> {
    seq(|info.binds|, i requires 0 <= i < |info.binds| => BindFixup(host, info.binds[i]))
  }

  /** Rebases first, then binds, in table order. */
  function Fixups(info: MachInfo, host: Host, loadBase: u64): seq<Fixup> {
    RebaseFixups(info, loadBase) + BindFixups(info, host)
  }

  // ── slot addressing ──────────────────────────────────────────────────────

  function Find(segments: seq<Segment>, name: Name): (s: Option<Segment>)
    ensures s.Some? ==> s.value in segments && s.value.name == name
    ensures s.None? ==> forall t :: t in segments ==> t.name != name
  {
    if segments == [] then None
    else if segments[0].name == name then Some(segments[0])
    else Find(segments[1..], name)
  }

  function SegmentFileOffset(info: MachInfo, name: Name, segOff: u64, dataLen: nat): Result<Option<nat>, Error> {
    match Find(info.segments, name)
    case None => Failure(MissingSegment)
    case Some(s) =>
      if Wrap64(segOff + 8) > s.vmsize then Failure(BadSegment)
      else if Wrap64(segOff + 8) > s.filesize then Success(None)
      else
        var file := Wrap64(s.fileoff + segOff);
        if Wrap64(file + 8) > dataLen then Failure(Truncated) else Success(Some(file))
  }

  function SegmentMapOffset(info: MachInfo, name: Name, segOff: u64, span: nat): Result<nat, Error> {
    match Find(info.segments, name)
    case None => Failure(MissingSegment)
    case Some(s) =>
      if Wrap64(segOff + 8) > s.vmsize then Failure(BadSegment)
      else
        var off := Wrap64(Wrap64(s.vmaddr - info.base) + segOff);
        if Wrap64(off + 8) > span then Failure(Truncated) else Success(off)
  }

  function Word(s: seq<byte>, off: nat): nat
    requires off + 8 <= |s|
  {
    FromLittleEndian(s[off..off + 8])
  }

  /** What the slot holds after the fixup, given what it held. */
  function Patched(f: Fixup, was: nat): u64 {
    if f.rebase then Wrap64(was + f.value) else f.value
  }

  // ── patching the file buffer ─────────────────────────────────────────────

  datatype Buffer = Buffer(work: seq<byte>, deferred: seq<Deferred>)

  function PatchBuffer(info: MachInfo, b: Buffer, f: Fixup): (r: Result<Buffer, Error>)
    ensures r.Success? ==> |r.value.work| == |b.work|
  {
    match SegmentFileOffset(info, f.segment, f.segOff, |b.work|)
    case Failure(e) => Failure(e)
    case Success(None) => Success(b.(deferred := b.deferred + [Deferred(f.segment, f.segOff, f.value)]))
    case Success(Some(off)) =>
      if off + 8 > |b.work| then Failure(Crash)
      else Success(b.(work := Splice(b.work, off, LittleEndian(Patched(f, Word(b.work, off)), 8))))
  }

  function PatchBufferAll(info: MachInfo, b: Buffer, fs: seq<Fixup>): (r: Result<Buffer, Error>)
    ensures r.Success? ==> |r.value.work| == |b.work|
    decreases |fs|
  {
    if fs == [] then Success(b)
    else
      var next :- PatchBuffer(info, b, fs[0]);
      PatchBufferAll(info, next, fs[1..])
  }

  lemma PatchBufferNext(info: MachInfo, b: Buffer, fs: seq<Fixup>, i: nat)
    requires i < |fs|
    ensures PatchBufferAll(info, b, fs[i..]) ==
            (match PatchBuffer(info, b, fs[i])
             case Failure(e) => Failure(e)
             case Success(next) => PatchBufferAll(info, next, fs[i + 1..]))
  {
    assert fs[i..][1..] == fs[i + 1..];
  }

  lemma {:induction false} PatchBufferAppend(info: MachInfo, b: Buffer, fs: seq<Fixup>, gs: seq<Fixup>)
    ensures PatchBufferAll(info, b, fs + gs) ==
            (match PatchBufferAll(info, b, fs)
             case Failure(e) => Failure(e)
             case Success(mid) => PatchBufferAll(info, mid, gs))
    decreases |fs|
  {
    if fs == [] {
      assert fs + gs == gs;
    } else {
      assert (fs + gs)[1..] == fs[1..] + gs;
      match PatchBuffer(info, b, fs[0])
      case Failure(_) =>
      case Success(next) => PatchBufferAppend(info, next, fs[1..], gs);
    }
  }

  // ── the mapping ──────────────────────────────────────────────────────────

  function SegmentEnd(s: Segment, base: u64): u64 { Wrap64(Wrap64(s.vmaddr - base) + s.vmsize) }

  function MaxEnd(segments: seq<Segment>, base: u64): u64 {
    if segments == [] then 0
    else
      var rest := MaxEnd(segments[..|segments| - 1], base);
      var s := segments[|segments| - 1];
      if s.Loadable() && SegmentEnd(s, base) > rest then SegmentEnd(s, base) else rest
  }

  /** Bytes mapped: the highest segment end, rounded up to a page. */
  function Span(info: MachInfo): nat {
    Wrap64(MaxEnd(info.segments, info.base) + 0xFFF) / 0x1000 * 0x1000
  }

  /** One staged value, written into every segment of that name. */
  function WriteDeferred(m: seq<byte>, segments: seq<Segment>, base: u64, d: Deferred): (r: Result<seq<byte>, Error>)
    ensures r.Success? ==> |r.value| == |m|
    decreases |segments|
  {
    if segments == [] then Success(m)
    else if segments[0].name != d.segment then WriteDeferred(m, segments[1..], base, d)
    else
      var at := Wrap64(Wrap64(segments[0].vmaddr - base) + d.segOff);
      if at + 8 > |m| then Failure(Crash)
      else WriteDeferred(Splice(m, at, LittleEndian(d.value, 8)), segments[1..], base, d)
  }

  function WriteDeferredAll(m: seq<byte>, info: MachInfo, ds: seq<Deferred>): (r: Result<seq<byte>, Error>)
    ensures r.Success? ==> |r.value| == |m|
    decreases |ds|
  {
    if ds == [] then Success(m)
    else
      var next :- WriteDeferred(m, info.segments, info.base, ds[0]);
      WriteDeferredAll(next, info, ds[1..])
  }

  /** One segment of the patched buffer, copied into the mapping. */
  function CopyOut(m: seq<byte>, work: seq<byte>, base: u64, s: Segment): (r: Result<seq<byte>, Error>)
    ensures r.Success? ==> |r.value| == |m|
  {
    if !s.Copied() then Success(m)
    else if Wrap64(s.fileoff + s.filesize) > |work| then Failure(SegmentOutOfBounds)
    else
      var at := Wrap64(s.vmaddr - base);
      if at > |m| || s.fileoff + Min(s.filesize, |m| - at) > |work| then Failure(Crash)
      else Success(Splice(m, at, work[s.fileoff..s.fileoff + Min(s.filesize, |m| - at)]))
  }

  function CopyOutAll(m: seq<byte>, work: seq<byte>, base: u64, segments: seq<Segment>): (r: Result<seq<byte>, Error>)
    ensures r.Success? ==> |r.value| == |m|
    decreases |segments|
  {
    if segments == [] then Success(m)
    else
      var rest :- CopyOutAll(m, work, base, segments[..|segments| - 1]);
      CopyOut(rest, work, base, segments[|segments| - 1])
  }

  /** What a private file mapping of `len` bytes at `off` shows: the file, then zeros. */
  function FileBytes(file: seq<byte>, off: nat, len: nat): (bs: seq<byte>)
    ensures |bs| == len
  {
    seq(len, i requires 0 <= i < len => if off + i < |file| then file[off + i] else 0)
  }

  /** The file bytes rounded up to pages. */
  function WholePages(s: Segment): u64 { Wrap64((s.filesize + 0xFFF) / 0x1000 * 0x1000) }

  predicate PageMapped(span: nat, base: u64, s: Segment) {
    var at := Wrap64(s.vmaddr - base);
    NameStr(s.name) == TEXT && s.fileoff % 0x1000 == 0 && at % 0x1000 == 0 && at < span && WholePages(s) > 0
  }

  /** One segment brought into the mapping from the file: whole pages for `__TEXT`, reads for the rest. */
  function MapIn(m: seq<byte>, file: seq<byte>, base: u64, s: Segment): (r: Result<seq<byte>, Error>)
    ensures r.Success? ==> |r.value| == |m|
  {
    var at := Wrap64(s.vmaddr - base);
    if !s.Copied() then Success(m)
    else if PageMapped(|m|, base, s) then
      Success(Splice(m, at, FileBytes(file, s.fileoff, Min(WholePages(s), |m| - at))))
    else
      var n := if at < |m| then Min(s.filesize, |m| - at) else 0;
      if n == 0 then Success(m)
      else if s.fileoff + n > |file| then Failure(Truncated)
      else Success(Splice(m, at, file[s.fileoff..s.fileoff + n]))
  }

  function MapInAll(m: seq<byte>, file: seq<byte>, base: u64, segments: seq<Segment>): (r: Result<seq<byte>, Error>)
    ensures r.Success? ==> |r.value| == |m|
    decreases |segments|
  {
    if segments == [] then Success(m)
    else
      var rest :- MapInAll(m, file, base, segments[..|segments| - 1]);
      MapIn(rest, file, base, segments[|segments| - 1])
  }

  function PatchMapping(info: MachInfo, m: seq<byte>, f: Fixup): (r: Result<seq<byte>, Error>)
    ensures r.Success? ==> |r.value| == |m|
  {
    match SegmentMapOffset(info, f.segment, f.segOff, |m|)
    case Failure(e) => Failure(e)
    case Success(off) =>
      if off + 8 > |m| then Failure(Crash)
      else Success(Splice(m, off, LittleEndian(Patched(f, Word(m, off)), 8)))
  }

  function PatchMappingAll(info: MachInfo, m: seq<byte>, fs: seq<Fixup>): (r: Result<seq<byte>, Error>)
    ensures r.Success? ==> |r.value| == |m|
    decreases |fs|
  {
    if fs == [] then Success(m)
    else
      var next :- PatchMapping(info, m, fs[0]);
      PatchMappingAll(info, next, fs[1..])
  }
}
