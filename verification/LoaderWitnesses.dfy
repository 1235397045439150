/** Images on which the two loaders part. Each has one segment of a page, and no `__text`. */
module LoaderWitnesses {
  import opened Bytes
  import opened Rdtsc
  import opened Wrappers
  import opened MachLoader
  import opened LoadersAgree
  import opened LoaderPictures
  import opened LooseFixups
  import opened LoaderLimits
  import opened LoaderOverlaps

  /** With no text and placed fixups, both loads have a result. */
  lemma BothLoad(info: MachInfo, host: Host, file: seq<byte>, loadBase: u64, pending: seq<Deferred>) returns (m: seq<byte>, n: seq<byte>)
    requires WellFormedSegments(info, |file|) && Clear(info, Fixups(info, host, loadBase)) && info.text.NoText? && Stale(info, pending).Success?
    ensures BufferImage(info, host, file, loadBase, pending, m) && MappedImage(info, host, file, loadBase, n)
  {
    var fs, zeros := Fixups(info, host, loadBase), Zeros(Span(info));
    var u := Unbacked(info, fs);
    AllCopyable(info, |file|);
    CopyAll(info, zeros, file, info.segments);
    var m0 := MapInAll(zeros, file, info.base, info.segments).value;
    StartParallel(info, fs, file, zeros, m0);
    Follow(info, fs, file, Buffer(file, pending), m0, m0, fs);
    FollowStage(info, Buffer(file, pending), fs);
    DrainAppend(zeros, info, pending, StagedAll(u));
    DrainStaged(info, |file|, Stale(info, pending).value, u);
    n := PatchMappingAll(info, m0, fs).value;
    var b := PatchBufferAll(info, Buffer(file, pending), fs).value;
    var d := WriteDeferredAll(zeros, info, b.deferred).value;
    CopyAll(info, d, b.work, info.segments);
    m := CopyOutAll(d, b.work, info.base, info.segments).value;
    assert TextNeutralized(b.work, info.text, b.work);
  }

  const DATA: Name := [0x44, 0, 0, 0, 0, 0, 0, 0, 0, 0, 0, 0, 0, 0, 0, 0]

  /** One page at 0x1000 of which the first `k` bytes are the file. */
  function Page(k: nat, rebases: seq<RebaseEntry>, binds: seq<BindEntry>): MachInfo
    requires k < 0x1000
  {
    MachInfo(NoText, 0x1000, [Segment(DATA, 0x1000, 0x1000, 0, k)], rebases, binds)
  }

  const HOST: Host := Host(_ => Some(1), 0, _ => 0)

  lemma PageIsWellFormed(k: nat, rebases: seq<RebaseEntry>, binds: seq<BindEntry>)
    requires k < 0x1000
    ensures WellFormedSegments(Page(k, rebases, binds), k) && WellFormedText(Page(k, rebases, binds)) && Span(Page(k, rebases, binds)) == 0x1000
    ensures Find(Page(k, rebases, binds).segments, DATA) == Some(Segment(DATA, 0x1000, 0x1000, 0, k))
    ensures Segment(DATA, 0x1000, 0x1000, 0, k).Loadable()
  {
    var info := Page(k, rebases, binds);
    var s := info.segments[0];
    assert NameStr([0x44, 0, 0, 0, 0, 0, 0, 0, 0, 0, 0, 0, 0, 0, 0, 0]) == [0x44];
    assert MaxEnd(info.segments[..0], info.base) == 0;
    assert WellFormedSegment(info, s, k);
  }

  lemma PagePlaces(info: MachInfo, k: nat, f: Fixup)
    requires k < 0x1000 && info == Page(k, info.rebases, info.binds) && f.segment == DATA && f.segOff + 8 <= 0x1000
    ensures Placed(info, f) && Slot(info, f) == f.segOff
    ensures Backed(info, f) <==> f.segOff + 8 <= k
    ensures Straddles(info, f) <==> f.segOff < k < f.segOff + 8
    ensures FrontLen(info, f) == if f.segOff < k then k - f.segOff else 0
  {
    PageIsWellFormed(k, info.rebases, info.binds);
  }

  lemma BareByte(info: MachInfo, file: seq<byte>, host: Host, loadBase: u64, f: Fixup)
    requires WellFormed(info, host, file, loadBase) && Fixups(info, host, loadBase) == [] && Placed(info, f) && !Backed(info, f) && !Straddles(info, f)
    requires f.value % 0x100 != 0
    ensures AllPlaced(info, []) && !ZeroWhereBare(info, LooseOf(info, host, loadBase), f, LittleEndian(f.value, 8))
  {
    SlotBounds(info, |file|, f);
    SlotBacking(info, |file|, f);
    LooseSplits(info, host, loadBase);
    assert LittleEndian(f.value, 8)[0] == f.value % 0x100;
    assert InSlot(info, f, Slot(info, f)) && Backing(info.segments, info.base, Slot(info, f)) == None;
  }

  lemma StaleParts(info: MachInfo, host: Host, file: seq<byte>, loadBase: u64, f: Fixup) returns (m: seq<byte>, n: seq<byte>)
    requires WellFormed(info, host, file, loadBase) && Fixups(info, host, loadBase) == [] && info.text.NoText?
    requires Placed(info, f) && !Backed(info, f) && !Straddles(info, f) && f.value % 0x100 != 0
    ensures BufferImage(info, host, file, loadBase, [Staged(f)], m) && MappedImage(info, host, file, loadBase, n) && m != n
  {
    OneStale(info, |file|, f);
    m, n := BothLoad(info, host, file, loadBase, [Staged(f)]);
    StaleStage(info, host, file, loadBase, f, m, n);
    BareByte(info, file, host, loadBase, f);
  }

  /** An odd value left staged by an earlier load shows in an image that has no fixups at all. */
  lemma StaleStageParts(value: u64) returns (m: seq<byte>, n: seq<byte>)
    requires value % 0x100 != 0
    ensures BufferImage(Page(0, [], []), HOST, [], 0x1000, [Deferred(DATA, 0, value)], m)
    ensures MappedImage(Page(0, [], []), HOST, [], 0x1000, n) && m != n
  {
    var info, f := Page(0, [], []), Fixup(DATA, 0, false, value);
    PageIsWellFormed(0, [], []);
    PagePlaces(info, 0, f);
    assert Fixups(info, HOST, 0x1000) == [];
    m, n := StaleParts(info, HOST, [], 0x1000, f);
  }

  // ── slots rebased twice ──────────────────────────────────────────────────

  lemma TwiceParts(info: MachInfo, host: Host, file: seq<byte>, loadBase: u64, r: RebaseEntry) returns (m: seq<byte>, n: seq<byte>)
    requires WellFormedSegments(info, |file|) && info.text.NoText? && info.rebases == [r, r] && info.binds == [] && Slide(info, loadBase) != 0
    requires var f := RebaseFixup(info, loadBase, r); Placed(info, f) && !Backed(info, f) && !Straddles(info, f)
    ensures BufferImage(info, host, file, loadBase, [], m) && MappedImage(info, host, file, loadBase, n) && m != n
  {
    var f := RebaseFixup(info, loadBase, r);
    TwoLoose(info, host, loadBase, r);
    m, n := BothLoad(info, host, file, loadBase, []);
    RebasedTwice(info, host, file, loadBase, f, m, n);
  }

  lemma TwoLoose(info: MachInfo, host: Host, loadBase: u64, r: RebaseEntry)
    requires info.rebases == [r, r] && info.binds == []
    requires var f := RebaseFixup(info, loadBase, r); Placed(info, f) && !Backed(info, f) && !Straddles(info, f)
    ensures var fs, f := Fixups(info, host, loadBase), RebaseFixup(info, loadBase, r);
            && fs == [f, f] && Tidy(info, fs) && NoStraddle(info, fs)
            && LoneSlot(info, LooseOf(info, host, loadBase), f) && Count(info, LooseOf(info, host, loadBase).rebases, Slot(info, f)) == 2
  {
    var fs, f, rs := Fixups(info, host, loadBase), RebaseFixup(info, loadBase, r), RebaseFixups(info, loadBase);
    assert rs == [f, f] && BindFixups(info, host) == [] && fs == rs + [];
    UnbackedPair(info, f);
    UnbackedNone(info);
  }

  lemma UnbackedNone(info: MachInfo)
    ensures AllPlaced(info, []) && Unbacked(info, []) == []
  {
  }

  lemma UnbackedPair(info: MachInfo, f: Fixup)
    requires Placed(info, f) && !Backed(info, f)
    ensures AllPlaced(info, [f, f]) && Unbacked(info, [f, f]) == [f, f] && Count(info, [f, f], Slot(info, f)) == 2
  {
    UnbackedFirst(info, [f, f]);
    UnbackedFirst(info, [f]);
    assert [f, f][1..] == [f] && [f][1..] == [] && [f] + [f] == [f, f];
    CountFirst(info, [f, f], Slot(info, f));
    CountFirst(info, [f], Slot(info, f));
  }

  /** A zero-fill slot rebased twice, with any slide but zero. */
  lemma RebasedTwiceParts(loadBase: u64) returns (m: seq<byte>, n: seq<byte>)
    requires loadBase != 0x1000
    ensures var info := Page(0, [RebaseEntry(DATA, 0), RebaseEntry(DATA, 0)], []);
            BufferImage(info, HOST, [], loadBase, [], m) && MappedImage(info, HOST, [], loadBase, n) && m != n
  {
    var r := RebaseEntry(DATA, 0);
    var info := Page(0, [r, r], []);
    PageIsWellFormed(0, [r, r], []);
    PagePlaces(info, 0, RebaseFixup(info, loadBase, r));
    m, n := TwiceParts(info, HOST, [], loadBase, r);
  }

  // ── slots across the end of the file bytes ───────────────────────────────

  /** A bind of 1 over four file bytes that are zero. */
  lemma StraddlingBindParts(addend: int) returns (m: seq<byte>, n: seq<byte>)
    requires Wrap64(1 + addend) % 0x100 != 0
    ensures var info := Page(4, [], [BindEntry(DATA, 0, "x", addend)]);
            BufferImage(info, HOST, Zeros(4), 0x1000, [], m) && MappedImage(info, HOST, Zeros(4), 0x1000, n) && m != n
  {
    var b := BindEntry(DATA, 0, "x", addend);
    var info, f := Page(4, [], [b]), BindFixup(HOST, b);
    PageIsWellFormed(4, [], [b]);
    PagePlaces(info, 4, f);
    m, n := BindParts(info, HOST, Zeros(4), 0x1000, b);
  }

  lemma BindParts(info: MachInfo, host: Host, file: seq<byte>, loadBase: u64, b: BindEntry) returns (m: seq<byte>, n: seq<byte>)
    requires WellFormedSegments(info, |file|) && info.text.NoText? && info.rebases == [] && info.binds == [b]
    requires var f := BindFixup(host, b); Placed(info, f) && Straddles(info, f) && f.value % 0x100 != 0 && FilePos(info, f) == 0
    requires |file| > 0 && file[0] == 0
    ensures BufferImage(info, host, file, loadBase, [], m) && MappedImage(info, host, file, loadBase, n) && m != n
  {
    var f := BindFixup(host, b);
    OneBind(info, host, loadBase, b);
    m, n := BothLoad(info, host, file, loadBase, []);
    StraddlingBind(info, host, file, loadBase, f, m, n);
    SlotBounds(info, |file|, f);
    SlotPosition(info, file, f, Slot(info, f));
    FirstByte(FileFront(info, file, f), LittleEndian(f.value, 8), FrontLen(info, f), f.value);
  }

  lemma FirstByte(front: seq<byte>, bs: seq<byte>, k: nat, value: u64)
    requires 0 < k == |front| < 8 && bs == LittleEndian(value, 8) && value % 0x100 != front[0]
    ensures front != bs[..k]
  {
    assert bs[0] == value % 0x100 && bs[..k][0] == bs[0];
  }

  lemma OneBind(info: MachInfo, host: Host, loadBase: u64, b: BindEntry)
    requires info.rebases == [] && info.binds == [b] && Placed(info, BindFixup(host, b)) && Straddles(info, BindFixup(host, b)) && info.text.NoText?
    ensures var fs, f := Fixups(info, host, loadBase), BindFixup(host, b);
            && fs == [f] && Tidy(info, fs) && LoneEdge(info, fs, f) && RebasedOnce(info, LooseOf(info, host, loadBase).rebases)
  {
    assert RebaseFixups(info, loadBase) == [] && BindFixups(info, host) == [BindFixup(host, b)];
    UnbackedNone(info);
  }

  /** A rebase over four file bytes and four that are none, with a slide whose low byte is not zero. */
  lemma StraddlingRebaseParts(loadBase: u64) returns (m: seq<byte>, n: seq<byte>)
    requires loadBase % 0x100 != 0
    ensures var info := Page(4, [RebaseEntry(DATA, 0)], []);
            BufferImage(info, HOST, Zeros(4), loadBase, [], m) && MappedImage(info, HOST, Zeros(4), loadBase, n) && m != n
  {
    var r := RebaseEntry(DATA, 0);
    var info := Page(4, [r], []);
    PageIsWellFormed(4, [r], []);
    PagePlaces(info, 4, RebaseFixup(info, loadBase, r));
    m, n := RebaseParts(info, HOST, Zeros(4), loadBase, r);
  }

  lemma RebaseParts(info: MachInfo, host: Host, file: seq<byte>, loadBase: u64, r: RebaseEntry) returns (m: seq<byte>, n: seq<byte>)
    requires WellFormedSegments(info, |file|) && info.text.NoText? && info.rebases == [r] && info.binds == [] && Slide(info, loadBase) % 0x100 != 0
    requires var f := RebaseFixup(info, loadBase, r); Placed(info, f) && Straddles(info, f)
    ensures BufferImage(info, host, file, loadBase, [], m) && MappedImage(info, host, file, loadBase, n) && m != n
  {
    var f := RebaseFixup(info, loadBase, r);
    OneLoose(info, host, loadBase, r);
    m, n := BothLoad(info, host, file, loadBase, []);
    StraddlingRebase(info, host, file, loadBase, f, m, n);
    LowestByte(Slide(info, loadBase), FrontLen(info, f));
  }

  lemma LowestByte(v: u64, k: nat)
    requires 0 < k < 8 && v % 0x100 != 0
    ensures !LowBytesZero(v, k, 8)
  {
    assert LittleEndian(v, 8)[0] == v % 0x100;
  }

  lemma OneLoose(info: MachInfo, host: Host, loadBase: u64, r: RebaseEntry)
    requires info.rebases == [r] && info.binds == [] && info.text.NoText?
    requires var f := RebaseFixup(info, loadBase, r); Placed(info, f) && Straddles(info, f)
    ensures var fs, f := Fixups(info, host, loadBase), RebaseFixup(info, loadBase, r);
            && fs == [f] && Tidy(info, fs) && LoneEdge(info, fs, f) && RebasedOnce(info, LooseOf(info, host, loadBase).rebases)
  {
    var f := RebaseFixup(info, loadBase, r);
    assert RebaseFixups(info, loadBase) == [f] && BindFixups(info, host) == [] && Fixups(info, host, loadBase) == [f] + [];
    UnbackedNone(info);
    UnbackedOne(info, f);
  }

  lemma UnbackedOne(info: MachInfo, f: Fixup)
    requires Placed(info, f) && !Backed(info, f)
    ensures AllPlaced(info, [f]) && Unbacked(info, [f]) == [f] && Count(info, [f], Slot(info, f)) == 1
  {
    UnbackedFirst(info, [f]);
    CountFirst(info, [f], Slot(info, f));
  }

  // ── slots that overlap ───────────────────────────────────────────────────

  /** Rebases at 0 and at 4 of a zero-fill page, with a slide that reaches its fifth byte. */
  lemma OverlapParts(loadBase: u64) returns (m: seq<byte>, n: seq<byte>)
    requires Wrap64(loadBase - 0x1000) / 0x1_0000_0000 % 0x100 != 0
    ensures var info := Page(0, [RebaseEntry(DATA, 0), RebaseEntry(DATA, 4)], []);
            BufferImage(info, HOST, [], loadBase, [], m) && MappedImage(info, HOST, [], loadBase, n) && m != n
  {
    var r, s := RebaseEntry(DATA, 0), RebaseEntry(DATA, 4);
    var info := Page(0, [r, s], []);
    PageIsWellFormed(0, [r, s], []);
    PagePlaces(info, 0, RebaseFixup(info, loadBase, r));
    PagePlaces(info, 0, RebaseFixup(info, loadBase, s));
    FifthByte(Slide(info, loadBase));
    m, n := OverlappingParts(info, HOST, [], loadBase, r, s);
  }

  lemma FifthByte(v: u64)
    requires v / 0x1_0000_0000 % 0x100 != 0
    ensures LittleEndian(v, 8)[4] != 0
  {
    var a, b, c, d := v / 0x100, v / 0x1_0000, v / 0x100_0000, v / 0x1_0000_0000;
    assert a / 0x100 == b && b / 0x100 == c && c / 0x100 == d;
    assert LittleEndian(v, 8) == [v % 0x100] + LittleEndian(a, 7) && LittleEndian(a, 7) == [a % 0x100] + LittleEndian(b, 6);
    assert LittleEndian(b, 6) == [b % 0x100] + LittleEndian(c, 5) && LittleEndian(c, 5) == [c % 0x100] + LittleEndian(d, 4);
    assert LittleEndian(d, 4)[0] == d % 0x100;
  }

  lemma OverlappingParts(info: MachInfo, host: Host, file: seq<byte>, loadBase: u64, r: RebaseEntry, s: RebaseEntry) returns (m: seq<byte>, n: seq<byte>)
    requires WellFormedSegments(info, |file|) && info.text.NoText? && info.rebases == [r, s] && info.binds == []
    requires var f, g := RebaseFixup(info, loadBase, r), RebaseFixup(info, loadBase, s);
             && Placed(info, f) && !Backed(info, f) && !Straddles(info, f) && Placed(info, g) && !Backed(info, g) && !Straddles(info, g)
             && Slot(info, g) == Slot(info, f) + 4
    requires LittleEndian(Slide(info, loadBase), 8)[4] != 0
    ensures BufferImage(info, host, file, loadBase, [], m) && MappedImage(info, host, file, loadBase, n) && m != n
  {
    var f, g := RebaseFixup(info, loadBase, r), RebaseFixup(info, loadBase, s);
    TwoApart(info, host, loadBase, r, s);
    m, n := BothLoad(info, host, file, loadBase, []);
    OverlappingRebases(info, host, file, loadBase, f, g, m, n);
    SlotBounds(info, |file|, f);
    SharedNonzero(info, f, g, Slide(info, loadBase));
  }

  lemma SharedNonzero(info: MachInfo, f: Fixup, g: Fixup, slide: u64)
    requires Placed(info, f) && Placed(info, g) && 0 <= Slot(info, f) && Slot(info, g) == Slot(info, f) + 4 && LittleEndian(slide, 8)[4] != 0
    ensures !SharedZero(info, f, g, slide)
  {
    var p := Slot(info, f) + 4;
    assert InSlot(info, f, p) && InSlot(info, g, p) && p - Slot(info, f) == 4;
  }

  lemma TwoApart(info: MachInfo, host: Host, loadBase: u64, r: RebaseEntry, s: RebaseEntry)
    requires info.text.NoText? && info.rebases == [r, s] && info.binds == []
    requires var f, g := RebaseFixup(info, loadBase, r), RebaseFixup(info, loadBase, s);
             && Placed(info, f) && !Backed(info, f) && !Straddles(info, f) && Placed(info, g) && !Backed(info, g) && !Straddles(info, g)
    ensures var fs, l, f, g := Fixups(info, host, loadBase), LooseOf(info, host, loadBase), RebaseFixup(info, loadBase, r), RebaseFixup(info, loadBase, s);
            && fs == [f, g] && Clear(info, fs) && NoStraddle(info, fs) && f in l.rebases && g in l.rebases && LonePair(info, l, f, g)
  {
    var f, g := RebaseFixup(info, loadBase, r), RebaseFixup(info, loadBase, s);
    assert RebaseFixups(info, loadBase) == [f, g] && BindFixups(info, host) == [] && Fixups(info, host, loadBase) == [f, g] + [];
    UnbackedNone(info);
    PairWhole(info, f, g);
  }

  lemma PairWhole(info: MachInfo, f: Fixup, g: Fixup)
    requires Placed(info, f) && !Backed(info, f) && Placed(info, g) && !Backed(info, g)
    ensures AllPlaced(info, [f, g]) && Unbacked(info, [f, g]) == [f, g] && PairOf(info, f, g, [f, g]) == [f, g] && PairAlone(info, f, g, [f, g])
  {
    UnbackedFirst(info, [f, g]);
    UnbackedFirst(info, [g]);
    assert [f, g][1..] == [g] && [g][1..] == [] && [f] + [g] == [f, g];
    assert PairOf(info, f, g, [g]) == [g] + PairOf(info, f, g, []);
  }
}
