/**
 * What a loaded image holds, place by place: the value of every bound slot and of every rebased slot,
 * and the file's bytes or zero everywhere else, in both loaders' mappings.
 */
module LoaderContents {
  import opened Bytes
  import opened Rdtsc
  import opened Wrappers
  import opened MachLoader
  import opened LoadersAgree
  import opened LoaderPictures
  import opened LooseFixups
  import MachImage

  // ── places ───────────────────────────────────────────────────────────────

  /** Where offset `off` of segment `s` is in the mapping. */
  function PlaceIn(info: MachInfo, s: Segment, off: nat): int { s.vmaddr - info.base + off }

  /** The eight bytes at offset `off` of the segment named `name` keep clear of the eight bytes at `o`. */
  ghost predicate ClearOf(info: MachInfo, name: Name, off: nat, o: int) {
    forall s :: s in info.segments && s.name == name ==> PlaceIn(info, s, off) + 8 <= o || o + 8 <= PlaceIn(info, s, off)
  }

  /** They keep clear of them, or are those bytes. */
  ghost predicate ClearOrAt(info: MachInfo, name: Name, off: nat, o: int) {
    forall s :: s in info.segments && s.name == name ==> PlaceIn(info, s, off) == o || PlaceIn(info, s, off) + 8 <= o || o + 8 <= PlaceIn(info, s, off)
  }

  /** No idiom of `__text` that the rewriting replaces covers the `len` bytes at `o`. */
  ghost predicate OffIdioms(info: MachInfo, fixed: seq<byte>, o: int, len: nat) {
    info.text.Text? ==>
      forall p: nat :: o <= p < o + len ==> !Covered(fixed, info.text.off, info.text.End(), p)
  }

  lemma {:induction false} FoundByName(segments: seq<Segment>, s: Segment)
    requires s in segments && DistinctNames(segments)
    ensures Find(segments, s.name) == Some(s)
  {
    if segments[0].name != s.name { FoundByName(segments[1..], s); }
  }

  lemma FixupPlace(info: MachInfo, fileLen: nat, f: Fixup, s: Segment)
    requires WellFormedSegments(info, fileLen) && Placed(info, f) && s in info.segments && s.name == f.segment
    ensures Find(info.segments, f.segment) == Some(s) && s.Loadable() && f.segOff + 8 <= s.vmsize
    ensures Slot(info, f) == PlaceIn(info, s, f.segOff)
  {
    NamesDistinct(info, fileLen);
    FoundByName(info.segments, s);
  }

  lemma FixupClear(info: MachInfo, fileLen: nat, f: Fixup, o: int)
    requires WellFormedSegments(info, fileLen) && Placed(info, f)
    ensures ClearOf(info, f.segment, f.segOff, o) ==> Slot(info, f) + 8 <= o || o + 8 <= Slot(info, f)
    ensures ClearOrAt(info, f.segment, f.segOff, o) ==> Slot(info, f) == o || Slot(info, f) + 8 <= o || o + 8 <= Slot(info, f)
  {
    FixupPlace(info, fileLen, f, Find(info.segments, f.segment).value);
  }

  // ── the fixed mapping as a list of patches ───────────────────────────────

  lemma {:induction false} MappingIsPatchList(info: MachInfo, fileLen: nat, m: seq<byte>, fs: seq<Fixup>)
    requires WellFormedSegments(info, fileLen) && AllPlaced(info, fs) && |m| == Span(info)
    ensures Fits(info, |m|, fs) && PatchMappingAll(info, m, fs) == Success(PatchList(info, m, fs))
    decreases |fs|
  {
    AllFit(info, fileLen, fs);
    if fs != [] {
      assert fs[0] in fs && forall f :: f in fs[1..] ==> f in fs;
      MappingFirst(info, fileLen, m, fs);
      MappingIsPatchList(info, fileLen, PatchAt(fs[0], m, Slot(info, fs[0])), fs[1..]);
    }
  }

  /** The mapping before any fixup. */
  ghost function Fresh(info: MachInfo, file: seq<byte>): Result<seq<byte>, Error> {
    MapInAll(Zeros(Span(info)), file, info.base, info.segments)
  }

  lemma FixedIsPatchList(info: MachInfo, host: Host, file: seq<byte>, loadBase: u64)
    requires WellFormedSegments(info, |file|) && AllPlaced(info, Fixups(info, host, loadBase))
    ensures Fresh(info, file).Success? && |Fresh(info, file).value| == Span(info)
    ensures Shows(info.segments, info.base, file, Zeros(Span(info)), Fresh(info, file).value)
    ensures Fits(info, Span(info), Fixups(info, host, loadBase)) && Fits(info, Span(info), RebaseFixups(info, loadBase)) && Fits(info, Span(info), BindFixups(info, host))
    ensures FixedMapping(info, host, file, loadBase) == Success(PatchList(info, PatchList(info, Fresh(info, file).value, RebaseFixups(info, loadBase)), BindFixups(info, host)))
  {
    AllCopyable(info, |file|);
    CopyAll(info, Zeros(Span(info)), file, info.segments);
    var m0, fs := Fresh(info, file).value, Fixups(info, host, loadBase);
    MappingIsPatchList(info, |file|, m0, fs);
    forall f | f in RebaseFixups(info, loadBase) ensures f in fs { }
    forall f | f in BindFixups(info, host) ensures f in fs { }
    PatchAppend(info, m0, RebaseFixups(info, loadBase), BindFixups(info, host));
  }

  // ── bound slots ──────────────────────────────────────────────────────────

  /** The last of `fs` at a slot decides it. */
  lemma LastWins(info: MachInfo, m: seq<byte>, fs: seq<Fixup>, i: nat, p: nat)
    requires Fits(info, |m|, fs) && AllBinds(fs) && i < |fs| && p < |m| && InSlot(info, fs[i], p)
    requires forall j :: i < j < |fs| ==> !InSlot(info, fs[j], p)
    ensures PatchList(info, m, fs)[p] == LittleEndian(fs[i].value, 8)[p - Slot(info, fs[i])]
  {
    BindByte(info, m, fs, p);
    LastAt(info, fs, i, p);
  }

  lemma {:induction false} LastAt(info: MachInfo, fs: seq<Fixup>, i: nat, p: nat)
    requires AllPlaced(info, fs) && i < |fs| && InSlot(info, fs[i], p) && forall j :: i < j < |fs| ==> !InSlot(info, fs[j], p)
    ensures LastByte(info, fs, p) == Some(LittleEndian(fs[i].value, 8)[p - Slot(info, fs[i])])
    decreases i
  {
    var rest := fs[1..];
    assert fs[0] in fs && forall f :: f in rest ==> f in fs;
    if i > 0 {
      assert rest[i - 1] == fs[i];
      forall j | i - 1 < j < |rest| ensures !InSlot(info, rest[j], p) { assert rest[j] == fs[j + 1]; }
      LastAt(info, rest, i - 1, p);
    } else {
      NoLastByte(info, rest, p);
      forall f | f in rest ensures !InSlot(info, f, p) {
        var j :| 0 <= j < |rest| && rest[j] == f;
        assert fs[j + 1] == f;
      }
    }
  }

  /** What rewriting `__text` keeps. */
  lemma KeptByRewriting(info: MachInfo, fixed: seq<byte>, n: seq<byte>, o: nat, len: nat)
    requires TextNeutralized(fixed, info.text, n) && OffIdioms(info, fixed, o, len) && o + len <= |fixed|
    ensures |n| == |fixed| && n[o..o + len] == fixed[o..o + len]
  {
    forall p: nat | o <= p < o + len ensures p < |n| && n[p] == fixed[p] {
      if info.text.Text? && info.text.End() <= |fixed| {
        assert !Covered(fixed, info.text.off, info.text.End(), p);
      }
    }
  }

  /** The value a bind leaves, by its symbol. */
  ghost predicate BoundTo(host: Host, b: BindEntry, v: u64) {
    && (forall p :: host.resolve(b.name) == Some(p) ==> v == (p + b.addend) % 0x1_0000_0000_0000_0000)
    && (host.resolve(b.name) == None && (b.name == "___stack_chk_guard" || exists prefix :: prefix in DATA_PREFIXES && prefix <= b.name) ==> v == host.zeroPage)
    && (host.resolve(b.name) == None && b.name != "___stack_chk_guard" && (forall prefix :: prefix in DATA_PREFIXES ==> !(prefix <= b.name)) ==> v == host.stub(b.name))
  }

  const DATA_PREFIXES: set<string> := {
    "_kCF", "_kDA", "_kIO", "_kNS", "_NS", "_NSConstant", "_OBJC_CLASS_$_", "_OBJC_IVAR_$_", "_OBJC_METACLASS_$_", "_OBJC_SELECTOR_REFERENCES"
  }

  lemma BindValueIs(host: Host, b: BindEntry)
    ensures BoundTo(host, b, BindFixup(host, b).value)
  {
    var d := IsDataSymbol(b.name);
    if exists prefix :: prefix in DATA_PREFIXES && prefix <= b.name { assert d; }
  }

  /** The eight bytes of a bound slot in the fixed mapping. */
  lemma BoundInFixed(info: MachInfo, host: Host, file: seq<byte>, loadBase: u64, i: nat, s: Segment)
    requires WellFormedSegments(info, |file|) && AllPlaced(info, Fixups(info, host, loadBase))
    requires i < |info.binds| && s in info.segments && s.name == info.binds[i].segment
    requires forall j :: i < j < |info.binds| ==> ClearOf(info, info.binds[j].segment, info.binds[j].segOff, PlaceIn(info, s, info.binds[i].segOff))
    ensures var fixed, o := FixedMapping(info, host, file, loadBase), PlaceIn(info, s, info.binds[i].segOff);
            && fixed.Success? && 0 <= o <= |fixed.value| - 8 && fixed.value[o..o + 8] == LittleEndian(BindFixups(info, host)[i].value, 8)
  {
    FixedIsPatchList(info, host, file, loadBase);
    var o := PlaceIn(info, s, info.binds[i].segOff);
    BindPlaces(info, |file|, host, i, s, o);
    BoundFrom(info, host, PatchList(info, Fresh(info, file).value, RebaseFixups(info, loadBase)), i, o, FixedMapping(info, host, file, loadBase).value);
  }

  lemma BoundFrom(info: MachInfo, host: Host, m: seq<byte>, i: nat, o: int, fixed: seq<byte>)
    requires Fits(info, |m|, BindFixups(info, host)) && fixed == PatchList(info, m, BindFixups(info, host))
    requires i < |info.binds| && AllBinds(BindFixups(info, host)) && Slot(info, BindFixups(info, host)[i]) == o
    requires forall j :: i < j < |info.binds| ==> Slot(info, BindFixups(info, host)[j]) + 8 <= o || o + 8 <= Slot(info, BindFixups(info, host)[j])
    ensures 0 <= o <= |fixed| - 8 && fixed[o..o + 8] == LittleEndian(BindFixups(info, host)[i].value, 8)
  {
    var bs := BindFixups(info, host);
    assert bs[i] in bs;
    BoundInList(info, m, bs, i, o);
  }

  lemma BindPlaces(info: MachInfo, fileLen: nat, host: Host, i: nat, s: Segment, o: int)
    requires WellFormedSegments(info, fileLen) && AllPlaced(info, BindFixups(info, host)) && i < |info.binds|
    requires s in info.segments && s.name == info.binds[i].segment && o == PlaceIn(info, s, info.binds[i].segOff)
    requires forall j :: i < j < |info.binds| ==> ClearOf(info, info.binds[j].segment, info.binds[j].segOff, o)
    ensures var bs := BindFixups(info, host);
            && |bs| == |info.binds| && AllBinds(bs) && Slot(info, bs[i]) == o
            && forall j :: i < j < |bs| ==> Slot(info, bs[j]) + 8 <= o || o + 8 <= Slot(info, bs[j])
  {
    var bs := BindFixups(info, host);
    assert bs[i] in bs;
    FixupPlace(info, fileLen, bs[i], s);
    forall j | i < j < |bs| ensures Slot(info, bs[j]) + 8 <= o || o + 8 <= Slot(info, bs[j]) {
      assert bs[j] in bs;
      FixupClear(info, fileLen, bs[j], o);
    }
  }

  lemma BoundInList(info: MachInfo, m: seq<byte>, bs: seq<Fixup>, i: nat, o: nat)
    requires Fits(info, |m|, bs) && AllBinds(bs) && i < |bs| && Slot(info, bs[i]) == o && o + 8 <= |m|
    requires forall j :: i < j < |bs| ==> Slot(info, bs[j]) + 8 <= o || o + 8 <= Slot(info, bs[j])
    ensures PatchList(info, m, bs)[o..o + 8] == LittleEndian(bs[i].value, 8)
  {
    forall p: nat | o <= p < o + 8 ensures PatchList(info, m, bs)[p] == LittleEndian(bs[i].value, 8)[p - o] {
      LastWins(info, m, bs, i, p);
    }
    SliceIs(PatchList(info, m, bs), o, LittleEndian(bs[i].value, 8));
  }

  lemma SliceIs(m: seq<byte>, o: nat, bytes: seq<byte>)
    requires o + 8 <= |m| && |bytes| == 8 && forall p: nat :: o <= p < o + 8 ==> m[p] == bytes[p - o]
    ensures m[o..o + 8] == bytes
  {
  }

  /**
   * On every well-formed image the eight bytes of a bind's slot that no later bind and no rewritten idiom covers are
   * the resolver's address plus the addend, or the zero page, or the symbol's trap stub, in both mappings.
   */
  lemma BoundSlot(info: MachInfo, host: Host, file: seq<byte>, loadBase: u64, i: nat, s: Segment, m: seq<byte>, n: seq<byte>)
    requires WellFormed(info, host, file, loadBase) && BufferImage(info, host, file, loadBase, [], m) && MappedImage(info, host, file, loadBase, n)
    requires i < |info.binds| && s in info.segments && s.name == info.binds[i].segment
    requires forall j :: i < j < |info.binds| ==> ClearOf(info, info.binds[j].segment, info.binds[j].segOff, PlaceIn(info, s, info.binds[i].segOff))
    requires OffIdioms(info, FixedMapping(info, host, file, loadBase).value, PlaceIn(info, s, info.binds[i].segOff), 8)
    ensures var o := PlaceIn(info, s, info.binds[i].segOff);
            && 0 <= o && o + 8 <= |m| == |n| && m[o..o + 8] == n[o..o + 8]
            && exists v: u64 :: BoundTo(host, info.binds[i], v) && n[o..o + 8] == LittleEndian(v, 8)
  {
    var o := PlaceIn(info, s, info.binds[i].segOff);
    BoundInFixed(info, host, file, loadBase, i, s);
    LoadersAgree.LoadersAgree(info, host, file, loadBase, m, n);
    KeptByRewriting(info, FixedMapping(info, host, file, loadBase).value, n, o, 8);
    BindValueIs(host, info.binds[i]);
  }

  /** The cases leave no choice. */
  lemma BoundToOne(host: Host, b: BindEntry, v: u64, w: u64)
    requires BoundTo(host, b, v) && BoundTo(host, b, w)
    ensures v == w
  {
    if host.resolve(b.name).Some? { var p := host.resolve(b.name).value; }
  }

  // ── rebased slots ────────────────────────────────────────────────────────

  /** How many rebases are at `o`. */
  ghost function RebasesAt(info: MachInfo, rs: seq<RebaseEntry>, o: int): nat {
    if rs == [] then 0
    else (if exists s :: s in info.segments && s.name == rs[0].segment && PlaceIn(info, s, rs[0].segOff) == o then 1 else 0) + RebasesAt(info, rs[1..], o)
  }

  lemma AddedIsSum(w: nat, k: nat, info: MachInfo, loadBase: u64)
    ensures Added(w, k, Slide(info, loadBase)) == Sum64(w, k, loadBase - info.base)
  {
    AddedIsProduct(w, k, Slide(info, loadBase));
  }

  /** The number the file has at a slot, or zero past its segment's file bytes. */
  ghost function FileWord(file: seq<byte>, s: Segment, off: nat): nat {
    if off + 8 <= s.filesize && s.fileoff + off + 8 <= |file| then FromLittleEndian(file[s.fileoff + off..s.fileoff + off + 8]) else 0
  }

  /** `w` and `k` times `delta`, modulo 2^64. */
  function Sum64(w: nat, k: nat, delta: int): u64 { (w + k * (delta % 0x1_0000_0000_0000_0000)) % 0x1_0000_0000_0000_0000 }

  lemma {:induction false} CountIsRebasesAt(info: MachInfo, fileLen: nat, loadBase: u64, rs: seq<RebaseEntry>, fs: seq<Fixup>, o: int)
    requires WellFormedSegments(info, fileLen) && AllPlaced(info, fs) && |fs| == |rs|
    requires forall i :: 0 <= i < |rs| ==> fs[i] == RebaseFixup(info, loadBase, rs[i])
    ensures Count(info, fs, o) == RebasesAt(info, rs, o)
    decreases |fs|
  {
    if fs != [] {
      CountFirst(info, fs, o);
      assert fs[0] in fs;
      var s := Find(info.segments, rs[0].segment).value;
      FixupPlace(info, fileLen, fs[0], s);
      OnlySegment(info, fileLen, s);
      CountIsRebasesAt(info, fileLen, loadBase, rs[1..], fs[1..], o);
    }
  }

  lemma OnlySegment(info: MachInfo, fileLen: nat, s: Segment)
    requires WellFormedSegments(info, fileLen) && s in info.segments
    ensures forall t :: t in info.segments && t.name == s.name ==> t == s
  {
  }

  /** A slot's word before any fixup. */
  lemma FreshWord(info: MachInfo, file: seq<byte>, f: Fixup, s: Segment)
    requires WellFormedSegments(info, |file|) && Placed(info, f) && !Straddles(info, f) && s in info.segments && s.name == f.segment
    requires Fresh(info, file).Success? && |Fresh(info, file).value| == Span(info)
    requires Shows(info.segments, info.base, file, Zeros(Span(info)), Fresh(info, file).value)
    ensures 0 <= Slot(info, f) <= Span(info) - 8 && Word(Fresh(info, file).value, Slot(info, f)) == FileWord(file, s, f.segOff)
  {
    FixupPlace(info, |file|, f, s);
    FileOffset(info, |file|, f);
    SlotBounds(info, |file|, f);
    FileWordIs(info, file, f, s);
    PlainWord(info, file, Fresh(info, file).value, f, Slot(info, f));
  }

  lemma PlainWord(info: MachInfo, file: seq<byte>, m0: seq<byte>, f: Fixup, o: int)
    requires WellFormedSegments(info, |file|) && Placed(info, f) && !Straddles(info, f) && o == Slot(info, f) && 0 <= o <= |m0| - 8
    requires |m0| == Span(info) && Shows(info.segments, info.base, file, Zeros(Span(info)), m0)
    requires Backed(info, f) ==> FilePos(info, f) + 8 <= |file|
    ensures Word(m0, o) == if Backed(info, f) then Word(file, FilePos(info, f)) else 0
  {
    SlotBacking(info, |file|, f);
    if Backed(info, f) {
      SameWord(info, file, Zeros(Span(info)), m0, FilePos(info, f), o);
    } else {
      BareWord(info, file, m0, o);
    }
  }

  lemma FileWordIs(info: MachInfo, file: seq<byte>, f: Fixup, s: Segment)
    requires Placed(info, f) && Find(info.segments, f.segment) == Some(s) && (Backed(info, f) ==> FilePos(info, f) + 8 <= |file|)
    ensures FileWord(file, s, f.segOff) == if Backed(info, f) then Word(file, FilePos(info, f)) else 0
  {
  }

  lemma BareWord(info: MachInfo, file: seq<byte>, m0: seq<byte>, o: nat)
    requires o + 8 <= |m0| && |m0| == Span(info) && Shows(info.segments, info.base, file, Zeros(Span(info)), m0)
    requires forall p: nat :: o <= p < o + 8 ==> Backing(info.segments, info.base, p) == None
    ensures Word(m0, o) == 0
  {
    ZeroWord(m0[o..o + 8]);
  }

  /** A rebased slot that no bind touches, in the fixed mapping. */
  lemma RebasedInFixed(info: MachInfo, host: Host, file: seq<byte>, loadBase: u64, i: nat, s: Segment)
    requires WellFormedSegments(info, |file|) && AllPlaced(info, Fixups(info, host, loadBase)) && (forall f :: f in Fixups(info, host, loadBase) ==> !Straddles(info, f))
    requires i < |info.rebases| && s in info.segments && s.name == info.rebases[i].segment
    requires forall r :: r in info.rebases ==> ClearOrAt(info, r.segment, r.segOff, PlaceIn(info, s, info.rebases[i].segOff))
    requires forall b :: b in info.binds ==> ClearOf(info, b.segment, b.segOff, PlaceIn(info, s, info.rebases[i].segOff))
    ensures var fixed, o := FixedMapping(info, host, file, loadBase), PlaceIn(info, s, info.rebases[i].segOff);
            && fixed.Success? && 0 <= o <= |fixed.value| - 8
            && Word(fixed.value, o) == Sum64(FileWord(file, s, info.rebases[i].segOff), RebasesAt(info, info.rebases, o), loadBase - info.base)
  {
    RebasedAdded(info, host, file, loadBase, i, s);
    AddedIsSum(FileWord(file, s, info.rebases[i].segOff), RebasesAt(info, info.rebases, PlaceIn(info, s, info.rebases[i].segOff)), info, loadBase);
  }

  lemma RebasedAdded(info: MachInfo, host: Host, file: seq<byte>, loadBase: u64, i: nat, s: Segment)
    requires WellFormedSegments(info, |file|) && AllPlaced(info, Fixups(info, host, loadBase)) && (forall f :: f in Fixups(info, host, loadBase) ==> !Straddles(info, f))
    requires i < |info.rebases| && s in info.segments && s.name == info.rebases[i].segment
    requires forall r :: r in info.rebases ==> ClearOrAt(info, r.segment, r.segOff, PlaceIn(info, s, info.rebases[i].segOff))
    requires forall b :: b in info.binds ==> ClearOf(info, b.segment, b.segOff, PlaceIn(info, s, info.rebases[i].segOff))
    ensures var fixed, o := FixedMapping(info, host, file, loadBase), PlaceIn(info, s, info.rebases[i].segOff);
            && fixed.Success? && 0 <= o <= |fixed.value| - 8
            && Word(fixed.value, o) == Added(FileWord(file, s, info.rebases[i].segOff), RebasesAt(info, info.rebases, o), Slide(info, loadBase))
  {
    var o := PlaceIn(info, s, info.rebases[i].segOff);
    FixedIsPatchList(info, host, file, loadBase);
    RebasedWord(info, host, file, loadBase, i, s, o);
    ApartFromBinds(info, |file|, host, o);
    WordApart(info, PatchList(info, Fresh(info, file).value, RebaseFixups(info, loadBase)), BindFixups(info, host), o);
  }

  lemma RebasedWord(info: MachInfo, host: Host, file: seq<byte>, loadBase: u64, i: nat, s: Segment, o: int)
    requires WellFormedSegments(info, |file|) && AllPlaced(info, Fixups(info, host, loadBase)) && (forall f :: f in Fixups(info, host, loadBase) ==> !Straddles(info, f))
    requires i < |info.rebases| && s in info.segments && s.name == info.rebases[i].segment && o == PlaceIn(info, s, info.rebases[i].segOff)
    requires forall r :: r in info.rebases ==> ClearOrAt(info, r.segment, r.segOff, o)
    requires Fresh(info, file).Success? && |Fresh(info, file).value| == Span(info) && Fits(info, Span(info), RebaseFixups(info, loadBase))
    requires Shows(info.segments, info.base, file, Zeros(Span(info)), Fresh(info, file).value)
    ensures 0 <= o <= Span(info) - 8
    ensures Word(PatchList(info, Fresh(info, file).value, RebaseFixups(info, loadBase)), o)
         == Added(FileWord(file, s, info.rebases[i].segOff), RebasesAt(info, info.rebases, o), Slide(info, loadBase))
  {
    var rs, slide := RebaseFixups(info, loadBase), Slide(info, loadBase);
    assert rs[i] in rs && rs[i] in Fixups(info, host, loadBase);
    FixupPlace(info, |file|, rs[i], s);
    FreshWord(info, file, rs[i], s);
    RebasesAligned(info, |file|, loadBase, o);
    RebaseWord(info, Fresh(info, file).value, rs, slide, o);
    CountIsRebasesAt(info, |file|, loadBase, info.rebases, rs, o);
  }

  lemma RebasesAligned(info: MachInfo, fileLen: nat, loadBase: u64, o: int)
    requires WellFormedSegments(info, fileLen) && AllPlaced(info, RebaseFixups(info, loadBase))
    requires forall r :: r in info.rebases ==> ClearOrAt(info, r.segment, r.segOff, o)
    ensures Aligned(info, RebaseFixups(info, loadBase), o) && AllAdd(RebaseFixups(info, loadBase), Slide(info, loadBase))
  {
    var rs := RebaseFixups(info, loadBase);
    forall f | f in rs ensures Slot(info, f) == o || Slot(info, f) + 8 <= o || o + 8 <= Slot(info, f) {
      var j :| 0 <= j < |rs| && rs[j] == f;
      assert info.rebases[j] in info.rebases;
      FixupClear(info, fileLen, f, o);
    }
  }

  lemma ApartFromBinds(info: MachInfo, fileLen: nat, host: Host, o: int)
    requires WellFormedSegments(info, fileLen) && AllPlaced(info, BindFixups(info, host))
    requires forall b :: b in info.binds ==> ClearOf(info, b.segment, b.segOff, o)
    ensures forall f :: f in BindFixups(info, host) ==> Slot(info, f) + 8 <= o || o + 8 <= Slot(info, f)
  {
    var bs := BindFixups(info, host);
    forall f | f in bs ensures Slot(info, f) + 8 <= o || o + 8 <= Slot(info, f) {
      var j :| 0 <= j < |bs| && bs[j] == f;
      assert info.binds[j] in info.binds;
      FixupClear(info, fileLen, f, o);
    }
  }

  /** Fixups apart from a slot leave its word. */
  lemma {:induction false} WordApart(info: MachInfo, m: seq<byte>, fs: seq<Fixup>, o: nat)
    requires Fits(info, |m|, fs) && o + 8 <= |m| && forall f :: f in fs ==> Slot(info, f) + 8 <= o || o + 8 <= Slot(info, f)
    ensures Word(PatchList(info, m, fs), o) == Word(m, o)
    decreases |fs|
  {
    if fs != [] {
      var f := fs[0];
      assert f in fs && forall g :: g in fs[1..] ==> g in fs;
      WordElsewhere(m, Slot(info, f), LittleEndian(Patched(f, Word(m, Slot(info, f))), 8), o);
      WordApart(info, PatchAt(f, m, Slot(info, f)), fs[1..], o);
    }
  }

  /**
   * On every well-formed image a rebased slot that other rebases meet only as a whole, and that no bind and no rewritten
   * idiom touches, is its file word, or zero, plus the slide once for each rebase, in both mappings.
   */
  lemma RebasedSlot(info: MachInfo, host: Host, file: seq<byte>, loadBase: u64, i: nat, s: Segment, m: seq<byte>, n: seq<byte>)
    requires WellFormed(info, host, file, loadBase) && BufferImage(info, host, file, loadBase, [], m) && MappedImage(info, host, file, loadBase, n)
    requires i < |info.rebases| && s in info.segments && s.name == info.rebases[i].segment
    requires forall r :: r in info.rebases ==> ClearOrAt(info, r.segment, r.segOff, PlaceIn(info, s, info.rebases[i].segOff))
    requires forall b :: b in info.binds ==> ClearOf(info, b.segment, b.segOff, PlaceIn(info, s, info.rebases[i].segOff))
    requires OffIdioms(info, FixedMapping(info, host, file, loadBase).value, PlaceIn(info, s, info.rebases[i].segOff), 8)
    ensures var o := PlaceIn(info, s, info.rebases[i].segOff);
            && 0 <= o && o + 8 <= |m| == |n| && m[o..o + 8] == n[o..o + 8]
            && Word(n, o) == Sum64(FileWord(file, s, info.rebases[i].segOff), RebasesAt(info, info.rebases, o), loadBase - info.base)
  {
    RebasedInFixed(info, host, file, loadBase, i, s);
    LoadersAgree.LoadersAgree(info, host, file, loadBase, m, n);
    KeptByRewriting(info, FixedMapping(info, host, file, loadBase).value, n, PlaceIn(info, s, info.rebases[i].segOff), 8);
  }

  // ── everything else ──────────────────────────────────────────────────────

  /** Position `p` is in no slot of any fixup. */
  ghost predicate OffSlots(info: MachInfo, p: int) {
    && (forall r, s :: r in info.rebases && s in info.segments && s.name == r.segment ==> !(PlaceIn(info, s, r.segOff) <= p < PlaceIn(info, s, r.segOff) + 8))
    && (forall b, s :: b in info.binds && s in info.segments && s.name == b.segment ==> !(PlaceIn(info, s, b.segOff) <= p < PlaceIn(info, s, b.segOff) + 8))
  }

  lemma PlainInFixed(info: MachInfo, host: Host, file: seq<byte>, loadBase: u64, s: Segment, off: nat)
    requires WellFormedSegments(info, |file|) && AllPlaced(info, Fixups(info, host, loadBase))
    requires s in info.segments && s.Loadable() && off < s.vmsize && OffSlots(info, PlaceIn(info, s, off))
    ensures var fixed, p := FixedMapping(info, host, file, loadBase), PlaceIn(info, s, off);
            && fixed.Success? && 0 <= p < |fixed.value| && (off < s.filesize ==> s.fileoff + off < |file|)
            && fixed.value[p] == if off < s.filesize then file[s.fileoff + off] else 0
  {
    var p := PlaceIn(info, s, off);
    assert WellFormedSegment(info, s, |file|);
    InSpan(info, |file|, s);
    BackingInside(info, |file|, s, p);
    FixedIsPatchList(info, host, file, loadBase);
    var m0, rs, bs := Fresh(info, file).value, RebaseFixups(info, loadBase), BindFixups(info, host);
    RebasesOff(info, |file|, loadBase, p);
    BindsOff(info, |file|, host, p);
    LooseFixups.Untouched(info, m0, m0, rs, p);
    LooseFixups.Untouched(info, PatchList(info, m0, rs), PatchList(info, m0, rs), bs, p);
  }

  lemma RebasesOff(info: MachInfo, fileLen: nat, loadBase: u64, p: nat)
    requires WellFormedSegments(info, fileLen) && AllPlaced(info, RebaseFixups(info, loadBase)) && OffSlots(info, p)
    ensures !Touched(info, RebaseFixups(info, loadBase), p)
  {
    var rs := RebaseFixups(info, loadBase);
    forall f | f in rs ensures !InSlot(info, f, p) {
      var j :| 0 <= j < |rs| && rs[j] == f;
      assert info.rebases[j] in info.rebases;
      FixupPlace(info, fileLen, f, Find(info.segments, f.segment).value);
    }
  }

  lemma BindsOff(info: MachInfo, fileLen: nat, host: Host, p: nat)
    requires WellFormedSegments(info, fileLen) && AllPlaced(info, BindFixups(info, host)) && OffSlots(info, p)
    ensures !Touched(info, BindFixups(info, host), p)
  {
    var bs := BindFixups(info, host);
    forall f | f in bs ensures !InSlot(info, f, p) {
      var j :| 0 <= j < |bs| && bs[j] == f;
      assert info.binds[j] in info.binds;
      FixupPlace(info, fileLen, f, Find(info.segments, f.segment).value);
    }
  }

  /** Every other byte of a segment is the file's, or zero past the file bytes, in both mappings. */
  lemma PlainByte(info: MachInfo, host: Host, file: seq<byte>, loadBase: u64, s: Segment, off: nat, m: seq<byte>, n: seq<byte>)
    requires WellFormed(info, host, file, loadBase) && BufferImage(info, host, file, loadBase, [], m) && MappedImage(info, host, file, loadBase, n)
    requires s in info.segments && s.Loadable() && off < s.vmsize && OffSlots(info, PlaceIn(info, s, off))
    requires OffIdioms(info, FixedMapping(info, host, file, loadBase).value, PlaceIn(info, s, off), 1)
    ensures var p := PlaceIn(info, s, off);
            && 0 <= p < |m| == |n| && m[p] == n[p] && (off < s.filesize ==> s.fileoff + off < |file|)
            && n[p] == if off < s.filesize then file[s.fileoff + off] else 0
  {
    PlainInFixed(info, host, file, loadBase, s, off);
    LoadersAgree.LoadersAgree(info, host, file, loadBase, m, n);
    var p, fixed := PlaceIn(info, s, off), FixedMapping(info, host, file, loadBase).value;
    KeptByRewriting(info, fixed, n, p, 1);
    assert n[p] == n[p..p + 1][0] && fixed[p] == fixed[p..p + 1][0];
  }

  // ── loads that fail ──────────────────────────────────────────────────────

  /** Nothing to map fails before anything is staged; a mapping that fails leaves a well-formed image's fixups staged. */
  lemma LoadFails(info: MachInfo, host: Host, file: seq<byte>, loadBase: u64, mapped: bool, pending: seq<Deferred>)
    ensures Span(info) == 0 ==>
              MachImage.LoadError(info, host, file, loadBase, pending, mapped) == Some(MapFailed)
              && MachImage.Leftover(info, host, file, loadBase, pending, mapped) == pending
    ensures WellFormed(info, host, file, loadBase) && pending == [] && Span(info) > 0 ==>
              MachImage.LoadError(info, host, file, loadBase, pending, false) == Some(MapFailed)
  {
    if WellFormed(info, host, file, loadBase) { FixupsAgree(info, host, file, loadBase); }
  }
}
