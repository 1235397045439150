/** Both loaders produce the same mapped bytes from a well-formed thin image. */
module LoadersAgree {
  import opened Bytes
  import opened Rdtsc
  import opened Wrappers
  import opened MachLoader

  // ── the layout the images have ───────────────────────────────────────────

  ghost predicate Apart(a: nat, n: nat, b: nat, m: nat) { a + n <= b || b + m <= a }

  /** Ends up to here are rounded up to a page without wrapping. */
  const LAST_PAGE: u64 := 0xFFFF_FFFF_FFFF_F000

  ghost predicate WellFormedSegment(info: MachInfo, s: Segment, fileLen: nat) {
    && (!s.PageZero() ==> s.filesize <= s.vmsize)
    && (s.Loadable() ==> info.base <= s.vmaddr && s.vmaddr - info.base + s.vmsize <= LAST_PAGE && s.fileoff + s.filesize <= fileLen)
    && (s.Loadable() && NameStr(s.name) == TEXT ==> s.filesize % 0x1000 == 0)
  }

  ghost predicate SegmentsApart(s: Segment, t: Segment) {
    && s.name != t.name
    && (s.Loadable() && t.Loadable() ==>
          Apart(s.vmaddr, s.vmsize, t.vmaddr, t.vmsize) && Apart(s.fileoff, s.filesize, t.fileoff, t.filesize))
  }

  ghost predicate WellFormedSegments(info: MachInfo, fileLen: nat) {
    && (forall s :: s in info.segments ==> WellFormedSegment(info, s, fileLen))
    && (forall i, j :: 0 <= i < j < |info.segments| ==> SegmentsApart(info.segments[i], info.segments[j]))
    && fileLen < TWO_64
  }

  /** The slot lies in one loadable segment. */
  ghost predicate Placed(info: MachInfo, f: Fixup) {
    var s := Find(info.segments, f.segment);
    s.Some? && s.value.Loadable() && f.segOff + 8 <= s.value.vmsize
  }

  /** It begins in the segment's file bytes and ends past them. */
  ghost predicate Straddles(info: MachInfo, f: Fixup)
    requires Placed(info, f)
  {
    f.segOff < Find(info.segments, f.segment).value.filesize < f.segOff + 8
  }

  /** It lies wholly on one side of the end of the file bytes. */
  ghost predicate WellFormedFixup(info: MachInfo, f: Fixup) { Placed(info, f) && !Straddles(info, f) }

  /** Position of the slot in the mapping. */
  ghost function Slot(info: MachInfo, f: Fixup): int
    requires Placed(info, f)
  {
    Find(info.segments, f.segment).value.vmaddr - info.base + f.segOff
  }

  /** A rebase of a slot that has no file bytes. */
  ghost predicate ZeroFillRebase(info: MachInfo, f: Fixup)
    requires Placed(info, f)
  {
    f.rebase && !Backed(info, f)
  }

  /** Position of the slot in the file. */
  ghost function FilePos(info: MachInfo, f: Fixup): nat
    requires Placed(info, f)
  {
    Find(info.segments, f.segment).value.fileoff + f.segOff
  }

  /** The slot has file bytes. */
  ghost predicate Backed(info: MachInfo, f: Fixup)
    requires Placed(info, f)
  {
    f.segOff + 8 <= Find(info.segments, f.segment).value.filesize
  }

  /**
   * Fixups may overlap freely except that a zero-fill slot must be rebased before anything else
   * touches it: staging records the slide, not a sum.
   */
  ghost predicate WellFormedFixups(info: MachInfo, fs: seq<Fixup>) {
    && (forall f :: f in fs ==> Placed(info, f) && !Straddles(info, f))
    && (forall i, j :: 0 <= i < j < |fs| && ZeroFillRebase(info, fs[j]) ==>
          Slot(info, fs[i]) + 8 <= Slot(info, fs[j]) || Slot(info, fs[j]) + 8 <= Slot(info, fs[i]))
  }

  /** `__text` lies in the file bytes of a `__TEXT` at file offset 0 and at the image base. */
  ghost predicate WellFormedText(info: MachInfo) {
    info.text.Text? ==>
      exists s :: s in info.segments && s.Loadable() && s.fileoff == 0 && s.vmaddr == info.base && info.text.off + info.text.size <= s.filesize
  }

  // ── which file byte backs a position of the mapping ──────────────────────

  ghost predicate Covers(base: u64, s: Segment, p: nat) {
    s.Copied() && Wrap64(s.vmaddr - base) <= p < Wrap64(s.vmaddr - base) + s.filesize
  }

  ghost function Backing(segments: seq<Segment>, base: u64, p: nat): Option<nat> {
    if segments == [] then None
    else
      var s := segments[|segments| - 1];
      if Covers(base, s, p) then Some(s.fileoff + (p - Wrap64(s.vmaddr - base)))
      else Backing(segments[..|segments| - 1], base, p)
  }

  lemma {:induction false} BackingWitness(segments: seq<Segment>, base: u64, p: nat) returns (s: Segment)
    requires Backing(segments, base, p).Some?
    ensures s in segments && Covers(base, s, p)
    ensures Backing(segments, base, p) == Some(s.fileoff + (p - Wrap64(s.vmaddr - base)))
  {
    s := segments[|segments| - 1];
    if !Covers(base, s, p) {
      s := BackingWitness(segments[..|segments| - 1], base, p);
    }
  }

  lemma {:induction false} BackingNone(segments: seq<Segment>, base: u64, p: nat)
    requires Backing(segments, base, p).None?
    ensures forall s :: s in segments ==> !Covers(base, s, p)
  {
    if segments != [] {
      BackingNone(segments[..|segments| - 1], base, p);
      assert segments == segments[..|segments| - 1] + [segments[|segments| - 1]];
    }
  }

  lemma SameSegment(info: MachInfo, fileLen: nat, s: Segment, t: Segment)
    requires WellFormedSegments(info, fileLen) && s in info.segments && t in info.segments
    ensures s == t || SegmentsApart(s, t) || SegmentsApart(t, s)
  {
  }

  lemma {:induction false} WithinMaxEnd(segments: seq<Segment>, base: u64, s: Segment)
    requires s in segments && s.Loadable()
    ensures SegmentEnd(s, base) <= MaxEnd(segments, base)
  {
    if s != segments[|segments| - 1] {
      assert segments == segments[..|segments| - 1] + [segments[|segments| - 1]];
      WithinMaxEnd(segments[..|segments| - 1], base, s);
    }
  }

  lemma {:induction false} MaxEndFits(info: MachInfo, fileLen: nat, segments: seq<Segment>)
    requires forall s :: s in segments ==> WellFormedSegment(info, s, fileLen)
    ensures MaxEnd(segments, info.base) <= LAST_PAGE
  {
    if segments != [] {
      MaxEndFits(info, fileLen, segments[..|segments| - 1]);
      assert WellFormedSegment(info, segments[|segments| - 1], fileLen);
    }
  }

  /** A loadable segment sits at `vmaddr - base`, inside the mapping. */
  lemma InSpan(info: MachInfo, fileLen: nat, s: Segment)
    requires WellFormedSegments(info, fileLen) && s in info.segments && s.Loadable()
    ensures Wrap64(s.vmaddr - info.base) == s.vmaddr - info.base
    ensures s.vmaddr - info.base + s.vmsize <= Span(info)
  {
    assert WellFormedSegment(info, s, fileLen);
    WithinMaxEnd(info.segments, info.base, s);
    MaxEndFits(info, fileLen, info.segments);
  }

  /** Inside a loadable segment the backing is that segment's own, or nothing past its file bytes. */
  lemma BackingInside(info: MachInfo, fileLen: nat, s: Segment, p: nat)
    requires WellFormedSegments(info, fileLen) && s in info.segments && s.Loadable()
    requires s.vmaddr - info.base <= p < s.vmaddr - info.base + s.vmsize
    ensures Backing(info.segments, info.base, p) ==
            if p < s.vmaddr - info.base + s.filesize then Some(s.fileoff + (p - (s.vmaddr - info.base))) else None
  {
    InSpan(info, fileLen, s);
    if Backing(info.segments, info.base, p).Some? {
      var t := BackingWitness(info.segments, info.base, p);
      assert WellFormedSegment(info, t, fileLen);
      InSpan(info, fileLen, t);
      SameSegment(info, fileLen, s, t);
    } else {
      BackingNone(info.segments, info.base, p);
      assert !Covers(info.base, s, p);
    }
  }

  /** A backed position reads a file byte that exists, and distinct positions read distinct bytes. */
  lemma BackingInjective(info: MachInfo, fileLen: nat, s: Segment, p: nat, q: nat)
    requires WellFormedSegments(info, fileLen) && s in info.segments && s.Loadable()
    requires Backing(info.segments, info.base, p) == Some(q)
    ensures q < fileLen
    ensures s.fileoff <= q < s.fileoff + s.filesize ==> p - (s.vmaddr - info.base) == q - s.fileoff
  {
    var t := BackingWitness(info.segments, info.base, p);
    assert WellFormedSegment(info, t, fileLen);
    InSpan(info, fileLen, t);
    SameSegment(info, fileLen, s, t);
  }

  // ── copying ──────────────────────────────────────────────────────────────

  /** `m` is `src` seen through the backing, over `under` where nothing is backed. */
  ghost predicate Shows(segments: seq<Segment>, base: u64, src: seq<byte>, under: seq<byte>, m: seq<byte>) {
    && |m| == |under|
    && forall p: nat :: p < |m| ==>
         (match Backing(segments, base, p)
          case Some(q) => q < |src| && m[p] == src[q]
          case None => m[p] == under[p])
  }

  ghost predicate Copyable(info: MachInfo, span: nat, s: Segment, fileLen: nat) {
    s.Copied() ==>
      && s.fileoff + s.filesize <= fileLen
      && Wrap64(s.vmaddr - info.base) + s.filesize <= span
      && (NameStr(s.name) == TEXT ==> s.filesize % 0x1000 == 0)
  }

  lemma AllCopyable(info: MachInfo, fileLen: nat)
    requires WellFormedSegments(info, fileLen)
    ensures forall s :: s in info.segments ==> Copyable(info, Span(info), s, fileLen)
  {
    forall s | s in info.segments
      ensures Copyable(info, Span(info), s, fileLen)
    {
      assert WellFormedSegment(info, s, fileLen);
      if s.Copied() { InSpan(info, fileLen, s); }
    }
  }

  /** The segment's file bytes over `m`. */
  ghost function WithSegment(info: MachInfo, m: seq<byte>, src: seq<byte>, s: Segment): (r: seq<byte>)
    requires Copyable(info, |m|, s, |src|)
    ensures |r| == |m|
  {
    if s.Copied() then Splice(m, Wrap64(s.vmaddr - info.base), src[s.fileoff..s.fileoff + s.filesize]) else m
  }

  /** Either way of bringing one segment in writes exactly its file bytes. */
  lemma CopyOne(info: MachInfo, m: seq<byte>, src: seq<byte>, s: Segment)
    requires Copyable(info, |m|, s, |src|)
    ensures CopyOut(m, src, info.base, s) == Success(WithSegment(info, m, src, s))
    ensures MapIn(m, src, info.base, s) == Success(WithSegment(info, m, src, s))
  {
    if s.Copied() && PageMapped(|m|, info.base, s) {
      assert WholePages(s) == s.filesize;
      assert FileBytes(src, s.fileoff, s.filesize) == src[s.fileoff..s.fileoff + s.filesize];
    }
  }

  lemma ShowsOneMore(info: MachInfo, under: seq<byte>, src: seq<byte>, segments: seq<Segment>, m: seq<byte>)
    requires segments != []
    requires Shows(segments[..|segments| - 1], info.base, src, under, m)
    requires Copyable(info, |m|, segments[|segments| - 1], |src|)
    ensures Shows(segments, info.base, src, under, WithSegment(info, m, src, segments[|segments| - 1]))
  {
    var s := segments[|segments| - 1];
    var t := WithSegment(info, m, src, s);
    forall p: nat | p < |t|
      ensures match Backing(segments, info.base, p)
              case Some(q) => q < |src| && t[p] == src[q]
              case None => t[p] == under[p]
    {
      var before := Backing(segments[..|segments| - 1], info.base, p);
      if Covers(info.base, s, p) {
        var i := p - Wrap64(s.vmaddr - info.base);
        assert src[s.fileoff..s.fileoff + s.filesize][i] == src[s.fileoff + i];
      }
    }
  }

  lemma {:induction false} CopyAll(info: MachInfo, under: seq<byte>, src: seq<byte>, segments: seq<Segment>)
    requires forall s :: s in segments ==> Copyable(info, |under|, s, |src|)
    ensures var r := CopyOutAll(under, src, info.base, segments);
            && r.Success? && MapInAll(under, src, info.base, segments) == r
            && Shows(segments, info.base, src, under, r.value)
    decreases |segments|
  {
    if segments != [] {
      var front, s := segments[..|segments| - 1], segments[|segments| - 1];
      CopyAll(info, under, src, front);
      var rest := CopyOutAll(under, src, info.base, front).value;
      assert Copyable(info, |under|, s, |src|);
      CopyOne(info, rest, src, s);
      ShowsOneMore(info, under, src, segments, rest);
    }
  }

  // ── patching ─────────────────────────────────────────────────────────────

  lemma {:induction false} WriteDeferredSkips(m: seq<byte>, segments: seq<Segment>, base: u64, d: Deferred)
    requires forall s :: s in segments ==> s.name != d.segment
    ensures WriteDeferred(m, segments, base, d) == Success(m)
    decreases |segments|
  {
    if segments != [] { WriteDeferredSkips(m, segments[1..], base, d); }
  }

  ghost predicate DistinctNames(segments: seq<Segment>) {
    forall i, j :: 0 <= i < j < |segments| ==> segments[i].name != segments[j].name
  }

  /** With distinct names a staged value is written exactly once, at its slot. */
  lemma {:induction false} WriteDeferredOnce(m: seq<byte>, segments: seq<Segment>, base: u64, d: Deferred)
    requires DistinctNames(segments)
    requires var s := Find(segments, d.segment);
             s.Some? && Wrap64(Wrap64(s.value.vmaddr - base) + d.segOff) + 8 <= |m|
    ensures WriteDeferred(m, segments, base, d) ==
            Success(Splice(m, Wrap64(Wrap64(Find(segments, d.segment).value.vmaddr - base) + d.segOff), LittleEndian(d.value, 8)))
    decreases |segments|
  {
    if segments[0].name == d.segment {
      var at := Wrap64(Wrap64(segments[0].vmaddr - base) + d.segOff);
      WriteDeferredSkips(Splice(m, at, LittleEndian(d.value, 8)), segments[1..], base, d);
    } else {
      WriteDeferredOnce(m, segments[1..], base, d);
    }
  }

  lemma {:induction false} WriteDeferredAppend(m: seq<byte>, info: MachInfo, ds: seq<Deferred>, d: Deferred)
    requires WriteDeferredAll(m, info, ds).Success?
    ensures WriteDeferredAll(m, info, ds + [d]) == WriteDeferred(WriteDeferredAll(m, info, ds).value, info.segments, info.base, d)
    decreases |ds|
  {
    if ds == [] {
      assert WriteDeferredAll(m, info, [d]) == (var n := WriteDeferred(m, info.segments, info.base, d);
        if n.Failure? then n else WriteDeferredAll(n.value, info, []));
    } else {
      assert (ds + [d])[1..] == ds[1..] + [d];
      WriteDeferredAppend(WriteDeferred(m, info.segments, info.base, ds[0]).value, info, ds[1..], d);
    }
  }

  lemma {:induction false} ZeroWord(s: seq<byte>)
    requires forall i :: 0 <= i < |s| ==> s[i] == 0
    ensures FromLittleEndian(s) == 0
  {
    if s != [] { ZeroWord(s[1..]); }
  }

  ghost predicate InSlot(info: MachInfo, f: Fixup, p: nat)
    requires Placed(info, f)
  {
    Slot(info, f) <= p < Slot(info, f) + 8
  }

  /** `bs` with the fixup applied to the word at `at`. */
  ghost function PatchAt(f: Fixup, bs: seq<byte>, at: nat): (r: seq<byte>)
    requires at + 8 <= |bs|
    ensures |r| == |bs|
  {
    Splice(bs, at, LittleEndian(Patched(f, Word(bs, at)), 8))
  }

  function Staged(f: Fixup): Deferred { Deferred(f.segment, f.segOff, f.value) }

  lemma SlotBounds(info: MachInfo, fileLen: nat, f: Fixup)
    requires WellFormedSegments(info, fileLen) && Placed(info, f)
    ensures 0 <= Slot(info, f) <= Span(info) - 8 && Span(info) < TWO_64
    ensures Wrap64(Wrap64(Find(info.segments, f.segment).value.vmaddr - info.base) + f.segOff) == Slot(info, f)
  {
    InSpan(info, fileLen, Find(info.segments, f.segment).value);
    WrapSmall(Slot(info, f));
  }

  lemma MapOffset(info: MachInfo, fileLen: nat, f: Fixup)
    requires WellFormedSegments(info, fileLen) && Placed(info, f)
    ensures 0 <= Slot(info, f) <= Span(info) - 8
    ensures SegmentMapOffset(info, f.segment, f.segOff, Span(info)) == Success(Slot(info, f))
  {
    SlotBounds(info, fileLen, f);
    WrapSmall(f.segOff + 8);
    WrapSmall(Slot(info, f) + 8);
  }

  /** A well-formed slot in the mapping, and one fixup there. */
  lemma MappingStep(info: MachInfo, fileLen: nat, m: seq<byte>, f: Fixup)
    requires WellFormedSegments(info, fileLen) && Placed(info, f) && |m| == Span(info)
    ensures 0 <= Slot(info, f) <= |m| - 8
    ensures PatchMapping(info, m, f) == Success(PatchAt(f, m, Slot(info, f)))
  {
    MapOffset(info, fileLen, f);
  }

  lemma FileOffset(info: MachInfo, fileLen: nat, f: Fixup)
    requires WellFormedSegments(info, fileLen) && Placed(info, f)
    ensures Backed(info, f) ==> FilePos(info, f) + 8 <= fileLen
    ensures SegmentFileOffset(info, f.segment, f.segOff, fileLen) == Success(if Backed(info, f) then Some(FilePos(info, f)) else None)
  {
    var s := Find(info.segments, f.segment).value;
    assert WellFormedSegment(info, s, fileLen);
    WrapSmall(f.segOff + 8);
    if Backed(info, f) {
      WrapSmall(FilePos(info, f));
      WrapSmall(FilePos(info, f) + 8);
    }
  }

  /** The same fixup in the file buffer. */
  lemma BufferStep(info: MachInfo, b: Buffer, f: Fixup)
    requires WellFormedSegments(info, |b.work|) && Placed(info, f)
    ensures Backed(info, f) ==> FilePos(info, f) + 8 <= |b.work|
    ensures PatchBuffer(info, b, f) == Success(
              if Backed(info, f) then b.(work := PatchAt(f, b.work, FilePos(info, f)))
              else b.(deferred := b.deferred + [Staged(f)]))
  {
    FileOffset(info, |b.work|, f);
  }

  /** The same bytes written at corresponding places keep the correspondence. */
  lemma SpliceBoth(info: MachInfo, work: seq<byte>, d: seq<byte>, m: seq<byte>, q: nat, o: nat, bytes: seq<byte>)
    requires Shows(info.segments, info.base, work, d, m)
    requires q + |bytes| <= |work| && o + |bytes| <= |m|
    requires forall p: nat :: o <= p < o + |bytes| ==> Backing(info.segments, info.base, p) == Some(q + (p - o))
    requires forall p: nat :: p < |m| && !(o <= p < o + |bytes|) && Backing(info.segments, info.base, p).Some? ==>
               !(q <= Backing(info.segments, info.base, p).value < q + |bytes|)
    ensures Shows(info.segments, info.base, Splice(work, q, bytes), d, Splice(m, o, bytes))
  {
  }

  lemma SpliceUnder(info: MachInfo, work: seq<byte>, d: seq<byte>, m: seq<byte>, o: nat, bytes: seq<byte>)
    requires Shows(info.segments, info.base, work, d, m)
    requires o + |bytes| <= |m|
    requires forall p: nat :: o <= p < o + |bytes| ==> Backing(info.segments, info.base, p) == None
    ensures Shows(info.segments, info.base, work, Splice(d, o, bytes), Splice(m, o, bytes))
  {
  }

  /** A slot with file bytes: the same eight bytes change in the buffer and in the mapping. */
  lemma PatchBacked(info: MachInfo, work: seq<byte>, d: seq<byte>, m: seq<byte>, f: Fixup)
    requires WellFormedSegments(info, |work|) && WellFormedFixup(info, f) && Backed(info, f)
    requires FilePos(info, f) + 8 <= |work| && 0 <= Slot(info, f) <= |m| - 8
    requires Shows(info.segments, info.base, work, d, m)
    ensures Shows(info.segments, info.base, PatchAt(f, work, FilePos(info, f)), d, PatchAt(f, m, Slot(info, f)))
  {
    SlotBacking(info, |work|, f);
    SameWord(info, work, d, m, FilePos(info, f), Slot(info, f));
    SpliceBoth(info, work, d, m, FilePos(info, f), Slot(info, f), LittleEndian(Patched(f, Word(m, Slot(info, f))), 8));
  }

  lemma SameWord(info: MachInfo, work: seq<byte>, d: seq<byte>, m: seq<byte>, q: nat, o: nat)
    requires Shows(info.segments, info.base, work, d, m) && q + 8 <= |work| && o + 8 <= |m|
    requires forall p: nat :: o <= p < o + 8 ==> Backing(info.segments, info.base, p) == Some(q + (p - o))
    ensures Word(work, q) == Word(m, o)
  {
    assert work[q..q + 8] == m[o..o + 8];
  }

  lemma SlotBacking(info: MachInfo, fileLen: nat, f: Fixup)
    requires WellFormedSegments(info, fileLen) && WellFormedFixup(info, f)
    ensures forall p: nat :: Slot(info, f) <= p < Slot(info, f) + 8 ==>
              Backing(info.segments, info.base, p) == if Backed(info, f) then Some(FilePos(info, f) + (p - Slot(info, f))) else None
    ensures Backed(info, f) ==>
              forall p: nat :: !(Slot(info, f) <= p < Slot(info, f) + 8) && Backing(info.segments, info.base, p).Some? ==>
                !(FilePos(info, f) <= Backing(info.segments, info.base, p).value < FilePos(info, f) + 8)
  {
    var s, o := Find(info.segments, f.segment).value, Slot(info, f);
    assert WellFormedSegment(info, s, fileLen);
    forall p: nat | o <= p < o + 8
      ensures Backing(info.segments, info.base, p) == if Backed(info, f) then Some(FilePos(info, f) + (p - o)) else None
    {
      BackingInside(info, fileLen, s, p);
    }
    forall p: nat | Backing(info.segments, info.base, p).Some?
      ensures var q := Backing(info.segments, info.base, p).value;
              s.fileoff <= q < s.fileoff + s.filesize ==> p - (s.vmaddr - info.base) == q - s.fileoff
    {
      BackingInjective(info, fileLen, s, p, Backing(info.segments, info.base, p).value);
    }
  }

  /** A slot past the file bytes: what is staged is what the mapping receives. */
  lemma PatchZeroFill(info: MachInfo, work: seq<byte>, d: seq<byte>, m: seq<byte>, f: Fixup)
    requires WellFormedSegments(info, |work|) && WellFormedFixup(info, f) && !Backed(info, f)
    requires |m| == Span(info) && Shows(info.segments, info.base, work, d, m)
    requires f.rebase ==> forall p: nat :: InSlot(info, f, p) && p < |d| ==> d[p] == 0
    ensures 0 <= Slot(info, f) <= |m| - 8
    ensures var d' := WriteDeferred(d, info.segments, info.base, Staged(f));
            && d'.Success?
            && Shows(info.segments, info.base, work, d'.value, PatchAt(f, m, Slot(info, f)))
            && forall p: nat :: p < |m| && !InSlot(info, f, p) ==> d'.value[p] == d[p]
  {
    SlotBacking(info, |work|, f);
    StagedOnce(info, |work|, d, f);
    StagedWord(info, work, d, m, f);
    SpliceUnder(info, work, d, m, Slot(info, f), LittleEndian(f.value, 8));
  }

  lemma StagedWord(info: MachInfo, work: seq<byte>, d: seq<byte>, m: seq<byte>, f: Fixup)
    requires WellFormedFixup(info, f) && 0 <= Slot(info, f) <= |m| - 8
    requires Shows(info.segments, info.base, work, d, m)
    requires forall p: nat :: Slot(info, f) <= p < Slot(info, f) + 8 ==> Backing(info.segments, info.base, p) == None
    requires f.rebase ==> forall p: nat :: InSlot(info, f, p) && p < |d| ==> d[p] == 0
    ensures Patched(f, Word(m, Slot(info, f))) == f.value
  {
    if f.rebase {
      var o := Slot(info, f);
      forall p: nat | o <= p < o + 8
        ensures m[p] == 0
      {
        assert InSlot(info, f, p);
      }
      ZeroWord(m[o..o + 8]);
    }
  }

  lemma StagedOnce(info: MachInfo, fileLen: nat, d: seq<byte>, f: Fixup)
    requires WellFormedSegments(info, fileLen) && Placed(info, f) && |d| == Span(info)
    ensures 0 <= Slot(info, f) <= |d| - 8
    ensures WriteDeferred(d, info.segments, info.base, Staged(f)) == Success(Splice(d, Slot(info, f), LittleEndian(f.value, 8)))
  {
    SlotBounds(info, fileLen, f);
    NamesDistinct(info, fileLen);
    WriteDeferredOnce(d, info.segments, info.base, Staged(f));
  }

  lemma NamesDistinct(info: MachInfo, fileLen: nat)
    requires WellFormedSegments(info, fileLen)
    ensures DistinctNames(info.segments)
  {
  }

  /** Zero-fill slots still to be rebased hold zero in the staged picture. */
  ghost predicate Untouched(info: MachInfo, d: seq<byte>, fs: seq<Fixup>)
    requires forall f :: f in fs ==> Placed(info, f)
  {
    forall f, p: nat :: f in fs && ZeroFillRebase(info, f) && InSlot(info, f, p) && p < |d| ==> d[p] == 0
  }

  /** Patch-then-copy follows copy-then-patch through every fixup. */
  lemma {:induction false} PatchAll(info: MachInfo, b: Buffer, d: seq<byte>, m: seq<byte>, fs: seq<Fixup>)
    requires WellFormedSegments(info, |b.work|) && WellFormedFixups(info, fs)
    requires |m| == Span(info) && Shows(info.segments, info.base, b.work, d, m)
    requires WriteDeferredAll(Zeros(|m|), info, b.deferred) == Success(d)
    requires Untouched(info, d, fs)
    ensures var b', m' := PatchBufferAll(info, b, fs), PatchMappingAll(info, m, fs);
            && b'.Success? && m'.Success?
            && var d' := WriteDeferredAll(Zeros(|m|), info, b'.value.deferred);
            && d'.Success? && Shows(info.segments, info.base, b'.value.work, d'.value, m'.value)
    decreases |fs|
  {
    if fs != [] {
      var f := fs[0];
      assert f in fs;
      MappingStep(info, |b.work|, m, f);
      BufferStep(info, b, f);
      var b', m' := PatchBuffer(info, b, f).value, PatchAt(f, m, Slot(info, f));
      if Backed(info, f) {
        PatchBacked(info, b.work, d, m, f);
        PatchAll(info, b', d, m', fs[1..]);
      } else {
        PatchZeroFill(info, b.work, d, m, f);
        WriteDeferredAppend(Zeros(|m|), info, b.deferred, Staged(f));
        var d' := WriteDeferred(d, info.segments, info.base, Staged(f)).value;
        StillUntouched(info, d, d', fs);
        PatchAll(info, b', d', m', fs[1..]);
      }
    }
  }

  lemma StillUntouched(info: MachInfo, d: seq<byte>, d': seq<byte>, fs: seq<Fixup>)
    requires WellFormedFixups(info, fs) && fs != [] && |d| == |d'|
    requires Untouched(info, d, fs)
    requires forall p: nat :: p < |d| && !InSlot(info, fs[0], p) ==> d'[p] == d[p]
    ensures Untouched(info, d', fs[1..])
  {
  }

  // ── the two loads ────────────────────────────────────────────────────────

  /** `m` is what `LoadParsed` maps for `file` when `pending` was staged before the call. */
  ghost predicate BufferImage(info: MachInfo, host: Host, file: seq<byte>, loadBase: u64, pending: seq<Deferred>, m: seq<byte>) {
    var b := PatchBufferAll(info, Buffer(file, pending), Fixups(info, host, loadBase));
    && b.Success?
    && var d := WriteDeferredAll(Zeros(Span(info)), info, b.value.deferred);
    && d.Success?
    && exists w :: TextNeutralized(b.value.work, info.text, w) && CopyOutAll(d.value, w, info.base, info.segments) == Success(m)
  }

  /** The mapped fixups, before the rdtsc pass. */
  ghost function FixedMapping(info: MachInfo, host: Host, file: seq<byte>, loadBase: u64): Result<seq<byte>, Error> {
    var m :- MapInAll(Zeros(Span(info)), file, info.base, info.segments);
    PatchMappingAll(info, m, Fixups(info, host, loadBase))
  }

  /** `m` is what `MapAndFixup` maps for `file` by the plain scan. */
  ghost predicate MappedImage(info: MachInfo, host: Host, file: seq<byte>, loadBase: u64, m: seq<byte>) {
    var fixed := FixedMapping(info, host, file, loadBase);
    fixed.Success? && TextNeutralized(fixed.value, info.text, m)
  }

  ghost predicate WellFormed(info: MachInfo, host: Host, file: seq<byte>, loadBase: u64) {
    && WellFormedSegments(info, |file|)
    && WellFormedFixups(info, Fixups(info, host, loadBase))
    && WellFormedText(info)
  }

  /** `__text` shows itself: its bytes in the mapping are the file bytes at the same offsets, and no others are. */
  lemma TextBacked(info: MachInfo, fileLen: nat)
    requires WellFormedSegments(info, fileLen) && WellFormedText(info) && info.text.Text?
    ensures info.text.off <= info.text.End() <= Span(info) && info.text.End() <= fileLen
    ensures forall p: nat :: info.text.off <= p < info.text.End() ==> Backing(info.segments, info.base, p) == Some(p)
    ensures forall p: nat :: Backing(info.segments, info.base, p).Some? ==>
              var q := Backing(info.segments, info.base, p).value; q < fileLen && (info.text.off <= q < info.text.End() ==> p == q)
  {
    var s :| s in info.segments && s.Loadable() && s.fileoff == 0 && s.vmaddr == info.base && info.text.off + info.text.size <= s.filesize;
    assert WellFormedSegment(info, s, fileLen);
    InSpan(info, fileLen, s);
    TextEnd(info.text, s.filesize);
    forall p: nat | info.text.off <= p < info.text.End() ensures Backing(info.segments, info.base, p) == Some(p) {
      BackingInside(info, fileLen, s, p);
    }
    forall p: nat | Backing(info.segments, info.base, p).Some?
      ensures var q := Backing(info.segments, info.base, p).value; q < fileLen && (info.text.off <= q < info.text.End() ==> p == q)
    {
      BackingInjective(info, fileLen, s, p, Backing(info.segments, info.base, p).value);
    }
  }

  lemma TextEnd(text: TextSection, limit: u64)
    requires text.Text? && text.off + text.size <= limit
    ensures text.End() == text.off + text.size
  {
  }

  /** Rewriting `__text` in the buffer and then copying is rewriting it in the mapping. */
  lemma NeutralizeCommutes(info: MachInfo, work: seq<byte>, d: seq<byte>, m: seq<byte>, w: seq<byte>, n: seq<byte>)
    requires WellFormedSegments(info, |work|) && WellFormedText(info)
    requires |m| == Span(info) && Shows(info.segments, info.base, work, d, m)
    requires TextNeutralized(work, info.text, w) && TextNeutralized(m, info.text, n)
    ensures Shows(info.segments, info.base, w, d, n)
  {
    if info.text.Text? {
      var lo, hi := info.text.off, info.text.End();
      TextBacked(info, |work|);
      assert Neutralizes(work, lo, hi, w) && Neutralizes(m, lo, hi, n);
      assert forall p: nat :: lo <= p < hi ==> m[p] == work[p];
      assert m[lo..hi] == work[lo..hi];
      CellLocal(work, m, lo, hi);
      CellLocal(m, work, lo, hi);
    }
  }

  lemma ShowsUnique(segments: seq<Segment>, base: u64, src: seq<byte>, under: seq<byte>, m: seq<byte>, n: seq<byte>)
    requires Shows(segments, base, src, under, m) && Shows(segments, base, src, under, n)
    ensures m == n
  {
  }

  /** Neither load fails on a well-formed image, and what is fixed up in memory shows what is fixed up in the buffer. */
  lemma FixupsAgree(info: MachInfo, host: Host, file: seq<byte>, loadBase: u64)
    requires WellFormed(info, host, file, loadBase)
    ensures var b, m := PatchBufferAll(info, Buffer(file, []), Fixups(info, host, loadBase)), FixedMapping(info, host, file, loadBase);
            && b.Success? && m.Success? && |m.value| == Span(info)
            && var d := WriteDeferredAll(Zeros(Span(info)), info, b.value.deferred);
            && d.Success? && Shows(info.segments, info.base, b.value.work, d.value, m.value)
  {
    AllCopyable(info, |file|);
    var zeros := Zeros(Span(info));
    CopyAll(info, zeros, file, info.segments);
    PatchAll(info, Buffer(file, []), zeros, MapInAll(zeros, file, info.base, info.segments).value, Fixups(info, host, loadBase));
  }

  /** The main result: with nothing staged beforehand, both loaders leave the same bytes. */
  lemma LoadersAgree(info: MachInfo, host: Host, file: seq<byte>, loadBase: u64, m: seq<byte>, n: seq<byte>)
    requires WellFormed(info, host, file, loadBase)
    requires BufferImage(info, host, file, loadBase, [], m)
    requires MappedImage(info, host, file, loadBase, n)
    ensures m == n
  {
    FixupsAgree(info, host, file, loadBase);
    var b := PatchBufferAll(info, Buffer(file, []), Fixups(info, host, loadBase)).value;
    var d := WriteDeferredAll(Zeros(Span(info)), info, b.deferred).value;
    var fixed := FixedMapping(info, host, file, loadBase).value;
    var w :| TextNeutralized(b.work, info.text, w) && CopyOutAll(d, w, info.base, info.segments) == Success(m);
    NeutralizeCommutes(info, b.work, d, fixed, w, n);
    AllCopyable(info, |file|);
    CopyAll(info, d, w, info.segments);
    ShowsUnique(info.segments, info.base, w, d, m, n);
  }
}
