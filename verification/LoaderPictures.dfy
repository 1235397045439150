/**
 * What both loaders leave, byte by byte, for any fixups whose slots lie in segments and after any
 * staged leftovers: the loads agree exactly when two small pictures of the unbacked slots do.
 */
module LoaderPictures {
  import opened Bytes
  import opened Rdtsc
  import opened Wrappers
  import opened MachLoader
  import opened LoadersAgree

  ghost predicate AllPlaced(info: MachInfo, fs: seq<Fixup>) {
    forall f :: f in fs ==> Placed(info, f)
  }

  ghost predicate Fits(info: MachInfo, len: nat, fs: seq<Fixup>) {
    forall f :: f in fs ==> Placed(info, f) && 0 <= Slot(info, f) <= len - 8
  }

  /** The fixups that are staged rather than patched into the buffer. */
  ghost function Unbacked(info: MachInfo, fs: seq<Fixup>): (u: seq<Fixup>)
    requires AllPlaced(info, fs)
    ensures forall f :: f in u <==> f in fs && !Backed(info, f)
  {
    if fs == [] then [] else
    assert fs[0] in fs && forall f :: f in fs[1..] ==> f in fs;
    assert forall f :: f in fs <==> f == fs[0] || f in fs[1..];
    (if Backed(info, fs[0]) then [] else [fs[0]]) + Unbacked(info, fs[1..])
  }

  /** Fixups applied in order to a mapping. */
  ghost function PatchList(info: MachInfo, m: seq<byte>, fs: seq<Fixup>): (r: seq<byte>)
    requires Fits(info, |m|, fs)
    ensures |r| == |m|
    decreases |fs|
  {
    if fs == [] then m else
    assert fs[0] in fs && forall f :: f in fs[1..] ==> f in fs;
    PatchList(info, PatchAt(fs[0], m, Slot(info, fs[0])), fs[1..])
  }

  /** Values written in order over a picture, nothing read. */
  ghost function StageList(info: MachInfo, d: seq<byte>, fs: seq<Fixup>): (r: seq<byte>)
    requires Fits(info, |d|, fs)
    ensures |r| == |d|
    decreases |fs|
  {
    if fs == [] then d else
    assert fs[0] in fs && forall f :: f in fs[1..] ==> f in fs;
    StageList(info, Splice(d, Slot(info, fs[0]), LittleEndian(fs[0].value, 8)), fs[1..])
  }

  /** Position `p` lies in a slot that straddles the end of its segment's file bytes. */
  ghost predicate AtEdge(info: MachInfo, fs: seq<Fixup>, p: nat)
    requires AllPlaced(info, fs)
  {
    exists f :: f in fs && Straddles(info, f) && InSlot(info, f, p)
  }

  ghost predicate SlotsApart(info: MachInfo, f: Fixup, g: Fixup)
    requires Placed(info, f) && Placed(info, g)
  {
    Slot(info, f) + 8 <= Slot(info, g) || Slot(info, g) + 8 <= Slot(info, f)
  }

  ghost predicate SameOrApart(info: MachInfo, f: Fixup, g: Fixup)
    requires Placed(info, f) && Placed(info, g)
  {
    Slot(info, f) == Slot(info, g) || SlotsApart(info, f, g)
  }

  ghost predicate OffText(info: MachInfo, f: Fixup)
    requires Placed(info, f)
  {
    info.text.Text? ==> Slot(info, f) + 8 <= info.text.off || info.text.End() <= Slot(info, f)
  }

  /** Slots in segments; a straddling slot keeps clear of slots in the file bytes and of `__text`. */
  ghost predicate Clear(info: MachInfo, fs: seq<Fixup>) {
    && AllPlaced(info, fs)
    && (forall f, g :: f in fs && g in fs && Backed(info, f) && Straddles(info, g) ==> SlotsApart(info, f, g))
    && (forall f :: f in fs && Straddles(info, f) ==> OffText(info, f))
  }

  /** And two rebases of unbacked slots name the same slot or slots apart. Binds may overlap anything unbacked. */
  ghost predicate Tidy(info: MachInfo, fs: seq<Fixup>) {
    && Clear(info, fs)
    && (forall f, g :: f in fs && g in fs && f.rebase && g.rebase && !Backed(info, f) && !Backed(info, g) ==> SameOrApart(info, f, g))
  }

  // ── following both loaders through the fixups ────────────────────────────

  /** Unbacked and edge positions of the mapping follow `mu`; the others show the buffer. */
  ghost predicate ParallelAt(info: MachInfo, all: seq<Fixup>, file: seq<byte>, work: seq<byte>, m: seq<byte>, mu: seq<byte>, p: nat)
    requires AllPlaced(info, all) && p < |m| == |mu| && |work| == |file|
  {
    match Backing(info.segments, info.base, p)
    case None => m[p] == mu[p]
    case Some(q) => q < |work| && if AtEdge(info, all, p) then m[p] == mu[p] && work[q] == file[q] else m[p] == work[q]
  }

  ghost predicate Parallel(info: MachInfo, all: seq<Fixup>, file: seq<byte>, work: seq<byte>, m: seq<byte>, mu: seq<byte>)
    requires AllPlaced(info, all)
  {
    |work| == |file| && |m| == |mu| == Span(info) && forall p: nat :: p < |m| ==> ParallelAt(info, all, file, work, m, mu, p)
  }

  lemma SameEight(a: seq<byte>, q: nat, b: seq<byte>, o: nat)
    requires q + 8 <= |a| && o + 8 <= |b|
    requires forall p: nat :: o <= p < o + 8 ==> b[p] == a[q + (p - o)]
    ensures Word(a, q) == Word(b, o)
  {
    assert a[q..q + 8] == b[o..o + 8];
  }

  /** A slot in the file bytes meets no edge position. */
  lemma BackedOffEdge(info: MachInfo, all: seq<Fixup>, f: Fixup, p: nat)
    requires Clear(info, all) && f in all && Backed(info, f) && InSlot(info, f, p)
    ensures !AtEdge(info, all, p)
  {
    forall g | g in all && Straddles(info, g) ensures !InSlot(info, g, p) {
      assert SlotsApart(info, f, g);
    }
  }

  lemma FollowBacked(info: MachInfo, all: seq<Fixup>, file: seq<byte>, work: seq<byte>, m: seq<byte>, mu: seq<byte>, f: Fixup)
    requires WellFormedSegments(info, |file|) && Clear(info, all) && f in all && Backed(info, f)
    requires Parallel(info, all, file, work, m, mu)
    ensures 0 <= Slot(info, f) <= |m| - 8 && FilePos(info, f) + 8 <= |work|
    ensures Parallel(info, all, file, PatchAt(f, work, FilePos(info, f)), PatchAt(f, m, Slot(info, f)), mu)
  {
    var q0, o := FilePos(info, f), Slot(info, f);
    SlotBounds(info, |file|, f);
    FileOffset(info, |file|, f);
    SlotBacking(info, |file|, f);
    forall p: nat | o <= p < o + 8 ensures m[p] == work[q0 + (p - o)] {
      BackedOffEdge(info, all, f, p);
      assert ParallelAt(info, all, file, work, m, mu, p);
    }
    SameEight(work, q0, m, o);
    PatchBothAt(info, all, file, work, m, mu, f, LittleEndian(Patched(f, Word(m, o)), 8));
  }

  lemma PatchBothAt(info: MachInfo, all: seq<Fixup>, file: seq<byte>, work: seq<byte>, m: seq<byte>, mu: seq<byte>, f: Fixup, bytes: seq<byte>)
    requires WellFormedSegments(info, |file|) && Clear(info, all) && f in all && Backed(info, f) && |bytes| == 8
    requires Parallel(info, all, file, work, m, mu)
    requires 0 <= Slot(info, f) <= |m| - 8 && FilePos(info, f) + 8 <= |work|
    ensures Parallel(info, all, file, Splice(work, FilePos(info, f), bytes), Splice(m, Slot(info, f), bytes), mu)
  {
    var q0, o := FilePos(info, f), Slot(info, f);
    var work', m' := Splice(work, q0, bytes), Splice(m, o, bytes);
    SlotBacking(info, |file|, f);
    forall p: nat | p < |m| ensures ParallelAt(info, all, file, work', m', mu, p) {
      assert ParallelAt(info, all, file, work, m, mu, p);
      if o <= p < o + 8 { BackedOffEdge(info, all, f, p); }
    }
  }

  /** Every position of an unbacked slot is unbacked or at an edge. */
  lemma UnbackedPosition(info: MachInfo, fileLen: nat, all: seq<Fixup>, f: Fixup, p: nat)
    requires WellFormedSegments(info, fileLen) && AllPlaced(info, all) && f in all && !Backed(info, f) && InSlot(info, f, p)
    ensures Backing(info.segments, info.base, p) == None || AtEdge(info, all, p)
  {
    if !Straddles(info, f) { SlotBacking(info, fileLen, f); }
  }

  lemma FollowUnbacked(info: MachInfo, all: seq<Fixup>, file: seq<byte>, work: seq<byte>, m: seq<byte>, mu: seq<byte>, f: Fixup)
    requires WellFormedSegments(info, |file|) && Clear(info, all) && f in all && !Backed(info, f)
    requires Parallel(info, all, file, work, m, mu)
    ensures 0 <= Slot(info, f) <= |m| - 8
    ensures Parallel(info, all, file, work, PatchAt(f, m, Slot(info, f)), PatchAt(f, mu, Slot(info, f)))
  {
    var o := Slot(info, f);
    SlotBounds(info, |file|, f);
    forall p: nat | o <= p < o + 8 ensures m[p] == mu[o + (p - o)] {
      UnbackedPosition(info, |file|, all, f, p);
      assert ParallelAt(info, all, file, work, m, mu, p);
    }
    SameEight(mu, o, m, o);
    WriteBothAt(info, all, file, work, m, mu, f, LittleEndian(Patched(f, Word(m, o)), 8));
  }

  lemma WriteBothAt(info: MachInfo, all: seq<Fixup>, file: seq<byte>, work: seq<byte>, m: seq<byte>, mu: seq<byte>, f: Fixup, bytes: seq<byte>)
    requires WellFormedSegments(info, |file|) && Clear(info, all) && f in all && !Backed(info, f) && |bytes| == 8
    requires Parallel(info, all, file, work, m, mu) && 0 <= Slot(info, f) <= |m| - 8
    ensures Parallel(info, all, file, work, Splice(m, Slot(info, f), bytes), Splice(mu, Slot(info, f), bytes))
  {
    var o := Slot(info, f);
    var m', mu' := Splice(m, o, bytes), Splice(mu, o, bytes);
    forall p: nat | p < |m| ensures ParallelAt(info, all, file, work, m', mu', p) {
      assert ParallelAt(info, all, file, work, m, mu, p);
      if o <= p < o + 8 { UnbackedPosition(info, |file|, all, f, p); }
    }
  }

  lemma AllFit(info: MachInfo, fileLen: nat, fs: seq<Fixup>)
    requires WellFormedSegments(info, fileLen) && AllPlaced(info, fs)
    ensures Fits(info, Span(info), fs)
  {
    forall f | f in fs ensures Placed(info, f) && 0 <= Slot(info, f) <= Span(info) - 8 {
      SlotBounds(info, fileLen, f);
    }
  }

  function StagedAll(fs: seq<Fixup>): seq<Deferred> {
    if fs == [] then [] else [Staged(fs[0])] + StagedAll(fs[1..])
  }

  /** The buffer after one placed fixup. */
  ghost function Stepped(info: MachInfo, b: Buffer, f: Fixup): Buffer
    requires Placed(info, f) && (Backed(info, f) ==> FilePos(info, f) + 8 <= |b.work|)
  {
    if Backed(info, f) then b.(work := PatchAt(f, b.work, FilePos(info, f))) else b.(deferred := b.deferred + [Staged(f)])
  }

  lemma BufferFirst(info: MachInfo, b: Buffer, fs: seq<Fixup>)
    requires WellFormedSegments(info, |b.work|) && fs != [] && Placed(info, fs[0])
    ensures Backed(info, fs[0]) ==> FilePos(info, fs[0]) + 8 <= |b.work|
    ensures PatchBufferAll(info, b, fs) == PatchBufferAll(info, Stepped(info, b, fs[0]), fs[1..])
  {
    BufferStep(info, b, fs[0]);
  }

  lemma MappingFirst(info: MachInfo, fileLen: nat, m: seq<byte>, fs: seq<Fixup>)
    requires WellFormedSegments(info, fileLen) && fs != [] && Placed(info, fs[0]) && |m| == Span(info)
    ensures 0 <= Slot(info, fs[0]) <= |m| - 8
    ensures PatchMappingAll(info, m, fs) == PatchMappingAll(info, PatchAt(fs[0], m, Slot(info, fs[0])), fs[1..])
  {
    MappingStep(info, fileLen, m, fs[0]);
  }

  lemma UnbackedFirst(info: MachInfo, fs: seq<Fixup>)
    requires AllPlaced(info, fs) && fs != []
    ensures Placed(info, fs[0]) && AllPlaced(info, fs[1..])
    ensures Unbacked(info, fs) == (if Backed(info, fs[0]) then [] else [fs[0]]) + Unbacked(info, fs[1..])
  {
    assert fs[0] in fs;
  }

  lemma StageFirst(ds: seq<Deferred>, f: Fixup, rest: seq<Fixup>)
    ensures ds + StagedAll([f] + rest) == ds + [Staged(f)] + StagedAll(rest)
  {
    assert ([f] + rest)[1..] == rest;
  }

  /** The buffer keeps its leftovers and stages the unbacked fixups after them; it never fails. */
  lemma {:induction false} FollowStage(info: MachInfo, b: Buffer, fs: seq<Fixup>)
    requires WellFormedSegments(info, |b.work|) && AllPlaced(info, fs)
    ensures var r := PatchBufferAll(info, b, fs); r.Success? && r.value.deferred == b.deferred + StagedAll(Unbacked(info, fs))
    decreases |fs|
  {
    if fs != [] {
      UnbackedFirst(info, fs);
      BufferFirst(info, b, fs);
      FollowStage(info, Stepped(info, b, fs[0]), fs[1..]);
      var rest := Unbacked(info, fs[1..]);
      if Backed(info, fs[0]) {
        assert [] + rest == rest;
      } else {
        StageFirst(b.deferred, fs[0], rest);
      }
    }
  }

  /** Draining the staged fixups writes them in order. */
  lemma {:induction false} DrainStaged(info: MachInfo, fileLen: nat, d: seq<byte>, fs: seq<Fixup>)
    requires WellFormedSegments(info, fileLen) && AllPlaced(info, fs) && |d| == Span(info)
    ensures Fits(info, |d|, fs) && WriteDeferredAll(d, info, StagedAll(fs)) == Success(StageList(info, d, fs))
    decreases |fs|
  {
    AllFit(info, fileLen, fs);
    if fs != [] {
      StagedOnce(info, fileLen, d, fs[0]);
      DrainStaged(info, fileLen, Splice(d, Slot(info, fs[0]), LittleEndian(fs[0].value, 8)), fs[1..]);
      assert StagedAll(fs)[1..] == StagedAll(fs[1..]);
    }
  }

  lemma {:induction false} DrainAppend(m: seq<byte>, info: MachInfo, ds: seq<Deferred>, es: seq<Deferred>)
    ensures WriteDeferredAll(m, info, ds + es) ==
            (match WriteDeferredAll(m, info, ds) case Failure(e) => Failure(e) case Success(mid) => WriteDeferredAll(mid, info, es))
    decreases |ds|
  {
    if ds == [] {
      assert ds + es == es;
    } else {
      assert (ds + es)[1..] == ds[1..] + es;
      var next := WriteDeferred(m, info.segments, info.base, ds[0]);
      if next.Success? { DrainAppend(next.value, info, ds[1..], es); }
    }
  }

  /** Buffer and mapping stay parallel through every fixup, `mu` taking only the unbacked ones. */
  lemma {:induction false} Follow(info: MachInfo, all: seq<Fixup>, file: seq<byte>, b: Buffer, m: seq<byte>, mu: seq<byte>, fs: seq<Fixup>)
    requires WellFormedSegments(info, |file|) && Clear(info, all) && (forall f :: f in fs ==> f in all)
    requires Parallel(info, all, file, b.work, m, mu)
    ensures Fits(info, |mu|, Unbacked(info, fs))
    ensures var b', m' := PatchBufferAll(info, b, fs), PatchMappingAll(info, m, fs);
            && b'.Success? && m'.Success?
            && Parallel(info, all, file, b'.value.work, m'.value, PatchList(info, mu, Unbacked(info, fs)))
    decreases |fs|
  {
    AllFit(info, |file|, Unbacked(info, fs));
    if fs != [] {
      var f, rest := fs[0], fs[1..];
      assert f in all && AllPlaced(info, fs);
      UnbackedFirst(info, fs);
      MappingFirst(info, |file|, m, fs);
      BufferFirst(info, b, fs);
      var next, m' := Stepped(info, b, f), PatchAt(f, m, Slot(info, f));
      if Backed(info, f) {
        FollowBacked(info, all, file, b.work, m, mu, f);
        Follow(info, all, file, next, m', mu, rest);
        assert [] + Unbacked(info, rest) == Unbacked(info, rest);
      } else {
        FollowUnbacked(info, all, file, b.work, m, mu, f);
        Follow(info, all, file, next, m', PatchAt(f, mu, Slot(info, f)), rest);
        PatchFirst(info, mu, f, Unbacked(info, rest));
      }
    }
  }

  lemma PatchFirst(info: MachInfo, m: seq<byte>, f: Fixup, fs: seq<Fixup>)
    requires Fits(info, |m|, [f] + fs)
    ensures f in [f] + fs && Fits(info, |m|, fs)
    ensures PatchList(info, m, [f] + fs) == PatchList(info, PatchAt(f, m, Slot(info, f)), fs)
  {
    assert ([f] + fs)[1..] == fs && ([f] + fs)[0] == f;
    assert forall g :: g in fs ==> g in [f] + fs;
  }

  // ── rewriting the text ───────────────────────────────────────────────────

  /** Rewriting `__text` in the buffer and in the mapping keeps them parallel. */
  lemma NeutralizeParallel(info: MachInfo, all: seq<Fixup>, file: seq<byte>, work: seq<byte>, m: seq<byte>, mu: seq<byte>, w: seq<byte>, n: seq<byte>)
    requires WellFormedSegments(info, |file|) && WellFormedText(info) && Clear(info, all)
    requires Parallel(info, all, file, work, m, mu)
    requires TextNeutralized(work, info.text, w) && TextNeutralized(m, info.text, n)
    ensures Parallel(info, all, file, w, n, mu)
  {
    if info.text.Text? {
      var lo, hi := info.text.off, info.text.End();
      TextBacked(info, |work|);
      forall p: nat | lo <= p < hi ensures m[p] == work[p] && !AtEdge(info, all, p) {
        TextOffEdge(info, all, p);
        assert ParallelAt(info, all, file, work, m, mu, p);
      }
      assert m[lo..hi] == work[lo..hi];
      CellLocal(work, m, lo, hi);
      CellLocal(m, work, lo, hi);
      forall p: nat | p < |m| ensures ParallelAt(info, all, file, w, n, mu, p) {
        assert ParallelAt(info, all, file, work, m, mu, p);
      }
    }
  }

  lemma TextOffEdge(info: MachInfo, all: seq<Fixup>, p: nat)
    requires Clear(info, all) && info.text.Text? && info.text.off <= p < info.text.End()
    ensures !AtEdge(info, all, p)
  {
    forall f | f in all && Straddles(info, f) ensures !InSlot(info, f, p) {
      assert OffText(info, f);
    }
  }

  // ── the comparison ───────────────────────────────────────────────────────

  /** The staged picture and the patched one agree at `p`, or the file and the patched one at an edge. */
  ghost predicate SameAt(info: MachInfo, all: seq<Fixup>, file: seq<byte>, d: seq<byte>, mu: seq<byte>, p: nat)
    requires AllPlaced(info, all) && p < |mu| == |d|
  {
    match Backing(info.segments, info.base, p)
    case None => d[p] == mu[p]
    case Some(q) => AtEdge(info, all, p) ==> q < |file| && file[q] == mu[p]
  }

  ghost predicate SamePictures(info: MachInfo, all: seq<Fixup>, file: seq<byte>, d: seq<byte>, mu: seq<byte>)
    requires AllPlaced(info, all) && |mu| == |d|
  {
    forall p: nat :: p < |mu| ==> SameAt(info, all, file, d, mu, p)
  }

  lemma Compare(info: MachInfo, all: seq<Fixup>, file: seq<byte>, w: seq<byte>, d: seq<byte>, mu: seq<byte>, m: seq<byte>, n: seq<byte>)
    requires AllPlaced(info, all) && Parallel(info, all, file, w, n, mu) && |d| == |mu|
    requires Shows(info.segments, info.base, w, d, m)
    ensures m == n <==> SamePictures(info, all, file, d, mu)
  {
    forall p: nat | p < |mu| ensures m[p] == n[p] <==> SameAt(info, all, file, d, mu, p) {
      assert ParallelAt(info, all, file, w, n, mu, p);
    }
    if SamePictures(info, all, file, d, mu) {
      forall p: nat | p < |m| ensures m[p] == n[p] {
        assert SameAt(info, all, file, d, mu, p);
      }
    }
  }

  /** What the leftovers alone leave of an empty mapping. */
  ghost function Stale(info: MachInfo, pending: seq<Deferred>): Result<seq<byte>, Error> {
    WriteDeferredAll(Zeros(Span(info)), info, pending)
  }

  /** The loads agree exactly when staging the unbacked fixups over the leftovers and patching them in memory do. */
  lemma Pictures(info: MachInfo, host: Host, file: seq<byte>, loadBase: u64, pending: seq<Deferred>, m: seq<byte>, n: seq<byte>)
    requires WellFormedSegments(info, |file|) && WellFormedText(info) && Clear(info, Fixups(info, host, loadBase))
    requires BufferImage(info, host, file, loadBase, pending, m) && MappedImage(info, host, file, loadBase, n)
    ensures var fs := Fixups(info, host, loadBase);
            var u, stale, m0 := Unbacked(info, fs), Stale(info, pending), MapInAll(Zeros(Span(info)), file, info.base, info.segments);
            && stale.Success? && m0.Success? && |stale.value| == |m0.value| == Span(info) && Fits(info, Span(info), u)
            && Shows(info.segments, info.base, file, Zeros(Span(info)), m0.value)
            && (m == n <==> SamePictures(info, fs, file, StageList(info, stale.value, u), PatchList(info, m0.value, u)))
  {
    var fs, zeros := Fixups(info, host, loadBase), Zeros(Span(info));
    var u := Unbacked(info, fs);
    AllCopyable(info, |file|);
    CopyAll(info, zeros, file, info.segments);
    var m0 := MapInAll(zeros, file, info.base, info.segments).value;
    StartParallel(info, fs, file, zeros, m0);
    Follow(info, fs, file, Buffer(file, pending), m0, m0, fs);
    FollowStage(info, Buffer(file, pending), fs);
    var b, fixed := PatchBufferAll(info, Buffer(file, pending), fs).value, PatchMappingAll(info, m0, fs).value;
    DrainAppend(zeros, info, pending, StagedAll(u));
    var stale := Stale(info, pending).value;
    DrainStaged(info, |file|, stale, u);
    var d := StageList(info, stale, u);
    var w :| TextNeutralized(b.work, info.text, w) && CopyOutAll(d, w, info.base, info.segments) == Success(m);
    NeutralizeParallel(info, fs, file, b.work, fixed, PatchList(info, m0, u), w, n);
    CopyAll(info, d, w, info.segments);
    Compare(info, fs, file, w, d, PatchList(info, m0, u), m, n);
  }

  lemma StartParallel(info: MachInfo, all: seq<Fixup>, file: seq<byte>, zeros: seq<byte>, m0: seq<byte>)
    requires AllPlaced(info, all) && Shows(info.segments, info.base, file, zeros, m0) && |zeros| == Span(info)
    ensures Parallel(info, all, file, file, m0, m0)
  {
    forall p: nat | p < |m0| ensures ParallelAt(info, all, file, file, m0, m0, p) {
    }
  }
}
