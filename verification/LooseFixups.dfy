/**
 * The fixups of slots without file bytes of their own, staged and patched: what each leaves byte by
 * byte, and the exact condition under which both leave the same.
 */
module LooseFixups {
  import opened Bytes
  import opened Rdtsc
  import opened Wrappers
  import opened MachLoader
  import opened LoadersAgree
  import opened LoaderPictures

  // ── words ────────────────────────────────────────────────────────────────

  lemma WordOfPatch(m: seq<byte>, o: nat, v: u64)
    requires o + 8 <= |m|
    ensures Word(Splice(m, o, LittleEndian(v, 8)), o) == v
  {
    var t := Splice(m, o, LittleEndian(v, 8));
    assert t[o..o + 8] == LittleEndian(v, 8);
    WordRoundTrip(v);
  }

  lemma WordElsewhere(m: seq<byte>, at: nat, bs: seq<byte>, o: nat)
    requires |bs| == 8 && at + 8 <= |m| && o + 8 <= |m| && (at + 8 <= o || o + 8 <= at)
    ensures Word(Splice(m, at, bs), o) == Word(m, o)
  {
    assert Splice(m, at, bs)[o..o + 8] == m[o..o + 8];
  }

  /** A word after `k` additions of the slide. */
  function Added(w: nat, k: nat, slide: u64): u64
    decreases k
  {
    if k == 0 then Wrap64(w) else Added(w + slide, k - 1, slide)
  }

  lemma {:induction false} AddedModulo(w: nat, x: nat, k: nat, slide: u64)
    requires Wrap64(w) == Wrap64(x)
    ensures Added(w, k, slide) == Added(x, k, slide)
    decreases k
  {
    if k > 0 {
      WrapInner(w, slide);
      WrapInner(x, slide);
      AddedModulo(w + slide, x + slide, k - 1, slide);
    }
  }

  lemma {:induction false} AddedIsProduct(w: nat, k: nat, slide: u64)
    ensures Added(w, k, slide) == Wrap64(w + k * slide)
    decreases k
  {
    if k > 0 {
      AddedIsProduct(w + slide, k - 1, slide);
      assert w + slide + (k - 1) * slide == w + k * slide;
    }
  }

  lemma WrapInner(a: nat, b: nat)
    ensures Wrap64(Wrap64(a) + b) == Wrap64(a + b)
  {
  }

  // ── rebases of unbacked slots ────────────────────────────────────────────

  /** How many of `fs` are at slot `o`. */
  ghost function Count(info: MachInfo, fs: seq<Fixup>, o: int): nat
    requires AllPlaced(info, fs)
  {
    if fs == [] then 0
    else
    assert fs[0] in fs && forall f :: f in fs[1..] ==> f in fs;
    (if Slot(info, fs[0]) == o then 1 else 0) + Count(info, fs[1..], o)
  }

  lemma {:induction false} CountPositive(info: MachInfo, fs: seq<Fixup>, f: Fixup)
    requires AllPlaced(info, fs) && f in fs
    ensures Count(info, fs, Slot(info, f)) > 0
  {
    if f != fs[0] { CountPositive(info, fs[1..], f); }
  }

  ghost predicate AllAdd(fs: seq<Fixup>, slide: u64) { forall f :: f in fs ==> f.rebase && f.value == slide }

  /** Every slot of `fs` is the eight bytes at `o`, or apart from them. */
  ghost predicate Aligned(info: MachInfo, fs: seq<Fixup>, o: int)
    requires AllPlaced(info, fs)
  {
    forall f :: f in fs ==> Slot(info, f) == o || Slot(info, f) + 8 <= o || o + 8 <= Slot(info, f)
  }

  lemma WordBound(m: seq<byte>, o: nat)
    requires o + 8 <= |m|
    ensures Word(m, o) < 0x1_0000_0000_0000_0000
  {
    Pow256Eight();
    FromLittleEndianBound(m[o..o + 8]);
  }

  /** One rebase at `o` itself, or at a slot apart from it. */
  lemma OneRebase(info: MachInfo, m: seq<byte>, f: Fixup, slide: u64, o: nat)
    requires Placed(info, f) && 0 <= Slot(info, f) <= |m| - 8 && o + 8 <= |m| && f.rebase && f.value == slide
    requires Slot(info, f) == o || Slot(info, f) + 8 <= o || o + 8 <= Slot(info, f)
    ensures Word(PatchAt(f, m, Slot(info, f)), o) == if Slot(info, f) == o then Wrap64(Word(m, o) + slide) else Word(m, o)
  {
    var at := Slot(info, f);
    if at == o {
      WordOfPatch(m, o, Wrap64(Word(m, o) + slide));
    } else {
      WordElsewhere(m, at, LittleEndian(Patched(f, Word(m, at)), 8), o);
    }
  }

  lemma CountFirst(info: MachInfo, fs: seq<Fixup>, o: int)
    requires AllPlaced(info, fs) && fs != []
    ensures Placed(info, fs[0]) && AllPlaced(info, fs[1..])
    ensures Count(info, fs, o) == (if Slot(info, fs[0]) == o then 1 else 0) + Count(info, fs[1..], o)
  {
    assert fs[0] in fs;
  }

  lemma AddedNext(w: nat, w': u64, here: bool, c: nat, slide: u64)
    requires w' == if here then Wrap64(w + slide) else w
    ensures Added(w', c, slide) == Added(w, (if here then 1 else 0) + c, slide)
  {
    if here { AddedModulo(w', w + slide, c, slide); }
  }

  /** In memory, every rebase of a slot adds the slide once more. */
  lemma {:induction false} RebaseWord(info: MachInfo, m: seq<byte>, fs: seq<Fixup>, slide: u64, o: nat)
    requires Fits(info, |m|, fs) && AllAdd(fs, slide) && o + 8 <= |m| && Aligned(info, fs, o)
    ensures Word(PatchList(info, m, fs), o) == Added(Word(m, o), Count(info, fs, o), slide)
    decreases |fs|
  {
    WordBound(m, o);
    if fs != [] {
      RestAligned(info, |m|, fs, slide, o);
      var f, rest := fs[0], fs[1..];
      OneRebase(info, m, f, slide, o);
      var m' := PatchAt(f, m, Slot(info, f));
      WordBound(m', o);
      RebaseWord(info, m', rest, slide, o);
      AddedNext(Word(m, o), Word(m', o), Slot(info, f) == o, Count(info, rest, o), slide);
    }
  }

  lemma RestAligned(info: MachInfo, len: nat, fs: seq<Fixup>, slide: u64, o: int)
    requires Fits(info, len, fs) && AllAdd(fs, slide) && Aligned(info, fs, o) && fs != []
    ensures Placed(info, fs[0]) && 0 <= Slot(info, fs[0]) <= len - 8 && fs[0].rebase && fs[0].value == slide
    ensures Slot(info, fs[0]) == o || Slot(info, fs[0]) + 8 <= o || o + 8 <= Slot(info, fs[0])
    ensures Fits(info, len, fs[1..]) && AllAdd(fs[1..], slide) && Aligned(info, fs[1..], o)
    ensures Count(info, fs, o) == (if Slot(info, fs[0]) == o then 1 else 0) + Count(info, fs[1..], o)
  {
    assert fs[0] in fs && forall g :: g in fs[1..] ==> g in fs;
  }

  /** Staged, every rebase of a slot writes the slide over it. */
  lemma {:induction false} RebaseStage(info: MachInfo, d: seq<byte>, fs: seq<Fixup>, slide: u64, o: nat)
    requires Fits(info, |d|, fs) && AllAdd(fs, slide) && o + 8 <= |d| && Aligned(info, fs, o)
    ensures Count(info, fs, o) == 0 ==> StageList(info, d, fs)[o..o + 8] == d[o..o + 8]
    ensures Count(info, fs, o) > 0 ==> StageList(info, d, fs)[o..o + 8] == LittleEndian(slide, 8)
    decreases |fs|
  {
    if fs != [] {
      var f, rest := fs[0], fs[1..];
      assert f in fs && forall g :: g in rest ==> g in fs;
      var d' := Splice(d, Slot(info, f), LittleEndian(slide, 8));
      RebaseStage(info, d', rest, slide, o);
      if Slot(info, f) == o {
        assert d'[o..o + 8] == LittleEndian(slide, 8);
      } else {
        assert d'[o..o + 8] == d[o..o + 8];
      }
    }
  }

  // ── bytes no slot covers, and bytes binds cover ──────────────────────────

  ghost predicate Touched(info: MachInfo, fs: seq<Fixup>, p: nat)
    requires AllPlaced(info, fs)
  {
    exists f :: f in fs && InSlot(info, f, p)
  }

  lemma {:induction false} Untouched(info: MachInfo, m: seq<byte>, d: seq<byte>, fs: seq<Fixup>, p: nat)
    requires Fits(info, |m|, fs) && |d| == |m| && p < |m|
    requires !Touched(info, fs, p)
    ensures PatchList(info, m, fs)[p] == m[p] && StageList(info, d, fs)[p] == d[p]
    decreases |fs|
  {
    if fs != [] {
      var f, rest := fs[0], fs[1..];
      assert f in fs && !InSlot(info, f, p) && forall g :: g in rest ==> g in fs;
      Untouched(info, PatchAt(f, m, Slot(info, f)), Splice(d, Slot(info, f), LittleEndian(f.value, 8)), rest, p);
    }
  }

  ghost predicate AllBinds(fs: seq<Fixup>) { forall f :: f in fs ==> !f.rebase }

  /** The byte the last of `fs` to cover `p` writes there. */
  ghost function LastByte(info: MachInfo, fs: seq<Fixup>, p: nat): Option<byte>
    requires AllPlaced(info, fs)
    decreases |fs|
  {
    if fs == [] then None
    else
    assert fs[0] in fs && forall f :: f in fs[1..] ==> f in fs;
    match LastByte(info, fs[1..], p)
    case Some(b) => Some(b)
    case None => if InSlot(info, fs[0], p) then Some(LittleEndian(fs[0].value, 8)[p - Slot(info, fs[0])]) else None
  }

  /** Binds read nothing: patched or staged, the last one to cover a byte decides it. */
  lemma {:induction false} BindByte(info: MachInfo, m: seq<byte>, fs: seq<Fixup>, p: nat)
    requires Fits(info, |m|, fs) && AllBinds(fs) && p < |m|
    ensures PatchList(info, m, fs) == StageList(info, m, fs)
    ensures PatchList(info, m, fs)[p] == match LastByte(info, fs, p) case Some(b) => b case None => m[p]
    decreases |fs|
  {
    if fs != [] {
      var f, rest := fs[0], fs[1..];
      assert f in fs && forall g :: g in rest ==> g in fs;
      BindByte(info, PatchAt(f, m, Slot(info, f)), rest, p);
    }
  }

  lemma {:induction false} PatchAppend(info: MachInfo, m: seq<byte>, a: seq<Fixup>, b: seq<Fixup>)
    requires Fits(info, |m|, a) && Fits(info, |m|, b)
    ensures Fits(info, |m|, a + b) && PatchList(info, m, a + b) == PatchList(info, PatchList(info, m, a), b)
    decreases |a|
  {
    if a == [] {
      assert a + b == b;
    } else {
      assert a[0] in a && (a + b)[1..] == a[1..] + b && forall g :: g in a[1..] ==> g in a;
      PatchAppend(info, PatchAt(a[0], m, Slot(info, a[0])), a[1..], b);
    }
  }

  lemma {:induction false} StageAppend(info: MachInfo, d: seq<byte>, a: seq<Fixup>, b: seq<Fixup>)
    requires Fits(info, |d|, a) && Fits(info, |d|, b)
    ensures Fits(info, |d|, a + b) && StageList(info, d, a + b) == StageList(info, StageList(info, d, a), b)
    decreases |a|
  {
    if a == [] {
      assert a + b == b;
    } else {
      assert a[0] in a && (a + b)[1..] == a[1..] + b && forall g :: g in a[1..] ==> g in a;
      StageAppend(info, Splice(d, Slot(info, a[0]), LittleEndian(a[0].value, 8)), a[1..], b);
    }
  }

  lemma {:induction false} UnbackedAppend(info: MachInfo, a: seq<Fixup>, b: seq<Fixup>)
    requires AllPlaced(info, a) && AllPlaced(info, b) && AllPlaced(info, a + b)
    ensures Unbacked(info, a + b) == Unbacked(info, a) + Unbacked(info, b)
    decreases |a|
  {
    if a == [] {
      assert a + b == b;
    } else {
      var rest := a[1..];
      UnbackedFirst(info, a);
      assert (a + b)[1..] == rest + b && (a + b)[0] == a[0];
      UnbackedFirst(info, a + b);
      UnbackedAppend(info, rest, b);
      Associates(if Backed(info, a[0]) then [] else [a[0]], Unbacked(info, rest), Unbacked(info, b));
    }
  }

  lemma Associates(a: seq<Fixup>, b: seq<Fixup>, c: seq<Fixup>)
    ensures a + (b + c) == a + b + c
  {
  }

  // ── the exact condition ──────────────────────────────────────────────────

  /** How many bytes of the slot are file bytes. */
  ghost function FrontLen(info: MachInfo, f: Fixup): nat
    requires Placed(info, f)
  {
    var s := Find(info.segments, f.segment).value;
    if f.segOff < s.filesize then s.filesize - f.segOff else 0
  }

  /** Those file bytes. */
  ghost function FileFront(info: MachInfo, file: seq<byte>, f: Fixup): seq<byte>
    requires Placed(info, f)
  {
    if FilePos(info, f) + FrontLen(info, f) <= |file| then file[FilePos(info, f)..FilePos(info, f) + FrontLen(info, f)] else []
  }

  /** An unbacked slot: its front is backed by its own file bytes, the rest by nothing. */
  lemma SlotPosition(info: MachInfo, file: seq<byte>, f: Fixup, p: nat)
    requires WellFormedSegments(info, |file|) && Placed(info, f) && !Backed(info, f) && InSlot(info, f, p)
    ensures FrontLen(info, f) < 8 && |FileFront(info, file, f)| == FrontLen(info, f)
    ensures var i := p - Slot(info, f);
            && Backing(info.segments, info.base, p) == (if i < FrontLen(info, f) then Some(FilePos(info, f) + i) else None)
            && (i < FrontLen(info, f) ==> FilePos(info, f) + i < |file| && FileFront(info, file, f)[i] == file[FilePos(info, f) + i])
    ensures FrontLen(info, f) > 0 ==> Straddles(info, f)
  {
    var s := Find(info.segments, f.segment).value;
    assert WellFormedSegment(info, s, |file|);
    BackingInside(info, |file|, s, p);
  }

  lemma {:induction false} ZeroTail(front: seq<byte>, k: nat)
    ensures FromLittleEndian(front + Zeros(k)) == FromLittleEndian(front)
    decreases |front|
  {
    if front == [] {
      assert front + Zeros(k) == Zeros(k);
      ZeroWord(Zeros(k));
    } else {
      assert (front + Zeros(k))[1..] == front[1..] + Zeros(k);
      ZeroTail(front[1..], k);
    }
  }

  lemma SlotByte(info: MachInfo, file: seq<byte>, m0: seq<byte>, f: Fixup, p: nat)
    requires WellFormedSegments(info, |file|) && Placed(info, f) && !Backed(info, f) && InSlot(info, f, p)
    requires p < |m0| == Span(info) && Shows(info.segments, info.base, file, Zeros(Span(info)), m0)
    ensures |FileFront(info, file, f)| == FrontLen(info, f) < 8
    ensures m0[p] == (FileFront(info, file, f) + Zeros(8 - FrontLen(info, f)))[p - Slot(info, f)]
  {
    SlotPosition(info, file, f, p);
  }

  lemma WordIs(m: seq<byte>, o: nat, bs: seq<byte>)
    requires o + 8 <= |m| && |bs| == 8 && forall p: nat :: o <= p < o + 8 ==> m[p] == bs[p - o]
    ensures Word(m, o) == FromLittleEndian(bs)
  {
    assert m[o..o + 8] == bs;
  }

  /** What an unbacked slot holds before any fixup: its file bytes, then zeros. */
  lemma SlotStart(info: MachInfo, file: seq<byte>, m0: seq<byte>, f: Fixup)
    requires WellFormedSegments(info, |file|) && Placed(info, f) && !Backed(info, f)
    requires |m0| == Span(info) && Shows(info.segments, info.base, file, Zeros(Span(info)), m0)
    ensures 0 <= Slot(info, f) <= |m0| - 8
    ensures Word(m0, Slot(info, f)) == FromLittleEndian(FileFront(info, file, f))
  {
    SlotBounds(info, |file|, f);
    var o, c, front := Slot(info, f), FrontLen(info, f), FileFront(info, file, f);
    SlotByte(info, file, m0, f, o);
    forall p: nat | o <= p < o + 8 ensures m0[p] == (front + Zeros(8 - c))[p - o] {
      SlotByte(info, file, m0, f, p);
    }
    WordIs(m0, o, front + Zeros(8 - c));
    ZeroTail(front, 8 - c);
  }

  /** The unbacked rebases, the unbacked binds, and the one slide of an image. */
  datatype Loose = Loose(rebases: seq<Fixup>, binds: seq<Fixup>, slide: u64)

  /** What every rebase adds. */
  function Slide(info: MachInfo, loadBase: u64): u64 { Wrap64(loadBase - info.base) }

  ghost function LooseOf(info: MachInfo, host: Host, loadBase: u64): Loose
    requires AllPlaced(info, Fixups(info, host, loadBase))
  {
    assert forall f :: f in RebaseFixups(info, loadBase) ==> f in Fixups(info, host, loadBase);
    assert forall f :: f in BindFixups(info, host) ==> f in Fixups(info, host, loadBase);
    Loose(Unbacked(info, RebaseFixups(info, loadBase)), Unbacked(info, BindFixups(info, host)), Slide(info, loadBase))
  }

  /** They are the unbacked fixups of `fs`, and all rebases add the one slide. */
  ghost predicate LooseMembers(info: MachInfo, fs: seq<Fixup>, l: Loose)
    requires AllPlaced(info, fs)
  {
    && AllAdd(l.rebases, l.slide) && AllBinds(l.binds)
    && (forall f :: f in l.rebases || f in l.binds ==> f in fs && !Backed(info, f))
    && (forall f :: f in fs && !Backed(info, f) ==> f in l.rebases || f in l.binds)
  }

  ghost predicate LoosePlaced(info: MachInfo, l: Loose) { AllPlaced(info, l.rebases) && AllPlaced(info, l.binds) }

  /** The word a rebased slot ends with in memory, before any bind. */
  ghost function FinalWord(info: MachInfo, file: seq<byte>, l: Loose, r: Fixup): u64
    requires LoosePlaced(info, l) && Placed(info, r)
  {
    Added(FromLittleEndian(FileFront(info, file, r)), Count(info, l.rebases, Slot(info, r)), l.slide)
  }

  /** Byte `i` of `bs` is that of `front`, or past it that of `whole`. */
  ghost predicate FrontThen(bs: seq<byte>, front: seq<byte>, whole: seq<byte>, i: nat)
    requires i < |bs| == |whole|
  {
    bs[i] == if i < |front| then front[i] else whole[i]
  }

  ghost predicate AllFrontThen(bs: seq<byte>, front: seq<byte>, whole: seq<byte>) {
    |bs| == |whole| && forall i: nat :: i < |bs| ==> FrontThen(bs, front, whole, i)
  }

  ghost predicate WordAgrees(v: u64, front: seq<byte>, slide: u64, i: nat)
    requires i < 8
  {
    FrontThen(LittleEndian(v, 8), front, LittleEndian(slide, 8), i)
  }

  /** Byte `p` of a rebased slot: memory's byte is the file's in the slot's front, and the slide's past it. */
  ghost predicate AgreesAt(info: MachInfo, file: seq<byte>, l: Loose, r: Fixup, p: nat)
    requires LoosePlaced(info, l) && Placed(info, r) && InSlot(info, r, p)
  {
    && |FileFront(info, file, r)| == FrontLen(info, r)
    && WordAgrees(FinalWord(info, file, l, r), FileFront(info, file, r), l.slide, p - Slot(info, r))
  }

  /** Every byte of a rebased unbacked slot that no bind covers agrees. */
  ghost predicate RebasesAgree(info: MachInfo, file: seq<byte>, l: Loose)
    requires LoosePlaced(info, l)
  {
    forall r, p: nat :: r in l.rebases && InSlot(info, r, p) && LastByte(info, l.binds, p) == None ==>
      AgreesAt(info, file, l, r, p)
  }

  /** Where a bind covers a file byte of a straddling slot, the file already holds the bind's byte. */
  ghost predicate EdgesAgree(info: MachInfo, file: seq<byte>, fs: seq<Fixup>, binds: seq<Fixup>)
    requires AllPlaced(info, fs) && AllPlaced(info, binds)
  {
    forall p: nat :: AtEdge(info, fs, p) && LastByte(info, binds, p).Some? ==> EdgeByteAgrees(info, file, binds, p)
  }

  ghost predicate EdgeByteAgrees(info: MachInfo, file: seq<byte>, binds: seq<Fixup>, p: nat)
    requires AllPlaced(info, binds) && LastByte(info, binds, p).Some?
  {
    match Backing(info.segments, info.base, p) case None => true case Some(q) => q < |file| && file[q] == LastByte(info, binds, p).value
  }

  /** The leftovers leave zero wherever there is no file byte and no own slot. */
  ghost predicate StaleHarmless(info: MachInfo, stale: seq<byte>, l: Loose)
    requires LoosePlaced(info, l)
  {
    forall p: nat :: p < |stale| && Backing(info.segments, info.base, p) == None && !Touched(info, l.rebases, p) && !Touched(info, l.binds, p) ==>
      stale[p] == 0
  }

  ghost predicate FixupsHarmless(info: MachInfo, file: seq<byte>, fs: seq<Fixup>, l: Loose)
    requires AllPlaced(info, fs) && LoosePlaced(info, l)
  {
    RebasesAgree(info, file, l) && EdgesAgree(info, file, fs, l.binds)
  }

  ghost predicate Harmless(info: MachInfo, host: Host, file: seq<byte>, loadBase: u64, stale: seq<byte>)
    requires AllPlaced(info, Fixups(info, host, loadBase))
  {
    var l := LooseOf(info, host, loadBase);
    FixupsHarmless(info, file, Fixups(info, host, loadBase), l) && StaleHarmless(info, stale, l)
  }

  /** What is known of the two pictures of the unbacked slots. */
  ghost predicate Known(info: MachInfo, file: seq<byte>, fs: seq<Fixup>, l: Loose, stale: seq<byte>, m0: seq<byte>)
    requires AllPlaced(info, fs)
  {
    && WellFormedSegments(info, |file|) && |stale| == |m0| == Span(info)
    && Fits(info, |m0|, l.rebases) && Fits(info, |m0|, l.binds)
    && LooseMembers(info, fs, l)
    && Shows(info.segments, info.base, file, Zeros(Span(info)), m0)
  }

  /** The rebases that cover `p` meet no other rebase halfway. */
  ghost predicate AlignedAt(info: MachInfo, fs: seq<Fixup>, p: nat)
    requires AllPlaced(info, fs)
  {
    forall r :: r in fs && InSlot(info, r, p) ==> Aligned(info, fs, Slot(info, r))
  }

  ghost function StagedPicture(info: MachInfo, l: Loose, stale: seq<byte>): seq<byte>
    requires Fits(info, |stale|, l.rebases) && Fits(info, |stale|, l.binds)
  {
    StageList(info, StageList(info, stale, l.rebases), l.binds)
  }

  ghost function PatchedPicture(info: MachInfo, l: Loose, m0: seq<byte>): seq<byte>
    requires Fits(info, |m0|, l.rebases) && Fits(info, |m0|, l.binds)
  {
    PatchList(info, PatchList(info, m0, l.rebases), l.binds)
  }

  /** A byte some bind covers: the last such bind decides it in both pictures. */
  lemma BoundByte(info: MachInfo, file: seq<byte>, fs: seq<Fixup>, l: Loose, stale: seq<byte>, m0: seq<byte>, p: nat)
    requires AllPlaced(info, fs) && Known(info, file, fs, l, stale, m0) && p < |m0|
    ensures match LastByte(info, l.binds, p)
            case Some(b) => StagedPicture(info, l, stale)[p] == b && PatchedPicture(info, l, m0)[p] == b
            case None => StagedPicture(info, l, stale)[p] == StageList(info, stale, l.rebases)[p]
                         && PatchedPicture(info, l, m0)[p] == PatchList(info, m0, l.rebases)[p]
  {
    BindByte(info, StageList(info, stale, l.rebases), l.binds, p);
    BindByte(info, PatchList(info, m0, l.rebases), l.binds, p);
  }

  lemma StagedByte(info: MachInfo, l: Loose, stale: seq<byte>, r: Fixup, p: nat)
    requires Fits(info, |stale|, l.rebases) && AllAdd(l.rebases, l.slide) && r in l.rebases && Aligned(info, l.rebases, Slot(info, r))
    requires InSlot(info, r, p) && p < |stale|
    ensures StageList(info, stale, l.rebases)[p] == LittleEndian(l.slide, 8)[p - Slot(info, r)]
  {
    CountPositive(info, l.rebases, r);
    RebaseStage(info, stale, l.rebases, l.slide, Slot(info, r));
    ByteOf(StageList(info, stale, l.rebases), Slot(info, r), LittleEndian(l.slide, 8), p);
  }

  lemma PatchedByte(info: MachInfo, file: seq<byte>, l: Loose, m0: seq<byte>, r: Fixup, p: nat)
    requires LoosePlaced(info, l) && Fits(info, |m0|, l.rebases) && AllAdd(l.rebases, l.slide) && r in l.rebases
    requires Aligned(info, l.rebases, Slot(info, r)) && InSlot(info, r, p) && p < |m0|
    requires Word(m0, Slot(info, r)) == FromLittleEndian(FileFront(info, file, r))
    ensures PatchList(info, m0, l.rebases)[p] == LittleEndian(FinalWord(info, file, l, r), 8)[p - Slot(info, r)]
  {
    RebaseWord(info, m0, l.rebases, l.slide, Slot(info, r));
    ByteOfWord(PatchList(info, m0, l.rebases), Slot(info, r), FinalWord(info, file, l, r), p);
  }

  /** A byte of a rebased slot, before the binds. */
  lemma RebasedByte(info: MachInfo, file: seq<byte>, fs: seq<Fixup>, l: Loose, stale: seq<byte>, m0: seq<byte>, r: Fixup, p: nat)
    requires AllPlaced(info, fs) && Known(info, file, fs, l, stale, m0) && r in l.rebases && InSlot(info, r, p) && p < |m0|
    requires AlignedAt(info, l.rebases, p)
    ensures StageList(info, stale, l.rebases)[p] == LittleEndian(l.slide, 8)[p - Slot(info, r)]
    ensures PatchList(info, m0, l.rebases)[p] == LittleEndian(FinalWord(info, file, l, r), 8)[p - Slot(info, r)]
  {
    StagedByte(info, l, stale, r, p);
    SlotStart(info, file, m0, r);
    PatchedByte(info, file, l, m0, r, p);
  }

  lemma ByteOf(m: seq<byte>, o: nat, bs: seq<byte>, p: nat)
    requires o + 8 <= |m| && |bs| == 8 && m[o..o + 8] == bs && o <= p < o + 8
    ensures m[p] == bs[p - o]
  {
    assert m[p] == m[o..o + 8][p - o];
  }

  lemma ByteOfWord(m: seq<byte>, o: nat, w: nat, p: nat)
    requires o + 8 <= |m| && Word(m, o) == w && o <= p < o + 8
    ensures m[p] == LittleEndian(w, 8)[p - o]
  {
    BytesRoundTrip(m[o..o + 8]);
    ByteOf(m, o, LittleEndian(w, 8), p);
  }

  lemma {:induction false} NoLastByte(info: MachInfo, fs: seq<Fixup>, p: nat)
    requires AllPlaced(info, fs)
    ensures LastByte(info, fs, p) == None <==> !Touched(info, fs, p)
  {
    if fs != [] {
      assert fs[0] in fs;
      NoLastByte(info, fs[1..], p);
      if Touched(info, fs, p) && !InSlot(info, fs[0], p) {
        var f :| f in fs && InSlot(info, f, p);
        assert f in fs[1..];
      }
    }
  }

  /** The three conditions at one position. */
  ghost predicate HarmlessAt(info: MachInfo, file: seq<byte>, fs: seq<Fixup>, l: Loose, stale: seq<byte>, p: nat)
    requires AllPlaced(info, fs) && LoosePlaced(info, l) && p < |stale|
  {
    && (forall r :: r in l.rebases && InSlot(info, r, p) && LastByte(info, l.binds, p) == None ==>
          AgreesAt(info, file, l, r, p))
    && (AtEdge(info, fs, p) && LastByte(info, l.binds, p).Some? ==> EdgeByteAgrees(info, file, l.binds, p))
    && (Backing(info.segments, info.base, p) == None && !Touched(info, l.rebases, p) && !Touched(info, l.binds, p) ==> stale[p] == 0)
  }

  lemma PositionExact(info: MachInfo, file: seq<byte>, fs: seq<Fixup>, l: Loose, stale: seq<byte>, m0: seq<byte>, p: nat)
    requires AllPlaced(info, fs) && Known(info, file, fs, l, stale, m0) && p < |m0|
    requires AlignedAt(info, l.rebases, p)
    ensures SameAt(info, fs, file, StagedPicture(info, l, stale), PatchedPicture(info, l, m0), p) <==> HarmlessAt(info, file, fs, l, stale, p)
  {
    BoundByte(info, file, fs, l, stale, m0, p);
    NoLastByte(info, l.binds, p);
    if LastByte(info, l.binds, p).Some? {
    } else if Touched(info, l.rebases, p) {
      RebasedPosition(info, file, fs, l, stale, m0, p);
    } else {
      Untouched(info, m0, stale, l.rebases, p);
    }
  }

  lemma RebasedPosition(info: MachInfo, file: seq<byte>, fs: seq<Fixup>, l: Loose, stale: seq<byte>, m0: seq<byte>, p: nat)
    requires AllPlaced(info, fs) && Known(info, file, fs, l, stale, m0) && p < |m0|
    requires LastByte(info, l.binds, p) == None && Touched(info, l.rebases, p)
    requires AlignedAt(info, l.rebases, p)
    ensures SameAt(info, fs, file, StageList(info, stale, l.rebases), PatchList(info, m0, l.rebases), p) <==> HarmlessAt(info, file, fs, l, stale, p)
  {
    ghost var same := SameAt(info, fs, file, StageList(info, stale, l.rebases), PatchList(info, m0, l.rebases), p);
    forall r | r in l.rebases && InSlot(info, r, p) ensures same <==> AgreesAt(info, file, l, r, p) {
      RebasedSame(info, file, fs, l, stale, m0, r, p);
    }
    AllOrNone(info, file, fs, l, stale, p, same);
  }

  /** All the rebases that cover `p` say the same of it. */
  lemma AllOrNone(info: MachInfo, file: seq<byte>, fs: seq<Fixup>, l: Loose, stale: seq<byte>, p: nat, same: bool)
    requires AllPlaced(info, fs) && LoosePlaced(info, l) && p < |stale|
    requires LastByte(info, l.binds, p) == None && Touched(info, l.rebases, p)
    requires forall r :: r in l.rebases && InSlot(info, r, p) ==> (same <==> AgreesAt(info, file, l, r, p))
    ensures same <==> HarmlessAt(info, file, fs, l, stale, p)
  {
  }

  lemma RebasedSame(info: MachInfo, file: seq<byte>, fs: seq<Fixup>, l: Loose, stale: seq<byte>, m0: seq<byte>, r: Fixup, p: nat)
    requires AllPlaced(info, fs) && Known(info, file, fs, l, stale, m0) && p < |m0| && r in l.rebases && InSlot(info, r, p)
    requires AlignedAt(info, l.rebases, p)
    ensures SameAt(info, fs, file, StageList(info, stale, l.rebases), PatchList(info, m0, l.rebases), p) <==> AgreesAt(info, file, l, r, p)
  {
    SlotPosition(info, file, r, p);
    RebasedByte(info, file, fs, l, stale, m0, r, p);
    SameFrom(info, file, fs, r, StageList(info, stale, l.rebases), PatchList(info, m0, l.rebases), p);
  }

  /** The two pictures at a byte of an unbacked slot: memory against the file in the front, against the stage past it. */
  lemma SameFrom(info: MachInfo, file: seq<byte>, fs: seq<Fixup>, r: Fixup, d: seq<byte>, mu: seq<byte>, p: nat)
    requires WellFormedSegments(info, |file|) && AllPlaced(info, fs) && r in fs && !Backed(info, r) && InSlot(info, r, p) && p < |d| == |mu|
    ensures |FileFront(info, file, r)| == FrontLen(info, r)
    ensures SameAt(info, fs, file, d, mu, p) <==>
            var i := p - Slot(info, r); mu[p] == if i < FrontLen(info, r) then FileFront(info, file, r)[i] else d[p]
  {
    SlotPosition(info, file, r, p);
    if p - Slot(info, r) < FrontLen(info, r) { EdgeOf(info, fs, r, p); }
  }

  lemma EdgeOf(info: MachInfo, fs: seq<Fixup>, f: Fixup, p: nat)
    requires AllPlaced(info, fs) && f in fs && Straddles(info, f) && InSlot(info, f, p)
    ensures AtEdge(info, fs, p)
  {
  }
}
