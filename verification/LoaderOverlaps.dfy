/** Two rebases of unbacked slots that overlap in part: exactly when the two loaders agree. */
module LoaderOverlaps {
  import opened Bytes
  import opened Wrappers
  import opened MachLoader
  import opened LoadersAgree
  import opened LoaderPictures
  import opened LooseFixups
  import opened LoaderLimits

  ghost predicate AtPair(info: MachInfo, f: Fixup, g: Fixup, h: Fixup)
    requires Placed(info, f) && Placed(info, g) && Placed(info, h)
  {
    Slot(info, h) == Slot(info, f) || Slot(info, h) == Slot(info, g)
  }

  ghost predicate OffPair(info: MachInfo, f: Fixup, g: Fixup, h: Fixup)
    requires Placed(info, f) && Placed(info, g) && Placed(info, h)
  {
    SlotsApart(info, h, f) && SlotsApart(info, h, g)
  }

  ghost predicate InPair(info: MachInfo, f: Fixup, g: Fixup, p: nat)
    requires Placed(info, f) && Placed(info, g)
  {
    InSlot(info, f, p) || InSlot(info, g, p)
  }

  /** The fixups of `fs` at the slots of `f` and `g`, in order. */
  ghost function PairOf(info: MachInfo, f: Fixup, g: Fixup, fs: seq<Fixup>): (r: seq<Fixup>)
    requires Placed(info, f) && Placed(info, g) && AllPlaced(info, fs)
    ensures forall h :: h in r ==> h in fs
  {
    if fs == [] then [] else
    assert fs[0] in fs && forall h :: h in fs[1..] ==> h in fs;
    (if AtPair(info, f, g, fs[0]) then [fs[0]] else []) + PairOf(info, f, g, fs[1..])
  }

  ghost predicate SameOnPair(info: MachInfo, f: Fixup, g: Fixup, a: seq<byte>, b: seq<byte>)
    requires Placed(info, f) && Placed(info, g)
  {
    |a| == |b| && forall p: nat :: p < |a| && InPair(info, f, g, p) ==> a[p] == b[p]
  }

  ghost predicate PairAlone(info: MachInfo, f: Fixup, g: Fixup, fs: seq<Fixup>)
    requires Placed(info, f) && Placed(info, g) && AllPlaced(info, fs)
  {
    forall h :: h in fs ==> AtPair(info, f, g, h) || OffPair(info, f, g, h)
  }

  lemma PairFirst(info: MachInfo, f: Fixup, g: Fixup, fs: seq<Fixup>, len: nat)
    requires Placed(info, f) && Placed(info, g) && Fits(info, len, fs) && PairAlone(info, f, g, fs) && fs != []
    ensures fs[0] in fs && Fits(info, len, fs[1..]) && PairAlone(info, f, g, fs[1..])
    ensures PairOf(info, f, g, fs) == if AtPair(info, f, g, fs[0]) then [fs[0]] + PairOf(info, f, g, fs[1..]) else PairOf(info, f, g, fs[1..])
  {
    assert [] + PairOf(info, f, g, fs[1..]) == PairOf(info, f, g, fs[1..]);
  }

  lemma PatchPair(info: MachInfo, f: Fixup, g: Fixup, h: Fixup, a: seq<byte>, b: seq<byte>)
    requires Placed(info, f) && Placed(info, g) && Placed(info, h) && SameOnPair(info, f, g, a, b) && 0 <= Slot(info, h) <= |a| - 8
    ensures AtPair(info, f, g, h) ==> SameOnPair(info, f, g, PatchAt(h, a, Slot(info, h)), PatchAt(h, b, Slot(info, h)))
    ensures OffPair(info, f, g, h) ==> SameOnPair(info, f, g, PatchAt(h, a, Slot(info, h)), b)
  {
    var o := Slot(info, h);
    if AtPair(info, f, g, h) {
      forall p: nat | o <= p < o + 8 ensures a[p] == b[o + (p - o)] {
        assert InPair(info, f, g, p);
      }
      SameEight(b, o, a, o);
    }
  }

  lemma StagePair(info: MachInfo, f: Fixup, g: Fixup, h: Fixup, a: seq<byte>, b: seq<byte>, bs: seq<byte>)
    requires Placed(info, f) && Placed(info, g) && Placed(info, h) && SameOnPair(info, f, g, a, b) && 0 <= Slot(info, h) <= |a| - 8 && |bs| == 8
    ensures AtPair(info, f, g, h) ==> SameOnPair(info, f, g, Splice(a, Slot(info, h), bs), Splice(b, Slot(info, h), bs))
    ensures OffPair(info, f, g, h) ==> SameOnPair(info, f, g, Splice(a, Slot(info, h), bs), b)
  {
  }

  /** On the pair's bytes only the pair's fixups count, patched or staged. */
  lemma {:induction false} OnlyPair(info: MachInfo, f: Fixup, g: Fixup, a: seq<byte>, b: seq<byte>, c: seq<byte>, d: seq<byte>, fs: seq<Fixup>)
    requires Placed(info, f) && Placed(info, g) && Fits(info, |a|, fs) && PairAlone(info, f, g, fs) && |c| == |a|
    requires SameOnPair(info, f, g, a, b) && SameOnPair(info, f, g, c, d)
    ensures Fits(info, |a|, PairOf(info, f, g, fs))
    ensures SameOnPair(info, f, g, PatchList(info, a, fs), PatchList(info, b, PairOf(info, f, g, fs)))
    ensures SameOnPair(info, f, g, StageList(info, c, fs), StageList(info, d, PairOf(info, f, g, fs)))
    decreases |fs|
  {
    if fs != [] {
      var h, rest := fs[0], fs[1..];
      PairFirst(info, f, g, fs, |a|);
      var o, bs := Slot(info, h), LittleEndian(h.value, 8);
      PatchPair(info, f, g, h, a, b);
      StagePair(info, f, g, h, c, d, bs);
      if AtPair(info, f, g, h) {
        OnlyPair(info, f, g, PatchAt(h, a, o), PatchAt(h, b, o), Splice(c, o, bs), Splice(d, o, bs), rest);
        FirstOf(info, b, d, h, PairOf(info, f, g, rest));
      } else {
        assert OffPair(info, f, g, h);
        OnlyPair(info, f, g, PatchAt(h, a, o), b, Splice(c, o, bs), d, rest);
      }
    }
  }

  lemma FirstOf(info: MachInfo, m: seq<byte>, d: seq<byte>, h: Fixup, rest: seq<Fixup>)
    requires Placed(info, h) && 0 <= Slot(info, h) <= |m| - 8 && |d| == |m| && Fits(info, |m|, rest)
    ensures Fits(info, |m|, [h] + rest)
    ensures PatchList(info, m, [h] + rest) == PatchList(info, PatchAt(h, m, Slot(info, h)), rest)
    ensures StageList(info, d, [h] + rest) == StageList(info, Splice(d, Slot(info, h), LittleEndian(h.value, 8)), rest)
  {
    assert ([h] + rest)[1..] == rest;
  }

  /** The bytes of the first slot that the second also covers are zero in `slide`. */
  ghost predicate SharedZero(info: MachInfo, f: Fixup, g: Fixup, slide: u64)
    requires Placed(info, f) && Placed(info, g)
  {
    forall p: nat :: InSlot(info, f, p) && InSlot(info, g, p) ==> LittleEndian(slide, 8)[p - Slot(info, f)] == 0
  }

  lemma {:induction false} ZeroWordExactly(s: seq<byte>)
    ensures FromLittleEndian(s) == 0 <==> forall i :: 0 <= i < |s| ==> s[i] == 0
  {
    if s != [] {
      ZeroWordExactly(s[1..]);
      assert forall i :: 0 < i < |s| ==> s[i] == s[1..][i - 1];
    }
  }

  /** `f` then `g` over zeros: patched is staged exactly when `g` finds zero. */
  lemma PairExactly(info: MachInfo, f: Fixup, g: Fixup, m: seq<byte>, d: seq<byte>, slide: u64)
    requires Placed(info, f) && Placed(info, g)
    requires Fits(info, |m|, [f, g]) && |d| == |m| && f.rebase && g.rebase && f.value == g.value == slide
    requires ZeroOnPair(info, f, g, m) && ZeroOnPair(info, f, g, d)
    ensures SameOnPair(info, f, g, PatchList(info, m, [f, g]), StageList(info, d, [f, g])) <==> SharedZero(info, f, g, slide)
  {
    InBoth(info, f, g, |m|);
    ListTwo(info, m, d, f, g);
    TwoExactly(info, f, g, m, d, slide);
  }

  lemma TwoExactly(info: MachInfo, f: Fixup, g: Fixup, m: seq<byte>, d: seq<byte>, slide: u64)
    requires Placed(info, f) && Placed(info, g) && 0 <= Slot(info, f) <= |m| - 8 && 0 <= Slot(info, g) <= |m| - 8 && |d| == |m|
    requires f.rebase && g.rebase && f.value == g.value == slide && ZeroOnPair(info, f, g, m) && ZeroOnPair(info, f, g, d)
    ensures SameOnPair(info, f, g, PatchAt(g, PatchAt(f, m, Slot(info, f)), Slot(info, g)),
                       Splice(Splice(d, Slot(info, f), LittleEndian(slide, 8)), Slot(info, g), LittleEndian(slide, 8)))
       <==> SharedZero(info, f, g, slide)
  {
    FirstOverZero(info, f, g, m, d, slide);
    var a := Slot(info, f);
    var m1, d1 := PatchAt(f, m, a), Splice(d, a, LittleEndian(slide, 8));
    SecondExactly(info, f, g, m1, d1, slide, PatchAt(g, m1, Slot(info, g)), Splice(d1, Slot(info, g), LittleEndian(slide, 8)));
    SharedWord(info, f, g, m1, slide);
  }

  lemma InBoth(info: MachInfo, f: Fixup, g: Fixup, len: nat)
    requires Fits(info, len, [f, g])
    ensures Placed(info, f) && Placed(info, g) && 0 <= Slot(info, f) <= len - 8 && 0 <= Slot(info, g) <= len - 8
  {
    assert f in [f, g] && g in [f, g];
  }

  lemma ListTwo(info: MachInfo, m: seq<byte>, d: seq<byte>, f: Fixup, g: Fixup)
    requires Placed(info, f) && Placed(info, g) && 0 <= Slot(info, f) <= |m| - 8 && 0 <= Slot(info, g) <= |m| - 8 && |d| == |m|
    ensures Fits(info, |m|, [f, g])
    ensures PatchList(info, m, [f, g]) == PatchAt(g, PatchAt(f, m, Slot(info, f)), Slot(info, g))
    ensures StageList(info, d, [f, g]) == Splice(Splice(d, Slot(info, f), LittleEndian(f.value, 8)), Slot(info, g), LittleEndian(g.value, 8))
  {
    FirstOf(info, m, d, f, [g]);
    FirstOf(info, PatchAt(f, m, Slot(info, f)), Splice(d, Slot(info, f), LittleEndian(f.value, 8)), g, []);
    assert [f] + [g] == [f, g] && [g] + [] == [g];
  }

  ghost predicate ZeroOnPair(info: MachInfo, f: Fixup, g: Fixup, m: seq<byte>)
    requires Placed(info, f) && Placed(info, g)
  {
    forall p: nat :: p < |m| && InPair(info, f, g, p) ==> m[p] == 0
  }

  /** On the pair `m` holds `bs` in the first slot and zeros beside it. */
  ghost predicate FirstOnly(info: MachInfo, f: Fixup, g: Fixup, m: seq<byte>, bs: seq<byte>)
    requires Placed(info, f) && Placed(info, g) && |bs| == 8
  {
    forall p: nat :: p < |m| && InPair(info, f, g, p) ==> m[p] == if InSlot(info, f, p) then bs[p - Slot(info, f)] else 0
  }

  lemma FirstOverZero(info: MachInfo, f: Fixup, g: Fixup, m: seq<byte>, d: seq<byte>, slide: u64)
    requires Placed(info, f) && Placed(info, g) && 0 <= Slot(info, f) <= |m| - 8 && |d| == |m| && f.rebase && f.value == slide
    requires ZeroOnPair(info, f, g, m) && ZeroOnPair(info, f, g, d)
    ensures SameOnPair(info, f, g, PatchAt(f, m, Slot(info, f)), Splice(d, Slot(info, f), LittleEndian(slide, 8)))
    ensures FirstOnly(info, f, g, PatchAt(f, m, Slot(info, f)), LittleEndian(slide, 8))
  {
    var a := Slot(info, f);
    forall p: nat | a <= p < a + 8 ensures m[p] == 0 {
      assert InPair(info, f, g, p);
    }
    ZeroWord(m[a..a + 8]);
  }

  lemma SpliceSame(info: MachInfo, f: Fixup, g: Fixup, m: seq<byte>, d: seq<byte>, u: seq<byte>, v: seq<byte>, m2: seq<byte>, d2: seq<byte>)
    requires Placed(info, f) && Placed(info, g) && 0 <= Slot(info, g) <= |m| - 8 && |u| == |v| == 8
    requires SameOnPair(info, f, g, m, d) && m2 == Splice(m, Slot(info, g), u) && d2 == Splice(d, Slot(info, g), v)
    ensures SameOnPair(info, f, g, m2, d2) <==> u == v
  {
    var b := Slot(info, g);
    if SameOnPair(info, f, g, m2, d2) {
      forall i | 0 <= i < 8 ensures u[i] == v[i] {
        assert InPair(info, f, g, b + i) && m2[b + i] == u[i] && d2[b + i] == v[i];
      }
    }
  }

  lemma WrapAdds(w: nat, slide: u64, v: u64)
    requires w < 0x1_0000_0000_0000_0000 && v == Wrap64(w + slide)
    ensures v == slide <==> w == 0
  {
  }

  lemma AddsNothing(w: nat, slide: u64, v: u64)
    requires w < 0x1_0000_0000_0000_0000 && v == Wrap64(w + slide)
    ensures LittleEndian(v, 8) == LittleEndian(slide, 8) <==> w == 0
  {
    WrapAdds(w, slide, v);
    WordInjective(v, slide);
  }

  lemma SecondPatch(g: Fixup, m: seq<byte>, at: nat, slide: u64, v: u64)
    requires at + 8 <= |m| && g.rebase && g.value == slide && v == Wrap64(Word(m, at) + slide)
    ensures PatchAt(g, m, at) == Splice(m, at, LittleEndian(v, 8))
  {
  }

  /** The second fixup agrees exactly when it adds to zero. */
  lemma SecondExactly(info: MachInfo, f: Fixup, g: Fixup, m: seq<byte>, d: seq<byte>, slide: u64, m2: seq<byte>, d2: seq<byte>)
    requires Placed(info, f) && Placed(info, g) && 0 <= Slot(info, g) <= |m| - 8 && g.rebase && g.value == slide
    requires SameOnPair(info, f, g, m, d)
    requires m2 == PatchAt(g, m, Slot(info, g)) && d2 == Splice(d, Slot(info, g), LittleEndian(slide, 8))
    ensures SameOnPair(info, f, g, m2, d2) <==> Word(m, Slot(info, g)) == 0
  {
    var at := Slot(info, g);
    var w := Word(m, at);
    WordBound(m, at);
    var v := Wrap64(w + slide);
    SecondPatch(g, m, at, slide, v);
    SecondFrom(info, f, g, m, d, w, v, slide, m2, d2);
  }

  lemma SecondFrom(info: MachInfo, f: Fixup, g: Fixup, m: seq<byte>, d: seq<byte>, w: nat, v: u64, slide: u64, m2: seq<byte>, d2: seq<byte>)
    requires Placed(info, f) && Placed(info, g) && 0 <= Slot(info, g) <= |m| - 8 && SameOnPair(info, f, g, m, d)
    requires w < 0x1_0000_0000_0000_0000 && v == Wrap64(w + slide)
    requires m2 == Splice(m, Slot(info, g), LittleEndian(v, 8)) && d2 == Splice(d, Slot(info, g), LittleEndian(slide, 8))
    ensures SameOnPair(info, f, g, m2, d2) <==> w == 0
  {
    AddsNothing(w, slide, v);
    SpliceSame(info, f, g, m, d, LittleEndian(v, 8), LittleEndian(slide, 8), m2, d2);
  }

  lemma SharedWord(info: MachInfo, f: Fixup, g: Fixup, m: seq<byte>, slide: u64)
    requires Placed(info, f) && Placed(info, g) && 0 <= Slot(info, g) <= |m| - 8
    requires FirstOnly(info, f, g, m, LittleEndian(slide, 8))
    ensures Word(m, Slot(info, g)) == 0 <==> SharedZero(info, f, g, slide)
  {
    var b := Slot(info, g);
    ZeroWordExactly(m[b..b + 8]);
    if Word(m, b) == 0 {
      forall p: nat | InSlot(info, f, p) && InSlot(info, g, p) ensures LittleEndian(slide, 8)[p - Slot(info, f)] == 0 {
        assert InPair(info, f, g, p) && m[p] == m[b..b + 8][p - b];
      }
    }
    if SharedZero(info, f, g, slide) {
      var s := m[b..b + 8];
      forall i | 0 <= i < 8 ensures s[i] == 0 {
        assert InPair(info, f, g, b + i) && m[b + i] == s[i];
      }
    }
  }

  // ── the theorem ──────────────────────────────────────────────────────────

  /** `f` then `g` are the only rebases at their slots, which may overlap; all others are rebased once and apart. */
  ghost predicate LonePair(info: MachInfo, l: Loose, f: Fixup, g: Fixup)
    requires LoosePlaced(info, l) && Placed(info, f) && Placed(info, g)
  {
    && PairOf(info, f, g, l.rebases) == [f, g] && PairAlone(info, f, g, l.rebases)
    && NoBindOver(info, l, f) && NoBindOver(info, l, g)
    && forall r :: r in l.rebases && !AtPair(info, f, g, r) ==> Aligned(info, l.rebases, Slot(info, r)) && Count(info, l.rebases, Slot(info, r)) == 1
  }

  /** Away from the pair the pictures agree. */
  lemma SameOffPair(info: MachInfo, file: seq<byte>, fs: seq<Fixup>, l: Loose, f: Fixup, g: Fixup, m0: seq<byte>, p: nat)
    requires AllPlaced(info, fs) && Known(info, file, fs, l, Zeros(Span(info)), m0) && NoStraddle(info, fs)
    requires Placed(info, f) && Placed(info, g) && LonePair(info, l, f, g) && p < |m0| && !InPair(info, f, g, p)
    ensures SameAt(info, fs, file, StagedPicture(info, l, Zeros(Span(info))), PatchedPicture(info, l, m0), p)
  {
    var stale := Zeros(Span(info));
    forall r | r in l.rebases && InSlot(info, r, p) ensures Aligned(info, l.rebases, Slot(info, r)) && AgreesAt(info, file, l, r, p) {
      assert !AtPair(info, f, g, r);
      OnceAgrees(info, file, l, r, p);
    }
    PositionExact(info, file, fs, l, stale, m0, p);
  }

  /** On the pair the pictures are the pair's own. */
  lemma SameOnPairExactly(info: MachInfo, file: seq<byte>, fs: seq<Fixup>, l: Loose, f: Fixup, g: Fixup, m0: seq<byte>)
    requires AllPlaced(info, fs) && Known(info, file, fs, l, Zeros(Span(info)), m0) && NoStraddle(info, fs)
    requires f in l.rebases && g in l.rebases && LonePair(info, l, f, g)
    ensures (forall p: nat :: p < |m0| && InPair(info, f, g, p) ==>
               SameAt(info, fs, file, StagedPicture(info, l, Zeros(Span(info))), PatchedPicture(info, l, m0), p))
       <==> SharedZero(info, f, g, l.slide)
  {
    var z := Zeros(Span(info));
    var d, mu := StageList(info, z, l.rebases), PatchList(info, m0, l.rebases);
    OnlyPair(info, f, g, m0, m0, z, z, l.rebases);
    forall p: nat | p < |m0| && InPair(info, f, g, p)
      ensures m0[p] == 0 && (SameAt(info, fs, file, StagedPicture(info, l, z), PatchedPicture(info, l, m0), p) <==> d[p] == mu[p])
    {
      BarePair(info, file, fs, l, f, g, m0, p);
    }
    PairExactly(info, f, g, m0, z, l.slide);
  }

  lemma BarePair(info: MachInfo, file: seq<byte>, fs: seq<Fixup>, l: Loose, f: Fixup, g: Fixup, m0: seq<byte>, p: nat)
    requires AllPlaced(info, fs) && Known(info, file, fs, l, Zeros(Span(info)), m0) && NoStraddle(info, fs)
    requires f in l.rebases && g in l.rebases && LonePair(info, l, f, g) && p < |m0| && InPair(info, f, g, p)
    ensures m0[p] == 0
    ensures SameAt(info, fs, file, StagedPicture(info, l, Zeros(Span(info))), PatchedPicture(info, l, m0), p)
       <==> StageList(info, Zeros(Span(info)), l.rebases)[p] == PatchList(info, m0, l.rebases)[p]
  {
    var h := if InSlot(info, f, p) then f else g;
    NoBindByte(info, l, h, p);
    BoundByte(info, file, fs, l, Zeros(Span(info)), m0, p);
    NoFront(info, file, h);
    SlotPosition(info, file, h, p);
  }

  /**
   * Two rebases of slots without file bytes that overlap, beside any other well-formed fixups: the second adds to
   * bytes of the first in memory and overwrites them when staged, so the loaders agree exactly when those are zero.
   */
  lemma OverlappingRebases(info: MachInfo, host: Host, file: seq<byte>, loadBase: u64, f: Fixup, g: Fixup, m: seq<byte>, n: seq<byte>)
    requires WellFormedSegments(info, |file|) && WellFormedText(info) && Clear(info, Fixups(info, host, loadBase))
    requires NoStraddle(info, Fixups(info, host, loadBase))
    requires var l := LooseOf(info, host, loadBase); f in l.rebases && g in l.rebases && LonePair(info, l, f, g)
    requires BufferImage(info, host, file, loadBase, [], m) && MappedImage(info, host, file, loadBase, n)
    ensures m == n <==> SharedZero(info, f, g, Slide(info, loadBase))
  {
    var fs, l := Fixups(info, host, loadBase), LooseOf(info, host, loadBase);
    LoosePictures(info, host, file, loadBase, [], m, n);
    NothingStale(info, l);
    PairDecides(info, file, fs, l, f, g, MapInAll(Zeros(Span(info)), file, info.base, info.segments).value);
  }

  lemma PairDecides(info: MachInfo, file: seq<byte>, fs: seq<Fixup>, l: Loose, f: Fixup, g: Fixup, m0: seq<byte>)
    requires AllPlaced(info, fs) && Known(info, file, fs, l, Zeros(Span(info)), m0) && NoStraddle(info, fs)
    requires f in l.rebases && g in l.rebases && LonePair(info, l, f, g)
    ensures SamePictures(info, fs, file, StagedPicture(info, l, Zeros(Span(info))), PatchedPicture(info, l, m0)) <==> SharedZero(info, f, g, l.slide)
  {
    SameOnPairExactly(info, file, fs, l, f, g, m0);
    forall p: nat | p < |m0| && !InPair(info, f, g, p)
      ensures SameAt(info, fs, file, StagedPicture(info, l, Zeros(Span(info))), PatchedPicture(info, l, m0), p)
    {
      SameOffPair(info, file, fs, l, f, g, m0, p);
    }
  }

  // ── any overlaps ─────────────────────────────────────────────────────────

  /** `b` is `a` where nothing is backed, and zero elsewhere. */
  ghost predicate OverZeros(info: MachInfo, a: seq<byte>, b: seq<byte>) {
    |a| == |b| && forall p: nat :: p < |a| ==> b[p] == if Backing(info.segments, info.base, p) == None then a[p] else 0
  }

  ghost predicate Bare(info: MachInfo, fs: seq<Fixup>) {
    forall f :: f in fs ==> Placed(info, f) && !Backed(info, f) && !Straddles(info, f)
  }

  lemma WriteOverZeros(info: MachInfo, a: seq<byte>, b: seq<byte>, o: nat, bs: seq<byte>)
    requires OverZeros(info, a, b) && o + |bs| <= |a|
    requires forall p: nat :: o <= p < o + |bs| ==> Backing(info.segments, info.base, p) == None
    ensures OverZeros(info, Splice(a, o, bs), Splice(b, o, bs))
  {
  }

  lemma PatchOneOverZeros(info: MachInfo, fileLen: nat, a: seq<byte>, b: seq<byte>, f: Fixup)
    requires WellFormedSegments(info, fileLen) && Placed(info, f) && !Backed(info, f) && !Straddles(info, f)
    requires OverZeros(info, a, b) && 0 <= Slot(info, f) <= |a| - 8
    ensures OverZeros(info, PatchAt(f, a, Slot(info, f)), PatchAt(f, b, Slot(info, f)))
  {
    var o := Slot(info, f);
    SlotBacking(info, fileLen, f);
    SameEight(b, o, a, o);
    WriteOverZeros(info, a, b, o, LittleEndian(Patched(f, Word(a, o)), 8));
  }

  lemma {:induction false} PatchOverZeros(info: MachInfo, fileLen: nat, a: seq<byte>, b: seq<byte>, fs: seq<Fixup>)
    requires WellFormedSegments(info, fileLen) && Bare(info, fs) && Fits(info, |a|, fs) && OverZeros(info, a, b)
    ensures OverZeros(info, PatchList(info, a, fs), PatchList(info, b, fs))
    decreases |fs|
  {
    if fs != [] {
      assert fs[0] in fs && forall f :: f in fs[1..] ==> f in fs;
      PatchOneOverZeros(info, fileLen, a, b, fs[0]);
      PatchOverZeros(info, fileLen, PatchAt(fs[0], a, Slot(info, fs[0])), PatchAt(fs[0], b, Slot(info, fs[0])), fs[1..]);
    }
  }

  lemma {:induction false} StageOverZeros(info: MachInfo, fileLen: nat, d: seq<byte>, fs: seq<Fixup>)
    requires WellFormedSegments(info, fileLen) && Bare(info, fs) && Fits(info, |d|, fs) && OverZeros(info, d, d)
    ensures OverZeros(info, StageList(info, d, fs), StageList(info, d, fs))
    decreases |fs|
  {
    if fs != [] {
      assert fs[0] in fs && forall f :: f in fs[1..] ==> f in fs;
      SlotBacking(info, fileLen, fs[0]);
      WriteOverZeros(info, d, d, Slot(info, fs[0]), LittleEndian(fs[0].value, 8));
      StageOverZeros(info, fileLen, Splice(d, Slot(info, fs[0]), LittleEndian(fs[0].value, 8)), fs[1..]);
    }
  }

  lemma SameOverZeros(info: MachInfo, file: seq<byte>, fs: seq<Fixup>, d: seq<byte>, mu: seq<byte>, muZ: seq<byte>)
    requires AllPlaced(info, fs) && NoStraddle(info, fs) && OverZeros(info, d, d) && OverZeros(info, mu, muZ) && |d| == |mu|
    ensures SamePictures(info, fs, file, d, mu) <==> d == muZ
  {
    forall p: nat | p < |d| ensures SameAt(info, fs, file, d, mu, p) <==> d[p] == muZ[p] {
    }
    if SamePictures(info, fs, file, d, mu) {
      forall p: nat | p < |d| ensures d[p] == muZ[p] { assert SameAt(info, fs, file, d, mu, p); }
    }
  }

  /**
   * However slots without file bytes overlap, one another or under binds: the loads agree exactly when running
   * the fixups of those slots over an empty mapping, adding or only writing, leaves the same.
   */
  lemma AgreeOnEmpty(info: MachInfo, host: Host, file: seq<byte>, loadBase: u64, m: seq<byte>, n: seq<byte>)
    requires WellFormedSegments(info, |file|) && WellFormedText(info) && Clear(info, Fixups(info, host, loadBase))
    requires NoStraddle(info, Fixups(info, host, loadBase))
    requires BufferImage(info, host, file, loadBase, [], m) && MappedImage(info, host, file, loadBase, n)
    ensures var l, z := LooseOf(info, host, loadBase), Zeros(Span(info));
            && Fits(info, |z|, l.rebases) && Fits(info, |z|, l.binds)
            && (m == n <==> StagedPicture(info, l, z) == PatchedPicture(info, l, z))
  {
    var fs, l := Fixups(info, host, loadBase), LooseOf(info, host, loadBase);
    LoosePictures(info, host, file, loadBase, [], m, n);
    NothingStale(info, l);
    EmptyDecides(info, file, fs, l, MapInAll(Zeros(Span(info)), file, info.base, info.segments).value);
  }

  lemma EmptyDecides(info: MachInfo, file: seq<byte>, fs: seq<Fixup>, l: Loose, m0: seq<byte>)
    requires AllPlaced(info, fs) && Known(info, file, fs, l, Zeros(Span(info)), m0) && NoStraddle(info, fs)
    ensures SamePictures(info, fs, file, StagedPicture(info, l, Zeros(Span(info))), PatchedPicture(info, l, m0))
       <==> StagedPicture(info, l, Zeros(Span(info))) == PatchedPicture(info, l, Zeros(Span(info)))
  {
    var z := Zeros(Span(info));
    assert OverZeros(info, m0, z) && OverZeros(info, z, z);
    PatchOverZeros(info, |file|, m0, z, l.rebases);
    PatchOverZeros(info, |file|, PatchList(info, m0, l.rebases), PatchList(info, z, l.rebases), l.binds);
    StageOverZeros(info, |file|, z, l.rebases);
    StageOverZeros(info, |file|, StageList(info, z, l.rebases), l.binds);
    SameOverZeros(info, file, fs, StagedPicture(info, l, z), PatchedPicture(info, l, m0), PatchedPicture(info, l, z));
  }
}
