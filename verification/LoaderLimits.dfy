/**
 * Exactly when the two loaders agree, for every image whose fixups lie in segments, and what that
 * means for stale staged values, slots rebased again, and slots across the end of the file bytes.
 */
module LoaderLimits {
  import opened Bytes
  import opened Rdtsc
  import opened Wrappers
  import opened MachLoader
  import opened LoadersAgree
  import opened LoaderPictures
  import opened LooseFixups

  // ── the main result ──────────────────────────────────────────────────────

  lemma RebaseOf(info: MachInfo, host: Host, loadBase: u64, f: Fixup)
    requires f in RebaseFixups(info, loadBase)
    ensures f in Fixups(info, host, loadBase) && f.rebase && f.value == Slide(info, loadBase)
  {
  }

  lemma BindOf(info: MachInfo, host: Host, loadBase: u64, f: Fixup)
    requires f in BindFixups(info, host)
    ensures f in Fixups(info, host, loadBase) && !f.rebase
  {
  }

  /** The unbacked rebases and binds are the unbacked fixups, rebases first. */
  lemma LooseSplits(info: MachInfo, host: Host, loadBase: u64)
    requires AllPlaced(info, Fixups(info, host, loadBase))
    ensures var l := LooseOf(info, host, loadBase); Unbacked(info, Fixups(info, host, loadBase)) == l.rebases + l.binds
    ensures LooseMembers(info, Fixups(info, host, loadBase), LooseOf(info, host, loadBase))
  {
    var rs, bs := RebaseFixups(info, loadBase), BindFixups(info, host);
    UnbackedAppend(info, rs, bs);
    forall f | f in rs ensures f.rebase && f.value == Slide(info, loadBase) { RebaseOf(info, host, loadBase, f); }
    forall f | f in bs ensures !f.rebase { BindOf(info, host, loadBase, f); }
  }

  lemma LooseKnown(info: MachInfo, host: Host, file: seq<byte>, loadBase: u64, stale: seq<byte>, m0: seq<byte>)
    requires WellFormedSegments(info, |file|) && AllPlaced(info, Fixups(info, host, loadBase)) && |stale| == |m0| == Span(info)
    requires Shows(info.segments, info.base, file, Zeros(Span(info)), m0)
    ensures Known(info, file, Fixups(info, host, loadBase), LooseOf(info, host, loadBase), stale, m0)
  {
    LooseSplits(info, host, loadBase);
    AllFit(info, |file|, LooseOf(info, host, loadBase).rebases);
    AllFit(info, |file|, LooseOf(info, host, loadBase).binds);
  }

  lemma TidyAligned(info: MachInfo, fs: seq<Fixup>, l: Loose, p: nat)
    requires Tidy(info, fs) && LooseMembers(info, fs, l)
    ensures AlignedAt(info, l.rebases, p)
  {
    forall r, f | r in l.rebases && f in l.rebases ensures SameOrApart(info, f, r) {
    }
  }

  lemma HarmlessEverywhere(info: MachInfo, host: Host, file: seq<byte>, loadBase: u64, stale: seq<byte>, m0: seq<byte>)
    requires AllPlaced(info, Fixups(info, host, loadBase))
    requires Known(info, file, Fixups(info, host, loadBase), LooseOf(info, host, loadBase), stale, m0)
    ensures Harmless(info, host, file, loadBase, stale) <==>
            forall p: nat :: p < |stale| ==> HarmlessAt(info, file, Fixups(info, host, loadBase), LooseOf(info, host, loadBase), stale, p)
  {
    var fs, l := Fixups(info, host, loadBase), LooseOf(info, host, loadBase);
    AllFit(info, |file|, fs);
    if Harmless(info, host, file, loadBase, stale) {
      forall p: nat | p < |stale| ensures HarmlessAt(info, file, fs, l, stale, p) {
      }
    }
    if forall p: nat :: p < |stale| ==> HarmlessAt(info, file, fs, l, stale, p) {
      forall r, p: nat | r in l.rebases && InSlot(info, r, p) && LastByte(info, l.binds, p) == None
        ensures AgreesAt(info, file, l, r, p)
      {
        assert HarmlessAt(info, file, fs, l, stale, p);
      }
      forall p: nat | AtEdge(info, fs, p) && LastByte(info, l.binds, p).Some?
        ensures EdgeByteAgrees(info, file, l.binds, p)
      {
        assert HarmlessAt(info, file, fs, l, stale, p);
      }
      forall p: nat | p < |stale| && Backing(info.segments, info.base, p) == None && !Touched(info, l.rebases, p) && !Touched(info, l.binds, p)
        ensures stale[p] == 0
      {
        assert HarmlessAt(info, file, fs, l, stale, p);
      }
    }
  }

  /**
   * The main result: the two loaders leave the same bytes exactly when every uncovered byte of a rebased
   * unbacked slot comes out of the additions as the buffer has it, every file byte a bind covers at an edge
   * is the bind's already, and the leftovers are zero wherever nothing covers them.
   */
  lemma AgreeExactly(info: MachInfo, host: Host, file: seq<byte>, loadBase: u64, pending: seq<Deferred>, m: seq<byte>, n: seq<byte>)
    requires WellFormedSegments(info, |file|) && WellFormedText(info) && Tidy(info, Fixups(info, host, loadBase))
    requires BufferImage(info, host, file, loadBase, pending, m) && MappedImage(info, host, file, loadBase, n)
    ensures Stale(info, pending).Success? && |Stale(info, pending).value| == Span(info)
    ensures m == n <==> Harmless(info, host, file, loadBase, Stale(info, pending).value)
  {
    var fs, l := Fixups(info, host, loadBase), LooseOf(info, host, loadBase);
    LoosePictures(info, host, file, loadBase, pending, m, n);
    var stale, m0 := Stale(info, pending).value, MapInAll(Zeros(Span(info)), file, info.base, info.segments).value;
    var d, mu := StagedPicture(info, l, stale), PatchedPicture(info, l, m0);
    forall p: nat | p < |stale| ensures SameAt(info, fs, file, d, mu, p) <==> HarmlessAt(info, file, fs, l, stale, p) {
      TidyAligned(info, fs, l, p);
      PositionExact(info, file, fs, l, stale, m0, p);
    }
    SameEverywhere(info, file, fs, l, stale, d, mu);
    HarmlessEverywhere(info, host, file, loadBase, stale, m0);
  }

  /** The two pictures of `Pictures`, rebases before binds; no condition on how fixups overlap without file bytes. */
  lemma LoosePictures(info: MachInfo, host: Host, file: seq<byte>, loadBase: u64, pending: seq<Deferred>, m: seq<byte>, n: seq<byte>)
    requires WellFormedSegments(info, |file|) && WellFormedText(info) && Clear(info, Fixups(info, host, loadBase))
    requires BufferImage(info, host, file, loadBase, pending, m) && MappedImage(info, host, file, loadBase, n)
    ensures var fs, l := Fixups(info, host, loadBase), LooseOf(info, host, loadBase);
            var stale, m0 := Stale(info, pending), MapInAll(Zeros(Span(info)), file, info.base, info.segments);
            && stale.Success? && m0.Success? && Known(info, file, fs, l, stale.value, m0.value)
            && (m == n <==> SamePictures(info, fs, file, StagedPicture(info, l, stale.value), PatchedPicture(info, l, m0.value)))
  {
    var l := LooseOf(info, host, loadBase);
    Pictures(info, host, file, loadBase, pending, m, n);
    var stale, m0 := Stale(info, pending).value, MapInAll(Zeros(Span(info)), file, info.base, info.segments).value;
    LooseKnown(info, host, file, loadBase, stale, m0);
    LooseSplits(info, host, loadBase);
    StageAppend(info, stale, l.rebases, l.binds);
    PatchAppend(info, m0, l.rebases, l.binds);
  }

  lemma SameEverywhere(info: MachInfo, file: seq<byte>, fs: seq<Fixup>, l: Loose, stale: seq<byte>, d: seq<byte>, mu: seq<byte>)
    requires AllPlaced(info, fs) && LoosePlaced(info, l) && |d| == |mu| == |stale|
    requires forall p: nat :: p < |stale| ==> (SameAt(info, fs, file, d, mu, p) <==> HarmlessAt(info, file, fs, l, stale, p))
    ensures SamePictures(info, fs, file, d, mu) <==> forall p: nat :: p < |stale| ==> HarmlessAt(info, file, fs, l, stale, p)
  {
    if SamePictures(info, fs, file, d, mu) {
      forall p: nat | p < |stale| ensures HarmlessAt(info, file, fs, l, stale, p) {
        assert SameAt(info, fs, file, d, mu, p);
      }
    }
  }

  // ── rebases that happen once ─────────────────────────────────────────────

  ghost predicate NoStraddle(info: MachInfo, fs: seq<Fixup>)
    requires AllPlaced(info, fs)
  {
    forall f :: f in fs ==> !Straddles(info, f)
  }

  /** Unstraddled slots have no file bytes in front. */
  lemma NoFront(info: MachInfo, file: seq<byte>, f: Fixup)
    requires Placed(info, f) && !Backed(info, f) && !Straddles(info, f) && WellFormedSegments(info, |file|)
    ensures FrontLen(info, f) == 0 && FileFront(info, file, f) == []
  {
    SlotBounds(info, |file|, f);
    SlotPosition(info, file, f, Slot(info, f));
  }

  /** An unstraddled slot agrees at a byte exactly when the multiple of the slide has the slide's byte there. */
  lemma TimesAgrees(info: MachInfo, file: seq<byte>, l: Loose, r: Fixup, p: nat)
    requires WellFormedSegments(info, |file|) && LoosePlaced(info, l) && Placed(info, r) && !Backed(info, r) && !Straddles(info, r)
    requires InSlot(info, r, p)
    ensures AgreesAt(info, file, l, r, p) <==> SameByte(Wrap64(Count(info, l.rebases, Slot(info, r)) * l.slide), l.slide, p - Slot(info, r))
  {
    TimesWord(info, file, l, r);
  }

  ghost predicate SameByte(v: u64, w: u64, i: nat)
    requires i < 8
  {
    LittleEndian(v, 8)[i] == LittleEndian(w, 8)[i]
  }

  /** Rebased once, it agrees. */
  lemma OnceAgrees(info: MachInfo, file: seq<byte>, l: Loose, r: Fixup, p: nat)
    requires WellFormedSegments(info, |file|) && LoosePlaced(info, l) && Placed(info, r) && !Backed(info, r) && !Straddles(info, r)
    requires InSlot(info, r, p) && Count(info, l.rebases, Slot(info, r)) == 1
    ensures AgreesAt(info, file, l, r, p)
  {
    TimesAgrees(info, file, l, r, p);
    Single(Count(info, l.rebases, Slot(info, r)), l.slide);
  }

  lemma Single(k: nat, slide: u64)
    requires k == 1
    ensures Wrap64(k * slide) == slide
  {
  }

  lemma TimesWord(info: MachInfo, file: seq<byte>, l: Loose, r: Fixup)
    requires WellFormedSegments(info, |file|) && LoosePlaced(info, l) && Placed(info, r) && !Backed(info, r) && !Straddles(info, r)
    ensures FrontLen(info, r) == 0 && |FileFront(info, file, r)| == 0
    ensures FinalWord(info, file, l, r) == Wrap64(Count(info, l.rebases, Slot(info, r)) * l.slide)
  {
    NoFront(info, file, r);
    AddedIsProduct(0, Count(info, l.rebases, Slot(info, r)), l.slide);
  }

  /** Every unbacked slot but `o` is rebased at most once. */
  ghost predicate OnceBut(info: MachInfo, rs: seq<Fixup>, o: int)
    requires AllPlaced(info, rs)
  {
    forall r :: r in rs && Slot(info, r) != o ==> Count(info, rs, Slot(info, r)) == 1
  }

  lemma {:induction false} CountZero(info: MachInfo, fs: seq<Fixup>, o: int)
    requires AllPlaced(info, fs) && forall f :: f in fs ==> Slot(info, f) != o
    ensures Count(info, fs, o) == 0
  {
    if fs != [] {
      CountFirst(info, fs, o);
      CountZero(info, fs[1..], o);
    }
  }

  /** Under the rule of well-formed fixups no unbacked slot is rebased twice. */
  lemma {:induction false} CountOnce(info: MachInfo, fs: seq<Fixup>, o: int)
    requires WellFormedFixups(info, fs) && forall f :: f in fs ==> f.rebase
    ensures AllPlaced(info, fs) && Count(info, Unbacked(info, fs), o) <= 1
  {
    if fs != [] {
      UnbackedFirst(info, fs);
      var rest := Unbacked(info, fs[1..]);
      CountOnce(info, fs[1..], o);
      if !Backed(info, fs[0]) {
        assert ([fs[0]] + rest)[1..] == rest;
        CountFirst(info, [fs[0]] + rest, o);
        if Slot(info, fs[0]) == o {
          forall g | g in rest ensures Slot(info, g) != o { ApartFromFirst(info, fs, g); }
          CountZero(info, rest, o);
        }
      } else {
        assert [] + rest == rest;
      }
    }
  }

  lemma ApartFromFirst(info: MachInfo, fs: seq<Fixup>, g: Fixup)
    requires WellFormedFixups(info, fs) && fs != [] && g in fs[1..] && ZeroFillRebase(info, g)
    ensures SlotsApart(info, fs[0], g)
  {
    var j :| 0 <= j < |fs[1..]| && fs[1..][j] == g;
    assert fs[j + 1] == g;
  }

  lemma WellFormedTidy(info: MachInfo, fs: seq<Fixup>)
    requires WellFormedFixups(info, fs)
    ensures Tidy(info, fs) && NoStraddle(info, fs)
  {
    forall f, g | f in fs && g in fs && f.rebase && g.rebase && !Backed(info, f) && !Backed(info, g) ensures SameOrApart(info, f, g) {
      var i, j :| 0 <= i < |fs| && 0 <= j < |fs| && fs[i] == f && fs[j] == g;
      assert ZeroFillRebase(info, f) && ZeroFillRebase(info, g);
    }
  }

  lemma WellFormedOnce(info: MachInfo, host: Host, loadBase: u64)
    requires WellFormedFixups(info, Fixups(info, host, loadBase))
    ensures AllPlaced(info, Fixups(info, host, loadBase)) && forall o :: Count(info, LooseOf(info, host, loadBase).rebases, o) <= 1
  {
    var rs, fs := RebaseFixups(info, loadBase), Fixups(info, host, loadBase);
    assert rs == fs[..|rs|];
    forall o ensures Count(info, LooseOf(info, host, loadBase).rebases, o) <= 1 { CountOnce(info, rs, o); }
  }

  // ── leftovers of an earlier load ─────────────────────────────────────────

  /** On a well-formed image any leftovers are harmless exactly when they are zero wherever no file byte and no own slot is. */
  lemma StaleStages(info: MachInfo, host: Host, file: seq<byte>, loadBase: u64, pending: seq<Deferred>, m: seq<byte>, n: seq<byte>)
    requires WellFormed(info, host, file, loadBase)
    requires BufferImage(info, host, file, loadBase, pending, m) && MappedImage(info, host, file, loadBase, n)
    ensures Stale(info, pending).Success? && AllPlaced(info, Fixups(info, host, loadBase))
    ensures m == n <==> StaleHarmless(info, Stale(info, pending).value, LooseOf(info, host, loadBase))
  {
    var fs, l := Fixups(info, host, loadBase), LooseOf(info, host, loadBase);
    WellFormedTidy(info, fs);
    AgreeExactly(info, host, file, loadBase, pending, m, n);
    WellFormedOnce(info, host, loadBase);
    LooseSplits(info, host, loadBase);
    OnceHarmless(info, file, fs, l);
  }

  lemma OnceHarmless(info: MachInfo, file: seq<byte>, fs: seq<Fixup>, l: Loose)
    requires WellFormedSegments(info, |file|) && AllPlaced(info, fs) && NoStraddle(info, fs)
    requires LoosePlaced(info, l) && LooseMembers(info, fs, l) && forall o :: Count(info, l.rebases, o) <= 1
    ensures FixupsHarmless(info, file, fs, l)
  {
    NoEdges(info, file, fs, l.binds);
    forall r, p: nat | r in l.rebases && InSlot(info, r, p) ensures AgreesAt(info, file, l, r, p) {
      CountPositive(info, l.rebases, r);
      OnceAgrees(info, file, l, r, p);
    }
  }

  /** Position `p` is in no file byte and in no unbacked slot of the image itself. */
  ghost predicate BareAt(info: MachInfo, l: Loose, p: nat)
    requires LoosePlaced(info, l)
  {
    Backing(info.segments, info.base, p) == None && !Touched(info, l.rebases, p) && !Touched(info, l.binds, p)
  }

  /** Every bare byte of the slot is zero in `bs`. */
  ghost predicate ZeroWhereBare(info: MachInfo, l: Loose, f: Fixup, bs: seq<byte>)
    requires LoosePlaced(info, l) && Placed(info, f) && |bs| == 8
  {
    forall p: nat :: InSlot(info, f, p) && BareAt(info, l, p) ==> bs[p - Slot(info, f)] == 0
  }

  /** One value left staged for a slot: harmless exactly when its bytes are zero wherever nothing covers them. */
  lemma StaleStage(info: MachInfo, host: Host, file: seq<byte>, loadBase: u64, f: Fixup, m: seq<byte>, n: seq<byte>)
    requires WellFormed(info, host, file, loadBase) && Placed(info, f)
    requires BufferImage(info, host, file, loadBase, [Staged(f)], m) && MappedImage(info, host, file, loadBase, n)
    ensures AllPlaced(info, Fixups(info, host, loadBase))
    ensures m == n <==> ZeroWhereBare(info, LooseOf(info, host, loadBase), f, LittleEndian(f.value, 8))
  {
    StaleStages(info, host, file, loadBase, [Staged(f)], m, n);
    OneStale(info, |file|, f);
    BareExactly(info, LooseOf(info, host, loadBase), f, LittleEndian(f.value, 8), Stale(info, [Staged(f)]).value);
  }

  lemma BareExactly(info: MachInfo, l: Loose, f: Fixup, bs: seq<byte>, stale: seq<byte>)
    requires LoosePlaced(info, l) && Placed(info, f) && 0 <= Slot(info, f) <= Span(info) - 8 && |bs| == 8
    requires stale == Splice(Zeros(Span(info)), Slot(info, f), bs)
    ensures ZeroWhereBare(info, l, f, bs) <==> StaleHarmless(info, stale, l)
  {
    forall p: nat | p < |stale| ensures stale[p] == if InSlot(info, f, p) then bs[p - Slot(info, f)] else 0 {
    }
    if StaleHarmless(info, stale, l) {
      forall p: nat | InSlot(info, f, p) && BareAt(info, l, p) ensures bs[p - Slot(info, f)] == 0 { assert stale[p] == 0; }
    }
    if ZeroWhereBare(info, l, f, bs) {
      forall p: nat | p < |stale| && BareAt(info, l, p) ensures stale[p] == 0 {
      }
    }
  }

  lemma OneStale(info: MachInfo, fileLen: nat, f: Fixup)
    requires WellFormedSegments(info, fileLen) && Placed(info, f)
    ensures 0 <= Slot(info, f) <= Span(info) - 8
    ensures Stale(info, [Staged(f)]) == Success(Splice(Zeros(Span(info)), Slot(info, f), LittleEndian(f.value, 8)))
  {
    var zeros := Zeros(Span(info));
    StagedOnce(info, fileLen, zeros, f);
    WriteDeferredAppend(zeros, info, [], Staged(f));
    assert [] + [Staged(f)] == [Staged(f)];
  }

  /** With nothing left over, the leftovers are harmless. */
  lemma NothingStale(info: MachInfo, l: Loose)
    requires LoosePlaced(info, l)
    ensures Stale(info, []) == Success(Zeros(Span(info))) && StaleHarmless(info, Zeros(Span(info)), l)
  {
  }

  /** With nothing left over, the loaders agree exactly when the fixups themselves are harmless. */
  lemma AgreeFresh(info: MachInfo, host: Host, file: seq<byte>, loadBase: u64, m: seq<byte>, n: seq<byte>)
    requires WellFormedSegments(info, |file|) && WellFormedText(info) && Tidy(info, Fixups(info, host, loadBase))
    requires BufferImage(info, host, file, loadBase, [], m) && MappedImage(info, host, file, loadBase, n)
    ensures m == n <==> FixupsHarmless(info, file, Fixups(info, host, loadBase), LooseOf(info, host, loadBase))
  {
    AgreeExactly(info, host, file, loadBase, [], m, n);
    NothingStale(info, LooseOf(info, host, loadBase));
  }

  // ── slots rebased again ──────────────────────────────────────────────────

  ghost predicate NoBindOver(info: MachInfo, l: Loose, f: Fixup)
    requires LoosePlaced(info, l) && Placed(info, f)
  {
    forall b :: b in l.binds ==> SlotsApart(info, b, f)
  }

  lemma NoBindByte(info: MachInfo, l: Loose, f: Fixup, p: nat)
    requires LoosePlaced(info, l) && Placed(info, f) && NoBindOver(info, l, f) && InSlot(info, f, p)
    ensures LastByte(info, l.binds, p) == None
  {
    NoLastByte(info, l.binds, p);
    forall b | b in l.binds ensures !InSlot(info, b, p) {
      assert SlotsApart(info, b, f);
    }
  }

  /** An unbacked slot rebased any number of times, beside any other well-formed fixups: alike exactly when that multiple of the slide is the slide. */
  lemma RebasedOften(info: MachInfo, host: Host, file: seq<byte>, loadBase: u64, r: Fixup, m: seq<byte>, n: seq<byte>)
    requires WellFormedSegments(info, |file|) && WellFormedText(info) && Tidy(info, Fixups(info, host, loadBase))
    requires NoStraddle(info, Fixups(info, host, loadBase)) && LoneSlot(info, LooseOf(info, host, loadBase), r)
    requires BufferImage(info, host, file, loadBase, [], m) && MappedImage(info, host, file, loadBase, n)
    ensures var l := LooseOf(info, host, loadBase); m == n <==> Wrap64(Count(info, l.rebases, Slot(info, r)) * l.slide) == l.slide
  {
    AgreeFresh(info, host, file, loadBase, m, n);
    LooseSplits(info, host, loadBase);
    OftenHarmless(info, file, Fixups(info, host, loadBase), LooseOf(info, host, loadBase), r);
  }

  /** `r` is an unbacked rebase whose slot no bind touches; every other slot is rebased once. */
  ghost predicate LoneSlot(info: MachInfo, l: Loose, r: Fixup)
    requires LoosePlaced(info, l)
  {
    r in l.rebases && NoBindOver(info, l, r) && OnceBut(info, l.rebases, Slot(info, r))
  }

  lemma OftenHarmless(info: MachInfo, file: seq<byte>, fs: seq<Fixup>, l: Loose, r: Fixup)
    requires WellFormedSegments(info, |file|) && AllPlaced(info, fs) && NoStraddle(info, fs)
    requires LoosePlaced(info, l) && LooseMembers(info, fs, l) && LoneSlot(info, l, r)
    ensures FixupsHarmless(info, file, fs, l) <==> Wrap64(Count(info, l.rebases, Slot(info, r)) * l.slide) == l.slide
  {
    OthersAgree(info, file, l, r);
    SlotAgrees(info, file, l, r);
    WordInjective(Wrap64(Count(info, l.rebases, Slot(info, r)) * l.slide), l.slide);
    NoEdges(info, file, fs, l.binds);
  }

  lemma NoEdges(info: MachInfo, file: seq<byte>, fs: seq<Fixup>, binds: seq<Fixup>)
    requires AllPlaced(info, fs) && AllPlaced(info, binds) && NoStraddle(info, fs)
    ensures EdgesAgree(info, file, fs, binds)
  {
  }

  /** Only the slot of `r` decides. */
  lemma OthersAgree(info: MachInfo, file: seq<byte>, l: Loose, r: Fixup)
    requires WellFormedSegments(info, |file|) && LoosePlaced(info, l) && r in l.rebases && OnceBut(info, l.rebases, Slot(info, r))
    requires forall g :: g in l.rebases ==> !Backed(info, g) && (Slot(info, g) != Slot(info, r) ==> !Straddles(info, g))
    requires NoBindOver(info, l, r)
    ensures RebasesAgree(info, file, l) <==> forall g, p: nat :: g in l.rebases && Slot(info, g) == Slot(info, r) && InSlot(info, g, p) ==> AgreesAt(info, file, l, g, p)
  {
    forall g, p: nat | g in l.rebases && Slot(info, g) != Slot(info, r) && InSlot(info, g, p) ensures AgreesAt(info, file, l, g, p) {
      OnceAgrees(info, file, l, g, p);
    }
    forall p: nat | InSlot(info, r, p) ensures LastByte(info, l.binds, p) == None {
      NoBindByte(info, l, r, p);
    }
  }

  lemma SlotAgrees(info: MachInfo, file: seq<byte>, l: Loose, r: Fixup)
    requires WellFormedSegments(info, |file|) && LoosePlaced(info, l) && r in l.rebases
    requires forall g :: g in l.rebases ==> !Backed(info, g) && !Straddles(info, g)
    ensures (forall g, p: nat :: g in l.rebases && Slot(info, g) == Slot(info, r) && InSlot(info, g, p) ==> AgreesAt(info, file, l, g, p))
       <==> LittleEndian(Wrap64(Count(info, l.rebases, Slot(info, r)) * l.slide), 8) == LittleEndian(l.slide, 8)
  {
    var a, b, o := LittleEndian(Wrap64(Count(info, l.rebases, Slot(info, r)) * l.slide), 8), LittleEndian(l.slide, 8), Slot(info, r);
    SlotBounds(info, |file|, r);
    forall g, p: nat | g in l.rebases && Slot(info, g) == o && InSlot(info, g, p)
      ensures AgreesAt(info, file, l, g, p) <==> SameByte(Wrap64(Count(info, l.rebases, o) * l.slide), l.slide, p - o)
    {
      TimesAgrees(info, file, l, g, p);
    }
    if forall g, p: nat :: g in l.rebases && Slot(info, g) == o && InSlot(info, g, p) ==> AgreesAt(info, file, l, g, p) {
      forall i | 0 <= i < 8 ensures a[i] == b[i] {
        assert InSlot(info, r, o + i) && AgreesAt(info, file, l, r, o + i);
      }
    }
  }

  lemma WordInjective(v: u64, w: u64)
    ensures LittleEndian(v, 8) == LittleEndian(w, 8) <==> v == w
  {
    WordRoundTrip(v);
    WordRoundTrip(w);
  }

  /** Rebased twice, beside any other well-formed fixups: the buffer records one slide, the mapping adds two. */
  lemma RebasedTwice(info: MachInfo, host: Host, file: seq<byte>, loadBase: u64, r: Fixup, m: seq<byte>, n: seq<byte>)
    requires WellFormedSegments(info, |file|) && WellFormedText(info) && Tidy(info, Fixups(info, host, loadBase))
    requires NoStraddle(info, Fixups(info, host, loadBase)) && LoneSlot(info, LooseOf(info, host, loadBase), r)
    requires Count(info, LooseOf(info, host, loadBase).rebases, Slot(info, r)) == 2
    requires BufferImage(info, host, file, loadBase, [], m) && MappedImage(info, host, file, loadBase, n)
    ensures m == n <==> Slide(info, loadBase) == 0
  {
    RebasedOften(info, host, file, loadBase, r, m, n);
    DoubleSlide(Count(info, LooseOf(info, host, loadBase).rebases, Slot(info, r)), LooseOf(info, host, loadBase).slide);
  }

  lemma DoubleSlide(k: nat, slide: u64)
    requires k == 2
    ensures Wrap64(k * slide) == slide <==> slide == 0
  {
  }

  // ── slots across the end of the file bytes ───────────────────────────────

  /** `f` is the one slot across the end of its segment's file bytes, and nothing else touches it. */
  ghost predicate LoneEdge(info: MachInfo, fs: seq<Fixup>, f: Fixup)
    requires AllPlaced(info, fs)
  {
    f in fs && Straddles(info, f) && forall g :: g in fs && g != f ==> !Straddles(info, g) && SlotsApart(info, g, f)
  }

  ghost predicate RebasedOnce(info: MachInfo, rs: seq<Fixup>)
    requires AllPlaced(info, rs)
  {
    forall r :: r in rs ==> Count(info, rs, Slot(info, r)) == 1
  }

  lemma {:induction false} LastByteOf(info: MachInfo, fs: seq<Fixup>, b: Fixup, p: nat)
    requires AllPlaced(info, fs) && b in fs && InSlot(info, b, p) && forall g :: g in fs && g != b ==> SlotsApart(info, g, b)
    ensures LastByte(info, fs, p) == Some(LittleEndian(b.value, 8)[p - Slot(info, b)])
  {
    assert fs[0] in fs;
    if b in fs[1..] {
      LastByteOf(info, fs[1..], b, p);
    } else {
      NoLastByte(info, fs[1..], p);
      forall g | g in fs[1..] ensures !InSlot(info, g, p) { assert SlotsApart(info, g, b); }
    }
  }

  lemma OnlyEdge(info: MachInfo, fs: seq<Fixup>, f: Fixup, p: nat)
    requires AllPlaced(info, fs) && LoneEdge(info, fs, f)
    ensures AtEdge(info, fs, p) <==> InSlot(info, f, p)
  {
  }

  lemma BindEdgeAt(info: MachInfo, file: seq<byte>, fs: seq<Fixup>, binds: seq<Fixup>, b: Fixup, p: nat)
    requires WellFormedSegments(info, |file|) && AllPlaced(info, fs) && AllPlaced(info, binds) && LoneEdge(info, fs, b)
    requires b in binds && (forall g :: g in binds ==> g in fs) && InSlot(info, b, p)
    ensures |FileFront(info, file, b)| == FrontLen(info, b) < 8 && LastByte(info, binds, p).Some?
    ensures var i := p - Slot(info, b);
            EdgeByteAgrees(info, file, binds, p) <==> (i < FrontLen(info, b) ==> FileFront(info, file, b)[i] == LittleEndian(b.value, 8)[i])
  {
    LastByteOf(info, binds, b, p);
    SlotPosition(info, file, b, p);
  }

  /** A straddling bind: byte by byte, the file must hold the bind's front already. */
  lemma BindEdge(info: MachInfo, file: seq<byte>, fs: seq<Fixup>, binds: seq<Fixup>, b: Fixup)
    requires WellFormedSegments(info, |file|) && AllPlaced(info, fs) && AllPlaced(info, binds) && LoneEdge(info, fs, b)
    requires b in binds && forall g :: g in binds ==> g in fs
    ensures FrontLen(info, b) < 8 && |FileFront(info, file, b)| == FrontLen(info, b)
    ensures EdgesAgree(info, file, fs, binds) <==> FileFront(info, file, b) == LittleEndian(b.value, 8)[..FrontLen(info, b)]
  {
    var o, front, bs := Slot(info, b), FileFront(info, file, b), LittleEndian(b.value, 8);
    SlotBounds(info, |file|, b);
    BindEdgeAt(info, file, fs, binds, b, o);
    forall p: nat ensures AtEdge(info, fs, p) <==> InSlot(info, b, p) { OnlyEdge(info, fs, b, p); }
    forall p: nat | InSlot(info, b, p)
      ensures LastByte(info, binds, p).Some? && (EdgeByteAgrees(info, file, binds, p) <==> FrontHolds(front, bs, p - o))
    {
      BindEdgeAt(info, file, fs, binds, b, p);
    }
    if EdgesAgree(info, file, fs, binds) {
      forall i: nat | i < 8 ensures FrontHolds(front, bs, i) {
        assert InSlot(info, b, o + i) && AtEdge(info, fs, o + i) && (o + i) - o == i;
      }
    }
    FrontHoldsAll(front, bs);
  }

  ghost predicate FrontHolds(front: seq<byte>, bs: seq<byte>, i: nat)
    requires |bs| == 8
  {
    i < |front| && i < 8 ==> front[i] == bs[i]
  }

  lemma FrontHoldsAll(front: seq<byte>, bs: seq<byte>)
    requires |front| <= 8 == |bs|
    ensures (forall i: nat :: i < 8 ==> FrontHolds(front, bs, i)) <==> front == bs[..|front|]
  {
    if forall i: nat :: i < 8 ==> FrontHolds(front, bs, i) {
      forall i: nat | i < |front| ensures front[i] == bs[i] { assert FrontHolds(front, bs, i); }
    }
  }

  /**
   * A bind across the end of the file bytes, beside any other well-formed fixups: the buffer stages it and then
   * copies the file bytes over its front, so the loaders agree exactly when the file already held that front.
   */
  lemma StraddlingBind(info: MachInfo, host: Host, file: seq<byte>, loadBase: u64, b: Fixup, m: seq<byte>, n: seq<byte>)
    requires WellFormedSegments(info, |file|) && WellFormedText(info) && Tidy(info, Fixups(info, host, loadBase))
    requires LoneEdge(info, Fixups(info, host, loadBase), b) && !b.rebase && RebasedOnce(info, LooseOf(info, host, loadBase).rebases)
    requires BufferImage(info, host, file, loadBase, [], m) && MappedImage(info, host, file, loadBase, n)
    ensures FrontLen(info, b) < 8
    ensures m == n <==> FileFront(info, file, b) == LittleEndian(b.value, 8)[..FrontLen(info, b)]
  {
    AgreeFresh(info, host, file, loadBase, m, n);
    LooseSplits(info, host, loadBase);
    BindHarmless(info, file, Fixups(info, host, loadBase), LooseOf(info, host, loadBase), b);
  }

  lemma BindHarmless(info: MachInfo, file: seq<byte>, fs: seq<Fixup>, l: Loose, b: Fixup)
    requires WellFormedSegments(info, |file|) && AllPlaced(info, fs) && LoosePlaced(info, l) && LooseMembers(info, fs, l)
    requires LoneEdge(info, fs, b) && !b.rebase && RebasedOnce(info, l.rebases)
    ensures FrontLen(info, b) < 8
    ensures FixupsHarmless(info, file, fs, l) <==> FileFront(info, file, b) == LittleEndian(b.value, 8)[..FrontLen(info, b)]
  {
    BindEdge(info, file, fs, l.binds, b);
    forall r, p: nat | r in l.rebases && InSlot(info, r, p) ensures AgreesAt(info, file, l, r, p) {
      OnceAgrees(info, file, l, r, p);
    }
  }

  ghost predicate KeepsAt(front: seq<byte>, slide: nat, n: nat, i: nat)
    requires |front| <= n && i < n
  {
    FrontThen(LittleEndian(FromLittleEndian(front) + slide, n), front, LittleEndian(slide, n), i)
  }

  /** `front` plus the slide keeps `front` and puts the slide's bytes after it. */
  ghost predicate AddKeepsFront(front: seq<byte>, slide: nat, n: nat)
    requires |front| <= n
  {
    forall i: nat :: i < n ==> KeepsAt(front, slide, n, i)
  }

  ghost predicate LowBytesZero(slide: nat, c: nat, n: nat)
    requires c <= n
  {
    forall i :: 0 <= i < c ==> LittleEndian(slide, n)[i] == 0
  }

  lemma {:induction false} AddKeepsExactly(front: seq<byte>, slide: nat, n: nat)
    requires |front| <= n
    ensures AddKeepsFront(front, slide, n) <==> LowBytesZero(slide, |front|, n)
    decreases |front|
  {
    if front != [] {
      if slide % 0x100 == 0 {
        AddKeepsExactly(front[1..], slide / 0x100, n - 1);
        KeepsTail(front, slide, n);
        ZeroTailBytes(slide, |front|, n);
      } else {
        assert LittleEndian(slide, n)[0] != 0 && !KeepsAt(front, slide, n, 0);
      }
    }
  }

  lemma KeepsNext(front: seq<byte>, slide: nat, n: nat, i: nat)
    requires 0 < |front| <= n && slide % 0x100 == 0 && i < n
    ensures KeepsAt(front, slide, n, i) <==> i == 0 || KeepsAt(front[1..], slide / 0x100, n - 1, i - 1)
  {
    var x := FromLittleEndian(front) + slide;
    assert x % 0x100 == front[0] && x / 0x100 == FromLittleEndian(front[1..]) + slide / 0x100;
  }

  lemma KeepsTail(front: seq<byte>, slide: nat, n: nat)
    requires 0 < |front| <= n && slide % 0x100 == 0
    ensures AddKeepsFront(front, slide, n) <==> AddKeepsFront(front[1..], slide / 0x100, n - 1)
  {
    var rest, higher, len := front[1..], slide / 0x100, n - 1;
    forall i: nat | i < n ensures KeepsAt(front, slide, n, i) <==> i == 0 || KeepsAt(rest, higher, len, i - 1) {
      KeepsNext(front, slide, n, i);
    }
    if AddKeepsFront(front, slide, n) {
      forall i: nat | i < len ensures KeepsAt(rest, higher, len, i) {
        assert KeepsAt(front, slide, n, i + 1);
      }
    }
  }

  lemma ZeroTailBytes(slide: nat, c: nat, n: nat)
    requires 0 < c <= n && slide % 0x100 == 0
    ensures LowBytesZero(slide, c, n) <==> LowBytesZero(slide / 0x100, c - 1, n - 1)
  {
    var b, b' := LittleEndian(slide, n), LittleEndian(slide / 0x100, n - 1);
    assert b == [0] + b';
    if LowBytesZero(slide, c, n) {
      forall i | 0 <= i < c - 1 ensures b'[i] == 0 {
        assert b[i + 1] == b'[i];
      }
    }
  }

  /** The low `n` bytes do not see what is added above them. */
  lemma {:induction false} HigherBytes(w: nat, q: nat, n: nat)
    ensures LittleEndian(w + Scaled(q, n), n) == LittleEndian(w, n)
    decreases n
  {
    if n > 0 {
      LowByte(w, Scaled(q, n - 1));
      HigherBytes(w / 0x100, q, n - 1);
    }
  }

  /** `q` times 256 to the `n`. */
  function Scaled(q: nat, n: nat): nat {
    if n == 0 then q else 0x100 * Scaled(q, n - 1)
  }

  lemma ScaledEight(q: nat)
    ensures Scaled(q, 8) == 0x1_0000_0000_0000_0000 * q
  {
    assert Scaled(q, 1) == 0x100 * q && Scaled(q, 2) == 0x100 * Scaled(q, 1);
    assert Scaled(q, 3) == 0x100 * Scaled(q, 2) && Scaled(q, 4) == 0x100 * Scaled(q, 3);
    assert Scaled(q, 5) == 0x100 * Scaled(q, 4) && Scaled(q, 6) == 0x100 * Scaled(q, 5);
    assert Scaled(q, 7) == 0x100 * Scaled(q, 6);
  }

  /** Wrapping to 64 bits drops none of the eight bytes. */
  lemma WrapKeepsBytes(x: nat)
    ensures LittleEndian(Wrap64(x), 8) == LittleEndian(x, 8)
  {
    var q := x / 0x1_0000_0000_0000_0000;
    ScaledEight(q);
    HigherBytes(Wrap64(x), q, 8);
  }

  lemma AddKeepsBytes(front: seq<byte>, slide: nat, n: nat, bs: seq<byte>, whole: seq<byte>)
    requires |front| <= n && bs == LittleEndian(FromLittleEndian(front) + slide, n) && whole == LittleEndian(slide, n)
    ensures AddKeepsFront(front, slide, n) <==> AllFrontThen(bs, front, whole)
  {
    forall i: nat | i < n ensures KeepsAt(front, slide, n, i) <==> FrontThen(bs, front, whole, i) {
    }
    if AllFrontThen(bs, front, whole) {
      forall i: nat | i < n ensures KeepsAt(front, slide, n, i) { assert FrontThen(bs, front, whole, i); }
    }
  }

  /** A word that is the front plus the slide agrees in every byte exactly when the slide ends in that many zero bytes. */
  lemma WordAgreesExactly(front: seq<byte>, slide: u64, x: nat, v: u64)
    requires |front| <= 8 && x == FromLittleEndian(front) + slide && v == Wrap64(x)
    ensures AllFrontThen(LittleEndian(v, 8), front, LittleEndian(slide, 8)) <==> LowBytesZero(slide, |front|, 8)
  {
    WrapKeepsBytes(x);
    FrontKeptExactly(front, slide, 8, LittleEndian(v, 8), LittleEndian(slide, 8));
  }

  lemma FrontKeptExactly(front: seq<byte>, slide: nat, n: nat, bs: seq<byte>, whole: seq<byte>)
    requires |front| <= n && bs == LittleEndian(FromLittleEndian(front) + slide, n) && whole == LittleEndian(slide, n)
    ensures AllFrontThen(bs, front, whole) <==> LowBytesZero(slide, |front|, n)
  {
    AddKeepsBytes(front, slide, n, bs, whole);
    AddKeepsExactly(front, slide, n);
  }

  /** Every byte of the slot agrees. */
  ghost predicate AllAgree(info: MachInfo, file: seq<byte>, l: Loose, r: Fixup)
    requires LoosePlaced(info, l) && Placed(info, r)
  {
    forall p: nat :: InSlot(info, r, p) ==> AgreesAt(info, file, l, r, p)
  }

  /** A straddling rebase, rebased once: memory keeps the front and the slide's tail exactly when the slide ends in that many zero bytes. */
  lemma RebaseEdge(info: MachInfo, file: seq<byte>, l: Loose, r: Fixup)
    requires WellFormedSegments(info, |file|) && LoosePlaced(info, l) && r in l.rebases && !Backed(info, r)
    requires Count(info, l.rebases, Slot(info, r)) == 1
    ensures FrontLen(info, r) < 8
    ensures AllAgree(info, file, l, r) <==> LowBytesZero(l.slide, FrontLen(info, r), 8)
  {
    SlotBounds(info, |file|, r);
    SlotPosition(info, file, r, Slot(info, r));
    EdgeFrom(info, file, l, r, FileFront(info, file, r), FinalWord(info, file, l, r));
  }

  lemma EdgeFrom(info: MachInfo, file: seq<byte>, l: Loose, r: Fixup, front: seq<byte>, v: u64)
    requires LoosePlaced(info, l) && Placed(info, r) && 0 <= Slot(info, r) && Count(info, l.rebases, Slot(info, r)) == 1
    requires front == FileFront(info, file, r) && |front| == FrontLen(info, r) < 8 && v == FinalWord(info, file, l, r)
    ensures AllAgree(info, file, l, r) <==> LowBytesZero(l.slide, |front|, 8)
  {
    EdgeWord(info, file, l, r, front, v, LittleEndian(v, 8), LittleEndian(l.slide, 8));
    AddedOnce(FromLittleEndian(front), Count(info, l.rebases, Slot(info, r)), l.slide);
    WordAgreesExactly(front, l.slide, FromLittleEndian(front) + l.slide, v);
  }

  lemma EdgeWord(info: MachInfo, file: seq<byte>, l: Loose, r: Fixup, front: seq<byte>, v: u64, bs: seq<byte>, whole: seq<byte>)
    requires LoosePlaced(info, l) && Placed(info, r) && 0 <= Slot(info, r)
    requires front == FileFront(info, file, r) && |front| == FrontLen(info, r) && v == FinalWord(info, file, l, r)
    requires bs == LittleEndian(v, 8) && whole == LittleEndian(l.slide, 8)
    ensures AllAgree(info, file, l, r) <==> AllFrontThen(bs, front, whole)
  {
    var o := Slot(info, r);
    forall p: nat | InSlot(info, r, p) ensures AgreesAt(info, file, l, r, p) <==> FrontThen(bs, front, whole, p - o) {
      assert WordAgrees(v, front, l.slide, p - o) <==> FrontThen(bs, front, whole, p - o);
    }
    if AllAgree(info, file, l, r) {
      forall i: nat | i < 8 ensures FrontThen(bs, front, whole, i) {
        assert InSlot(info, r, o + i) && AgreesAt(info, file, l, r, o + i) && (o + i) - o == i;
      }
    }
  }

  lemma AddedOnce(w: nat, k: nat, slide: u64)
    requires k == 1
    ensures Added(w, k, slide) == Wrap64(w + slide)
  {
    assert Added(w, 1, slide) == Added(w + slide, 0, slide);
  }

  /**
   * A rebase across the end of the file bytes, beside any other well-formed fixups: the mapping adds the slide to
   * file bytes the buffer leaves alone, so the loaders agree exactly when the slide is zero in that many low bytes.
   */
  lemma StraddlingRebase(info: MachInfo, host: Host, file: seq<byte>, loadBase: u64, r: Fixup, m: seq<byte>, n: seq<byte>)
    requires WellFormedSegments(info, |file|) && WellFormedText(info) && Tidy(info, Fixups(info, host, loadBase))
    requires LoneEdge(info, Fixups(info, host, loadBase), r) && r.rebase && RebasedOnce(info, LooseOf(info, host, loadBase).rebases)
    requires BufferImage(info, host, file, loadBase, [], m) && MappedImage(info, host, file, loadBase, n)
    ensures FrontLen(info, r) < 8
    ensures m == n <==> LowBytesZero(Slide(info, loadBase), FrontLen(info, r), 8)
  {
    AgreeFresh(info, host, file, loadBase, m, n);
    LooseSplits(info, host, loadBase);
    RebaseHarmless(info, file, Fixups(info, host, loadBase), LooseOf(info, host, loadBase), r);
  }

  lemma RebaseHarmless(info: MachInfo, file: seq<byte>, fs: seq<Fixup>, l: Loose, r: Fixup)
    requires WellFormedSegments(info, |file|) && AllPlaced(info, fs) && LoosePlaced(info, l) && LooseMembers(info, fs, l)
    requires LoneEdge(info, fs, r) && r.rebase && RebasedOnce(info, l.rebases)
    ensures FrontLen(info, r) < 8
    ensures FixupsHarmless(info, file, fs, l) <==> LowBytesZero(l.slide, FrontLen(info, r), 8)
  {
    EdgeUnbound(info, file, fs, l, r);
    OthersAgree(info, file, l, r);
    RebaseEdge(info, file, l, r);
  }

  lemma EdgeUnbound(info: MachInfo, file: seq<byte>, fs: seq<Fixup>, l: Loose, r: Fixup)
    requires AllPlaced(info, fs) && LoosePlaced(info, l) && LooseMembers(info, fs, l) && LoneEdge(info, fs, r) && r.rebase
    ensures NoBindOver(info, l, r) && EdgesAgree(info, file, fs, l.binds)
    ensures forall g :: g in l.rebases && Slot(info, g) == Slot(info, r) ==> g == r
  {
    forall p: nat | AtEdge(info, fs, p) ensures LastByte(info, l.binds, p) == None {
      OnlyEdge(info, fs, r, p);
      NoBindByte(info, l, r, p);
    }
  }
}
