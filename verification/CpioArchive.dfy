/** What the archive walk promises: on every stream, nothing unpinned is cached; on a valid archive, exactly the wanted bodies are. */
module CpioArchive {
  import opened Bytes
  import opened Wrappers
  import opened Cpio
  import opened Streams
  import Utf8

  // ── every stream ─────────────────────────────────────────────────────────

  /** A file that is new or changed meets the pins of a wanted asset of that name. */
  predicate OnlyPinned(before: Dir, after: Dir, wanted: seq<Want>, digest: seq<byte> -> Digest) {
    forall k :: k in after && (k !in before || before[k] != after[k]) ==> exists w :: w in wanted && w.name == k && Meets(w, after[k], digest)
  }

  lemma KeepIsPinned(start: Dir, dir: Dir, all: seq<Want>, w: Want, body: seq<byte>, digest: seq<byte> -> Digest)
    requires OnlyPinned(start, dir, all, digest) && w in all && Meets(w, body, digest)
    ensures OnlyPinned(start, Keep(dir, w, body), all, digest)
  {
  }

  lemma WithoutIsPart(wanted: seq<Want>, i: nat)
    requires i < |wanted|
    ensures forall w :: w in Without(wanted, i) ==> w in wanted
  {
  }

  /** However the walk ends, on any bytes at all, no file of the wrong size or digest reaches a cache name. */
  lemma {:induction false} NothingUnpinned(s: seq<byte>, wanted: seq<Want>, all: seq<Want>, start: Dir, dir: Dir, digest: seq<byte> -> Digest)
    requires OnlyPinned(start, dir, all, digest) && forall w :: w in wanted ==> w in all
    ensures OnlyPinned(start, WalkArchive(s, wanted, dir, digest).dir, all, digest)
    decreases |s|
  {
    if wanted != [] {
      var h := ParseHead(s);
      if h.Head? && h.name != TRAILER && h.size <= |s| - h.used {
        var rest := s[h.used..];
        var i := Find(wanted, h.name);
        if i.None? {
          NothingUnpinned(rest[h.size..], wanted, all, start, dir, digest);
        } else if Meets(wanted[i.value], rest[..h.size], digest) {
          KeepIsPinned(start, dir, all, wanted[i.value], rest[..h.size], digest);
          WithoutIsPart(wanted, i.value);
          NothingUnpinned(rest[h.size..], Without(wanted, i.value), all, start, Keep(dir, wanted[i.value], rest[..h.size]), digest);
        }
      }
    }
  }

  // ── valid archives ───────────────────────────────────────────────────────

  /** `fields` are the header's device, inode, mode, owner, link and time fields, which the walk never reads. */
  datatype Entry = Entry(fields: seq<byte>, name: Name, body: seq<byte>)

  predicate GoodEntry(e: Entry) {
    |e.fields| == 53 && Utf8.IsText(e.name) && |e.name| + 1 < Pow8(6) && |e.body| < Pow8(11)
  }

  /** An entry of the archive proper, before its trailer. */
  predicate GoodEntries(es: seq<Entry>) { forall e :: e in es ==> GoodEntry(e) && e.name != TRAILER }

  function PrintHead(e: Entry): seq<byte> {
    MAGIC + e.fields + Octal(|e.name| + 1, 6) + Octal(|e.body|, 11) + e.name + [0]
  }

  function Print(e: Entry): seq<byte> { PrintHead(e) + e.body }

  function PrintAll(es: seq<Entry>): seq<byte> {
    if es == [] then [] else Print(es[0]) + PrintAll(es[1..])
  }

  /** Reading back a printed header. */
  lemma HeadParses(e: Entry, rest: seq<byte>)
    requires GoodEntry(e)
    ensures ParseHead(PrintHead(e) + rest) == Head(e.name, |PrintHead(e)|, |e.body|)
  {
    var s := PrintHead(e) + rest;
    FieldRoundTrip(|e.name| + 1, 6);
    FieldRoundTrip(|e.body|, 11);
    Utf8.LossyKeepsText(e.name);
    HeadSlices(e, rest);
  }

  lemma HeadSlices(e: Entry, rest: seq<byte>)
    requires |e.fields| == 53
    ensures var s := PrintHead(e) + rest; var n := |e.name| + 1;
            && |PrintHead(e)| == 76 + n && |s| >= 76 + n
            && s[..6] == MAGIC && s[59..65] == Octal(n, 6) && s[65..76] == Octal(|e.body|, 11)
            && s[76..75 + n] == e.name && s[75 + n] == 0
  {
  }

  /** The walk over entries: the first entry at a wanted path decides it. */
  function WalkEntries(es: seq<Entry>, wanted: seq<Want>, dir: Dir, digest: seq<byte> -> Digest): Outcome
    decreases |es|
  {
    if wanted == [] then Outcome(dir, None)
    else if es == [] then Outcome(dir, Some(TrailerReached))
    else
      match Find(wanted, es[0].name)
      case None => WalkEntries(es[1..], wanted, dir, digest)
      case Some(i) =>
        var w, body := wanted[i], es[0].body;
        if !Meets(w, body, digest) then Outcome(dir - {Tmp(w.name)}, Some(FailedValidation))
        else WalkEntries(es[1..], Without(wanted, i), Keep(dir, w, body), digest)
  }

  /** One printed entry in the byte walk. */
  lemma EntryStep(e: Entry, rest: seq<byte>, wanted: seq<Want>, dir: Dir, digest: seq<byte> -> Digest)
    requires GoodEntry(e) && e.name != TRAILER && wanted != []
    ensures WalkArchive(Print(e) + rest, wanted, dir, digest) ==
            match Find(wanted, e.name)
            case None => WalkArchive(rest, wanted, dir, digest)
            case Some(i) =>
              if !Meets(wanted[i], e.body, digest) then Outcome(dir - {Tmp(wanted[i].name)}, Some(FailedValidation))
              else WalkArchive(rest, Without(wanted, i), Keep(dir, wanted[i], e.body), digest)
  {
    var s := Print(e) + rest;
    assert s == PrintHead(e) + (e.body + rest);
    HeadParses(e, e.body + rest);
    var after := s[|PrintHead(e)|..];
    assert after == e.body + rest;
    assert after[..|e.body|] == e.body && after[|e.body|..] == rest;
  }

  lemma PrintParses(e: Entry, rest: seq<byte>)
    requires GoodEntry(e)
    ensures ParseHead(Print(e) + rest) == Head(e.name, |PrintHead(e)|, |e.body|)
  {
    Associates(PrintHead(e), e.body, rest);
    HeadParses(e, e.body + rest);
  }

  lemma Associates(a: seq<byte>, b: seq<byte>, c: seq<byte>)
    ensures a + b + c == a + (b + c)
  {
  }

  lemma WalkTrailer(s: seq<byte>, wanted: seq<Want>, dir: Dir, digest: seq<byte> -> Digest)
    requires wanted != [] && ParseHead(s).Head? && ParseHead(s).name == TRAILER
    ensures WalkArchive(s, wanted, dir, digest) == Outcome(dir, Some(TrailerReached))
  {
  }

  lemma TrailerStep(trailer: Entry, rest: seq<byte>, wanted: seq<Want>, dir: Dir, digest: seq<byte> -> Digest)
    requires GoodEntry(trailer) && trailer.name == TRAILER && wanted != []
    ensures WalkArchive(Print(trailer) + rest, wanted, dir, digest) == Outcome(dir, Some(TrailerReached))
  {
    PrintParses(trailer, rest);
    WalkTrailer(Print(trailer) + rest, wanted, dir, digest);
  }

  /** The printed archive: its entries, the trailer, and whatever follows. */
  function Archive(es: seq<Entry>, trailer: Entry, rest: seq<byte>): seq<byte> { PrintAll(es) + (Print(trailer) + rest) }

  lemma ArchiveFirst(es: seq<Entry>, trailer: Entry, rest: seq<byte>)
    ensures es == [] ==> Archive(es, trailer, rest) == Print(trailer) + rest
    ensures es != [] ==> Archive(es, trailer, rest) == Print(es[0]) + Archive(es[1..], trailer, rest)
  {
  }

  /** The byte walk of a printed archive with its trailer is the walk over its entries. */
  lemma {:induction false} ArchiveWalk(es: seq<Entry>, trailer: Entry, rest: seq<byte>, wanted: seq<Want>, dir: Dir, digest: seq<byte> -> Digest)
    requires GoodEntries(es) && GoodEntry(trailer) && trailer.name == TRAILER
    ensures WalkArchive(Archive(es, trailer, rest), wanted, dir, digest) == WalkEntries(es, wanted, dir, digest)
    decreases |es|, 1
  {
    if wanted != [] {
      ArchiveFirst(es, trailer, rest);
      if es == [] {
        TrailerStep(trailer, rest, wanted, dir, digest);
      } else {
        ArchiveEntry(es, trailer, rest, wanted, dir, digest);
      }
    }
  }

  lemma {:induction false} ArchiveEntry(es: seq<Entry>, trailer: Entry, rest: seq<byte>, wanted: seq<Want>, dir: Dir, digest: seq<byte> -> Digest)
    requires GoodEntries(es) && GoodEntry(trailer) && trailer.name == TRAILER && es != [] && wanted != []
    ensures WalkArchive(Print(es[0]) + Archive(es[1..], trailer, rest), wanted, dir, digest) == WalkEntries(es, wanted, dir, digest)
    decreases |es|, 0
  {
    var e, others := es[0], es[1..];
    assert e in es;
    EntryStep(e, Archive(others, trailer, rest), wanted, dir, digest);
    var i := Find(wanted, e.name);
    if i.None? {
      ArchiveWalk(others, trailer, rest, wanted, dir, digest);
    } else if Meets(wanted[i.value], e.body, digest) {
      ArchiveWalk(others, trailer, rest, Without(wanted, i.value), Keep(dir, wanted[i.value], e.body), digest);
    }
  }

  // ── exactly the wanted bodies ────────────────────────────────────────────

  /** The body of the first entry at `path`. */
  function FirstBody(es: seq<Entry>, path: Name): Option<seq<byte>> {
    if es == [] then None else if es[0].name == path then Some(es[0].body) else FirstBody(es[1..], path)
  }

  /** The archive has the asset, and it meets its pins. */
  predicate Available(es: seq<Entry>, w: Want, digest: seq<byte> -> Digest) {
    FirstBody(es, w.path).Some? && Meets(w, FirstBody(es, w.path).value, digest)
  }

  predicate AllAvailable(es: seq<Entry>, wanted: seq<Want>, digest: seq<byte> -> Digest) {
    forall w :: w in wanted ==> Available(es, w, digest)
  }

  /** No two assets share a path or a name, and no part file is a cache name. */
  predicate Distinct(wanted: seq<Want>) {
    && (forall i, j :: 0 <= i < j < |wanted| ==> wanted[i].path != wanted[j].path && wanted[i].name != wanted[j].name)
    && (forall v, w :: v in wanted && w in wanted ==> Tmp(v.name) != w.name)
  }

  lemma WithoutDistinct(wanted: seq<Want>, i: nat)
    requires Distinct(wanted) && i < |wanted|
    ensures Distinct(Without(wanted, i))
    ensures forall w :: w in Without(wanted, i) ==> w in wanted && w.path != wanted[i].path && w.name != wanted[i].name
    ensures forall w :: w in wanted && w != wanted[i] ==> w in Without(wanted, i)
  {
  }

  predicate NamesCached(es: seq<Entry>, wanted: seq<Want>, after: Dir) {
    forall w :: w in wanted ==> w.name in after && Some(after[w.name]) == FirstBody(es, w.path) && Tmp(w.name) !in after
  }

  predicate Elsewhere(wanted: seq<Want>, k: Name) { forall w :: w in wanted ==> k != w.name && k != Tmp(w.name) }

  ghost predicate OthersKept(wanted: seq<Want>, before: Dir, after: Dir) {
    forall k :: Elsewhere(wanted, k) ==> (k in after <==> k in before) && (k in before ==> after[k] == before[k])
  }

  /** The cache the walk leaves: every wanted body under its name, every other file as it was, part files gone. */
  ghost predicate Cached(es: seq<Entry>, wanted: seq<Want>, before: Dir, after: Dir) {
    NamesCached(es, wanted, after) && OthersKept(wanted, before, after)
  }

  lemma NamesStep(es: seq<Entry>, wanted: seq<Want>, i: nat, after: Dir)
    requires es != [] && i < |wanted| && Distinct(wanted) && es[0].name == wanted[i].path
    requires NamesCached(es[1..], Without(wanted, i), after)
    requires wanted[i].name in after && after[wanted[i].name] == es[0].body && Tmp(wanted[i].name) !in after
    ensures NamesCached(es, wanted, after)
  {
  }

  lemma OthersStep(wanted: seq<Want>, i: nat, before: Dir, body: seq<byte>, after: Dir)
    requires i < |wanted| && Distinct(wanted) && OthersKept(Without(wanted, i), Keep(before, wanted[i], body), after)
    ensures OthersKept(wanted, before, after)
    ensures wanted[i].name in after && after[wanted[i].name] == body && Tmp(wanted[i].name) !in after
  {
    var w, rest, mid := wanted[i], Without(wanted, i), Keep(before, wanted[i], body);
    OthersElsewhere(wanted, i);
    assert Elsewhere(rest, w.name) && Elsewhere(rest, Tmp(w.name));
    assert w in wanted;
    WithoutIsPart(wanted, i);
    forall k | Elsewhere(wanted, k) ensures (k in after <==> k in before) && (k in before ==> after[k] == before[k]) {
      assert Elsewhere(rest, k);
      assert k != w.name && k != Tmp(w.name);
    }
  }

  /** The other assets use neither this one's name nor its part file. */
  lemma OthersElsewhere(wanted: seq<Want>, i: nat)
    requires Distinct(wanted) && i < |wanted|
    ensures var w := wanted[i]; Tmp(w.name) != w.name
    ensures var w := wanted[i];
            forall v :: v in Without(wanted, i) ==> w.name != v.name && w.name != Tmp(v.name) && Tmp(w.name) != v.name && Tmp(w.name) != Tmp(v.name)
  {
    WithoutDistinct(wanted, i);
    var w := wanted[i];
    assert w in wanted;
    forall v | v in Without(wanted, i) ensures w.name != v.name && w.name != Tmp(v.name) && Tmp(w.name) != v.name && Tmp(w.name) != Tmp(v.name) {
      TmpInjective(w.name, v.name);
    }
  }

  lemma TmpInjective(a: Name, b: Name)
    ensures Tmp(a) == Tmp(b) ==> a == b
  {
    assert Tmp(a)[1..|Tmp(a)| - 5] == a && Tmp(b)[1..|Tmp(b)| - 5] == b;
  }

  /**
   * The walk over a valid archive succeeds exactly when every wanted path is in it and the first
   * body there meets its pins; then the cache holds exactly those bodies and is otherwise unchanged.
   */
  lemma {:induction false} ExactlyTheWanted(es: seq<Entry>, wanted: seq<Want>, dir: Dir, digest: seq<byte> -> Digest)
    requires Distinct(wanted)
    ensures var o := WalkEntries(es, wanted, dir, digest);
            && (o.error == None <==> AllAvailable(es, wanted, digest))
            && (o.error == None ==> Cached(es, wanted, dir, o.dir))
    decreases |es|
  {
    if wanted != [] {
      if es == [] {
        assert wanted[0] in wanted && !Available(es, wanted[0], digest);
      } else {
        var i := Find(wanted, es[0].name);
        if i.None? {
          ExactlyTheWanted(es[1..], wanted, dir, digest);
          assert AllAvailable(es, wanted, digest) <==> AllAvailable(es[1..], wanted, digest);
        } else {
          var w := wanted[i.value];
          assert w in wanted;
          WithoutDistinct(wanted, i.value);
          if Meets(w, es[0].body, digest) {
            ExactlyTheWanted(es[1..], Without(wanted, i.value), Keep(dir, w, es[0].body), digest);
            AvailableStep(es, wanted, i.value, digest);
            var o := WalkEntries(es, wanted, dir, digest);
            if o.error == None {
              OthersStep(wanted, i.value, dir, es[0].body, o.dir);
              NamesStep(es, wanted, i.value, o.dir);
            }
          } else {
            assert !Available(es, w, digest);
          }
        }
      }
    }
  }

  lemma AvailableStep(es: seq<Entry>, wanted: seq<Want>, i: nat, digest: seq<byte> -> Digest)
    requires es != [] && i < |wanted| && Distinct(wanted) && es[0].name == wanted[i].path && Meets(wanted[i], es[0].body, digest)
    ensures AllAvailable(es, wanted, digest) <==> AllAvailable(es[1..], Without(wanted, i), digest)
  {
    WithoutDistinct(wanted, i);
    forall w | w in Without(wanted, i) ensures Available(es, w, digest) <==> Available(es[1..], w, digest) {
    }
    assert Available(es, wanted[i], digest);
    forall w | w in wanted && AllAvailable(es[1..], Without(wanted, i), digest) ensures Available(es, w, digest) {
      if w != wanted[i] { assert w in Without(wanted, i); }
    }
  }

  /** What an outcome on a valid archive must be. */
  ghost predicate Delivered(es: seq<Entry>, wanted: seq<Want>, digest: seq<byte> -> Digest, before: Dir, o: Outcome) {
    && (o.error == None <==> AllAvailable(es, wanted, digest))
    && (o.error == None ==> Cached(es, wanted, before, o.dir))
    && OnlyPinned(before, o.dir, wanted, digest)
  }

  /** On the bytes of a printed archive, whatever follows it, the walk delivers exactly the wanted bodies. */
  lemma ArchiveDelivers(es: seq<Entry>, trailer: Entry, rest: seq<byte>, wanted: seq<Want>, dir: Dir, digest: seq<byte> -> Digest)
    requires GoodEntries(es) && GoodEntry(trailer) && trailer.name == TRAILER && Distinct(wanted)
    ensures Delivered(es, wanted, digest, dir, WalkArchive(Archive(es, trailer, rest), wanted, dir, digest))
  {
    ArchiveWalk(es, trailer, rest, wanted, dir, digest);
    ExactlyTheWanted(es, wanted, dir, digest);
    NothingUnpinned(Archive(es, trailer, rest), wanted, wanted, dir, dir, digest);
  }

  /** The fetching loop on a stream that holds a printed archive. */
  method FetchArchive(cache: Cache, source: Source, ghost es: seq<Entry>, ghost trailer: Entry, ghost rest: seq<byte>,
                      wanted: seq<Want>, digest: seq<byte> -> Digest)
    returns (error: Option<FetchError>)
    requires source.Valid() && source.Left() == Archive(es, trailer, rest)
    requires GoodEntries(es) && GoodEntry(trailer) && trailer.name == TRAILER && Distinct(wanted)
    modifies cache, source
    ensures Delivered(es, wanted, digest, old(cache.files), Outcome(cache.files, error))
  {
    ArchiveDelivers(es, trailer, rest, wanted, cache.files, digest);
    error := cache.FetchAssets(source, wanted, digest);
  }
}
