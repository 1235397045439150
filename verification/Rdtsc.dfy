/** The rdtsc scanner and the pinned patch table of the Mach-O loader. */
module Rdtsc {
  import opened Bytes

  /** The three timing idioms, by type id: 0 is A, 1 is B and everything else is C. */
  function Idiom(kind: nat): (bs: seq<byte>)
    ensures |bs| == Size(kind)
  {
    if kind == 0 then [0x0F, 0x31, 0x48, 0xC1, 0xE2, 0x20, 0x48, 0x09, 0xC2]
    else if kind == 1 then [0x0F, 0x31, 0x48, 0x89, 0xD1, 0x48, 0xC1, 0xE1, 0x20, 0x48, 0x09, 0xC1]
    else [0x0F, 0x31, 0x48, 0xC1, 0xE0, 0x04, 0x48, 0x83, 0xE0, 0x70]
  }

  function Replacement(kind: nat): (bs: seq<byte>)
    ensures |bs| == Size(kind)
  {
    if kind == 0 then [0x31, 0xC0, 0x31, 0xD2, 0x90, 0x90, 0x90, 0x90, 0x90]
    else if kind == 1 then [0x31, 0xC0, 0x31, 0xD2, 0x90, 0x90, 0x90, 0x90, 0x90, 0x90, 0x90, 0x90]
    else [0x31, 0xC0, 0x31, 0xD2, 0x90, 0x90, 0x90, 0x90, 0x90, 0x90]
  }

  function Size(kind: nat): (n: nat) {
    if kind == 0 then 9 else if kind == 1 then 12 else 10
  }

  /** The idiom of type `kind` stands at position `i` of `s`. */
  predicate Occurs(s: seq<byte>, i: nat, kind: nat) {
    i + Size(kind) <= |s| && s[i..i + Size(kind)] == Idiom(kind)
  }

  /** A position the scan of `[lo, hi)` must rewrite. */
  predicate Site(s: seq<byte>, lo: nat, hi: nat, i: nat, kind: nat) {
    lo <= i && i + 12 <= hi && kind < 3 && Occurs(s, i, kind)
  }

  /** Position `p` lies inside the site at `i`. */
  predicate InSite(s: seq<byte>, lo: nat, hi: nat, p: nat, i: nat, kind: nat) {
    Site(s, lo, hi, i, kind) && i <= p < i + Size(kind)
  }

  ghost predicate Covered(s: seq<byte>, lo: nat, hi: nat, p: nat) {
    exists i: nat, kind: nat :: InSite(s, lo, hi, p, i, kind)
  }

  /** What position `p` holds once exactly the sites of `[lo, hi)` are rewritten. */
  ghost function Cell(s: seq<byte>, lo: nat, hi: nat, p: nat): byte
    requires p < |s|
  {
    if Covered(s, lo, hi, p) then
      var i: nat, kind: nat :| InSite(s, lo, hi, p, i, kind);
      Replacement(kind)[p - i]
    else s[p]
  }

  /** `t` is `s` with exactly the sites of `[lo, hi)` rewritten; there is one such `t`. */
  ghost predicate Neutralizes(s: seq<byte>, lo: nat, hi: nat, t: seq<byte>) {
    |t| == |s| && forall p: nat :: p < |s| ==> t[p] == Cell(s, lo, hi, p)
  }

  lemma OccursBytes(s: seq<byte>, i: nat, kind: nat)
    requires Occurs(s, i, kind)
    ensures s[i] == 0x0F && s[i + 1] == 0x31 && s[i + 2] == 0x48
    ensures forall p :: i + 2 <= p < i + Size(kind) ==> s[p] != 0x0F && s[p] != 0x31
    ensures s[i + 3] == (if kind == 1 then 0x89 else 0xC1)
    ensures s[i + 4] == (if kind == 0 then 0xE2 else if kind == 1 then 0xD1 else 0xE0)
  {
    var at := s[i..i + Size(kind)];
    assert forall p :: i <= p < i + Size(kind) ==> s[p] == at[p - i];
  }

  /** No two idiom occurrences overlap, and a position carries at most one. */
  lemma NoOverlap(s: seq<byte>, i: nat, ki: nat, j: nat, kj: nat)
    requires Occurs(s, i, ki) && Occurs(s, j, kj) && ki < 3 && kj < 3
    requires i <= j < i + Size(ki)
    ensures i == j && ki == kj
  {
    OccursBytes(s, i, ki);
    OccursBytes(s, j, kj);
  }

  lemma CellInSite(s: seq<byte>, lo: nat, hi: nat, p: nat, i: nat, kind: nat)
    requires p < |s| && InSite(s, lo, hi, p, i, kind)
    ensures Cell(s, lo, hi, p) == Replacement(kind)[p - i]
  {
    assert Covered(s, lo, hi, p);
    var j: nat, k: nat :| InSite(s, lo, hi, p, j, k) && Cell(s, lo, hi, p) == Replacement(k)[p - j];
    if i <= j {
      NoOverlap(s, i, kind, j, k);
    } else {
      NoOverlap(s, j, k, i, kind);
    }
  }

  /** Sites before `i` end by `i`. */
  ghost predicate Cut(s: seq<byte>, lo: nat, hi: nat, i: nat) {
    forall j: nat, k: nat :: Site(s, lo, hi, j, k) && j < i ==> j + Size(k) <= i
  }

  /** The scan has dealt with everything before `i`: `w` is rewritten up to there and original from there on. */
  ghost predicate Progress(s: seq<byte>, lo: nat, hi: nat, i: nat, w: seq<byte>) {
    && |w| == |s|
    && Cut(s, lo, hi, i)
    && (forall p: nat :: p < i && p < |s| ==> w[p] == Cell(s, lo, hi, p))
    && (forall p: nat :: i <= p < |s| ==> w[p] == s[p])
  }

  lemma PastSite(s: seq<byte>, lo: nat, hi: nat, i: nat, w: seq<byte>, kind: nat)
    requires Progress(s, lo, hi, i, w) && lo <= i && i + 12 <= hi <= |s| && kind < 3 && Occurs(w, i, kind)
    ensures Progress(s, lo, hi, i + Size(kind), Splice(w, i, Replacement(kind)))
  {
    assert s[i..i + Size(kind)] == w[i..i + Size(kind)];
    forall j: nat, k: nat | Site(s, lo, hi, j, k) && i <= j < i + Size(kind)
      ensures j + Size(k) <= i + Size(kind)
    {
      NoOverlap(s, i, kind, j, k);
    }
    forall p | i <= p < i + Size(kind)
      ensures Cell(s, lo, hi, p) == Replacement(kind)[p - i]
    {
      assert InSite(s, lo, hi, p, i, kind);
      CellInSite(s, lo, hi, p, i, kind);
    }
  }

  lemma PastGap(s: seq<byte>, lo: nat, hi: nat, i: nat, w: seq<byte>)
    requires Progress(s, lo, hi, i, w) && lo <= i < |s|
    requires forall kind: nat :: kind < 3 ==> !Occurs(w, i, kind)
    ensures Progress(s, lo, hi, i + 1, w)
  {
    forall kind: nat | kind < 3
      ensures !Occurs(s, i, kind)
    {
      if i + Size(kind) <= |s| {
        assert s[i..i + Size(kind)] == w[i..i + Size(kind)];
        assert !Occurs(w, i, kind);
      }
    }
  }

  /** The scan loop, over a file buffer or over mapped memory. */
  method Scan(work: array<byte>, lo: nat, hi: nat)
    requires hi <= work.Length
    modifies work
    ensures Neutralizes(old(work[..]), lo, hi, work[..])
  {
    ghost var s := work[..];
    var i := lo;
    while i + 12 <= hi
      invariant lo <= i
      invariant Progress(s, lo, hi, i, work[..])
    {
      ghost var w := work[..];
      assert work[i..i + 9] == w[i..i + 9] && work[i..i + 12] == w[i..i + 12] && work[i..i + 10] == w[i..i + 10];
      if work[i] != 0x0F || work[i + 1] != 0x31 {
        NoRdtscNoIdiom(w, i);
        PastGap(s, lo, hi, i, w);
        i := i + 1;
        continue;
      }
      if work[i..i + 9] == Idiom(0) {
        PastSite(s, lo, hi, i, w, 0);
        Store(work, i, Replacement(0));
        i := i + 9;
      } else if work[i..i + 12] == Idiom(1) {
        PastSite(s, lo, hi, i, w, 1);
        Store(work, i, Replacement(1));
        i := i + 12;
      } else if work[i..i + 10] == Idiom(2) {
        PastSite(s, lo, hi, i, w, 2);
        Store(work, i, Replacement(2));
        i := i + 10;
      } else {
        PastGap(s, lo, hi, i, w);
        i := i + 1;
      }
    }
  }

  /** The two-byte prefilter rejects no idiom. */
  lemma NoRdtscNoIdiom(s: seq<byte>, i: nat)
    requires i + 1 < |s| && (s[i] != 0x0F || s[i + 1] != 0x31)
    ensures forall kind: nat :: !Occurs(s, i, kind)
  {
  }

  /** What the scan promises: every site rewritten, every other byte kept, and no site left behind. */
  lemma NeutralizedMeaning(s: seq<byte>, lo: nat, hi: nat, t: seq<byte>)
    requires Neutralizes(s, lo, hi, t)
    ensures forall i: nat, k: nat :: Site(s, lo, hi, i, k) ==> t[i..i + Size(k)] == Replacement(k)
    ensures forall p: nat :: p < |s| && !Covered(s, lo, hi, p) ==> t[p] == s[p]
    ensures forall i: nat, k: nat :: !Site(t, lo, hi, i, k)
  {
    forall i: nat, k: nat | Site(s, lo, hi, i, k)
      ensures t[i..i + Size(k)] == Replacement(k)
    {
      forall p | i <= p < i + Size(k)
        ensures t[p] == Replacement(k)[p - i]
      {
        assert InSite(s, lo, hi, p, i, k);
        CellInSite(s, lo, hi, p, i, k);
      }
    }
    forall i: nat, k: nat
      ensures !Site(t, lo, hi, i, k)
    {
      NoSiteLeft(s, lo, hi, t, i, k);
    }
  }

  lemma ReplacementBytes(kind: nat, j: nat)
    requires j < Size(kind)
    ensures var r := Replacement(kind);
            r[j] != 0x0F && r[j] != 0x48 && (r[j] == 0x31 ==> j + 1 < Size(kind) && r[j + 1] != 0x48)
  {
  }

  /** A rewritten byte is never `0F`, and the byte after a rewritten `31` is never `48`. */
  lemma CoveredCell(s: seq<byte>, lo: nat, hi: nat, p: nat)
    requires p < |s| && Covered(s, lo, hi, p)
    ensures Cell(s, lo, hi, p) != 0x0F
    ensures Cell(s, lo, hi, p) == 0x31 ==> p + 1 < |s| && Cell(s, lo, hi, p + 1) != 0x48
  {
    var i: nat, k: nat :| InSite(s, lo, hi, p, i, k);
    CellInSite(s, lo, hi, p, i, k);
    ReplacementBytes(k, p - i);
    if Replacement(k)[p - i] == 0x31 {
      assert InSite(s, lo, hi, p + 1, i, k);
      CellInSite(s, lo, hi, p + 1, i, k);
    }
  }

  lemma NoSiteLeft(s: seq<byte>, lo: nat, hi: nat, t: seq<byte>, i: nat, k: nat)
    requires Neutralizes(s, lo, hi, t)
    ensures !Site(t, lo, hi, i, k)
  {
    if !Site(t, lo, hi, i, k) {
      return;
    }
    OccursBytes(t, i, k);
    if Covered(s, lo, hi, i) {
      CoveredCell(s, lo, hi, i);
    } else if Covered(s, lo, hi, i + 1) {
      CoveredCell(s, lo, hi, i + 1);
    } else {
      UntouchedOccurrence(s, t, lo, hi, i, k);
      var start := InSite(s, lo, hi, i, i, k);
    }
  }

  /** A covered position lies on a run of covered positions that starts with `31`. */
  lemma StartOf(s: seq<byte>, lo: nat, hi: nat, p: nat) returns (j: nat)
    requires p < |s| && Covered(s, lo, hi, p)
    ensures j <= p && Cell(s, lo, hi, j) == 0x31
    ensures forall q: nat :: j <= q <= p ==> Covered(s, lo, hi, q)
  {
    var k: nat;
    j, k :| InSite(s, lo, hi, p, j, k);
    forall q: nat | j <= q <= p
      ensures Covered(s, lo, hi, q)
    {
      assert InSite(s, lo, hi, q, j, k);
    }
    assert InSite(s, lo, hi, j, j, k);
    CellInSite(s, lo, hi, j, j, k);
  }

  /** An idiom whose first two bytes are untouched was there before the scan. */
  lemma UntouchedOccurrence(s: seq<byte>, t: seq<byte>, lo: nat, hi: nat, i: nat, k: nat)
    requires |t| == |s| && forall p: nat :: p < |s| ==> t[p] == Cell(s, lo, hi, p)
    requires Site(t, lo, hi, i, k)
    requires !Covered(s, lo, hi, i) && !Covered(s, lo, hi, i + 1)
    ensures Site(s, lo, hi, i, k)
  {
    OccursBytes(t, i, k);
    var n := Size(k);
    forall p: nat | i <= p < i + n
      ensures t[p] == s[p]
    {
      if Covered(s, lo, hi, p) {
        var j := StartOf(s, lo, hi, p);
      }
    }
    assert s[i..i + n] == t[i..i + n];
  }

  /** Outside the range nothing changes, and inside only the range's own bytes matter. */
  lemma CellLocal(s: seq<byte>, t: seq<byte>, lo: nat, hi: nat)
    requires lo <= hi <= |s| && hi <= |t| && s[lo..hi] == t[lo..hi]
    ensures forall p :: lo <= p < hi ==> Cell(s, lo, hi, p) == Cell(t, lo, hi, p)
    ensures forall p: nat :: p < |s| && !(lo <= p < hi) ==> Cell(s, lo, hi, p) == s[p]
  {
    assert forall p :: lo <= p < hi ==> s[p] == s[lo..hi][p - lo] == t[lo..hi][p - lo] == t[p];
    forall i: nat, k: nat
      ensures Site(s, lo, hi, i, k) == Site(t, lo, hi, i, k)
    {
      if lo <= i && i + 12 <= hi {
        assert s[i..i + Size(k)] == t[i..i + Size(k)];
      }
    }
    forall p | lo <= p < hi
      ensures Cell(s, lo, hi, p) == Cell(t, lo, hi, p)
    {
      if Covered(s, lo, hi, p) {
        var i: nat, k: nat :| InSite(s, lo, hi, p, i, k);
        assert InSite(t, lo, hi, p, i, k);
        CellInSite(s, lo, hi, p, i, k);
        CellInSite(t, lo, hi, p, i, k);
      } else {
        assert forall i: nat, k: nat :: InSite(t, lo, hi, p, i, k) ==> InSite(s, lo, hi, p, i, k);
      }
    }
  }

  /** Rewriting one site first removes that site and does not change what the scan leaves. */
  lemma RewriteThenScan(s: seq<byte>, lo: nat, hi: nat, at: nat, kind: nat)
    requires hi <= |s| && Site(s, lo, hi, at, kind)
    ensures var t := Splice(s, at, Replacement(kind));
            && (forall i: nat, k: nat :: Site(t, lo, hi, i, k) <==> Site(s, lo, hi, i, k) && i != at)
            && (forall p: nat :: p < |s| ==> Cell(t, lo, hi, p) == Cell(s, lo, hi, p))
  {
    var t := Splice(s, at, Replacement(kind));
    var n := Size(kind);
    forall i: nat, k: nat
      ensures Site(t, lo, hi, i, k) <==> Site(s, lo, hi, i, k) && i != at
    {
      if Site(s, lo, hi, i, k) && i != at {
        if i < at { if at < i + Size(k) { NoOverlap(s, i, k, at, kind); } }
        else if i < at + n { NoOverlap(s, at, kind, i, k); }
        assert t[i..i + Size(k)] == s[i..i + Size(k)];
      }
      if Site(t, lo, hi, i, k) { SpliceMakesNoSite(s, lo, hi, at, kind, i, k); }
    }
    forall p: nat | p < |s|
      ensures Cell(t, lo, hi, p) == Cell(s, lo, hi, p)
    {
      RewrittenCell(s, t, lo, hi, at, kind, p);
    }
  }

  lemma RewrittenCell(s: seq<byte>, t: seq<byte>, lo: nat, hi: nat, at: nat, kind: nat, p: nat)
    requires hi <= |s| && p < |s| && Site(s, lo, hi, at, kind)
    requires t == Splice(s, at, Replacement(kind))
    requires forall i: nat, k: nat :: Site(t, lo, hi, i, k) <==> Site(s, lo, hi, i, k) && i != at
    ensures Cell(t, lo, hi, p) == Cell(s, lo, hi, p)
  {
    if Covered(t, lo, hi, p) {
      var i: nat, k: nat :| InSite(t, lo, hi, p, i, k);
      assert InSite(s, lo, hi, p, i, k);
      CellInSite(s, lo, hi, p, i, k);
      CellInSite(t, lo, hi, p, i, k);
    } else if Covered(s, lo, hi, p) {
      var i: nat, k: nat :| InSite(s, lo, hi, p, i, k);
      CellInSite(s, lo, hi, p, i, k);
      assert i == at || InSite(t, lo, hi, p, i, k);
      NoOverlap(s, at, kind, i, k);
    } else {
      assert InSite(s, lo, hi, p, at, kind) || !(at <= p < at + Size(kind));
    }
  }

  lemma SpliceMakesNoSite(s: seq<byte>, lo: nat, hi: nat, at: nat, kind: nat, i: nat, k: nat)
    requires hi <= |s| && Site(s, lo, hi, at, kind)
    requires Site(Splice(s, at, Replacement(kind)), lo, hi, i, k)
    ensures i != at && Site(s, lo, hi, i, k)
  {
    var t := Splice(s, at, Replacement(kind));
    OccursBytes(t, i, k);
    if at <= i < at + Size(kind) { ReplacementBytes(kind, i - at); }
    ReplacementBytes(kind, 0);
    assert t[at] == 0x31 && t[at + 1] != 0x48;
    assert s[i..i + Size(k)] == t[i..i + Size(k)];
  }

  // ── the pinned table ────────────────────────────────────────────────────

  datatype Row = Row(off: nat, kind: nat)

  /** Type ids above 1 all name idiom C. */
  function Kind(row: Row): (k: nat)
    ensures k < 3 && Idiom(k) == Idiom(row.kind) && Replacement(k) == Replacement(row.kind)
  {
    if row.kind < 2 then row.kind else 2
  }

  /** Bytes and verdict after applying `rows` in order: the first row off its idiom stops the run. */
  function TableRun(s: seq<byte>, lo: nat, rows: seq<Row>): (r: (seq<byte>, bool))
    ensures |r.0| == |s|
    decreases |rows|
  {
    if rows == [] then (s, true)
    else
      var at := lo + rows[0].off;
      if Occurs(s, at, Kind(rows[0])) then
        TableRun(Splice(s, at, Replacement(Kind(rows[0]))), lo, rows[1..])
      else (s, false)
  }

  /** One row: rewrite the idiom if it is there. */
  method ApplyRow(work: array<byte>, at: nat, kind: nat) returns (ok: bool)
    requires kind < 3
    modifies work
    ensures ok == Occurs(old(work[..]), at, kind)
    ensures work[..] == if ok then Splice(old(work[..]), at, Replacement(kind)) else old(work[..])
  {
    var n := Size(kind);
    ghost var s := work[..];
    if at + n > work.Length { return false; }
    assert s[at..at + n] == work[at..at + n];
    if work[at..at + n] != Idiom(kind) { return false; }
    Store(work, at, Replacement(kind));
    ok := true;
  }

  method ApplyTable(work: array<byte>, lo: nat, rows: seq<Row>) returns (ok: bool)
    modifies work
    ensures work[..] == TableRun(old(work[..]), lo, rows).0
    ensures ok == TableRun(old(work[..]), lo, rows).1
  {
    var j := 0;
    while j < |rows|
      invariant j <= |rows|
      invariant TableRun(old(work[..]), lo, rows) == TableRun(work[..], lo, rows[j..])
    {
      assert rows[j..][1..] == rows[j + 1..];
      var done := ApplyRow(work, lo + rows[j].off, Kind(rows[j]));
      if !done {
        return false;
      }
      j := j + 1;
    }
    return true;
  }

  ghost predicate RowsInRange(lo: nat, hi: nat, rows: seq<Row>) {
    forall row :: row in rows ==> lo + row.off + 12 <= hi
  }

  ghost predicate Listed(lo: nat, rows: seq<Row>, i: nat) {
    exists row :: row in rows && i == lo + row.off
  }

  ghost predicate ListsEverySite(s: seq<byte>, lo: nat, hi: nat, rows: seq<Row>) {
    forall i: nat, k: nat :: Site(s, lo, hi, i, k) ==> Listed(lo, rows, i)
  }

  /**
   * Whatever the table does - complete, or stopped part-way - the scan run after it leaves the same
   * bytes as the scan alone. A table that ran to its end left exactly the sites it does not list.
   */
  lemma {:induction false} TableThenScan(s: seq<byte>, lo: nat, hi: nat, rows: seq<Row>)
    requires hi <= |s| && RowsInRange(lo, hi, rows)
    ensures forall t :: Neutralizes(TableRun(s, lo, rows).0, lo, hi, t) <==> Neutralizes(s, lo, hi, t)
    ensures TableRun(s, lo, rows).1 ==>
              forall i: nat, k: nat :: Site(TableRun(s, lo, rows).0, lo, hi, i, k) <==> Site(s, lo, hi, i, k) && !Listed(lo, rows, i)
    decreases |rows|
  {
    if rows != [] {
      var at, k := lo + rows[0].off, Kind(rows[0]);
      assert rows[0] in rows;
      if Occurs(s, at, k) {
        var u := Splice(s, at, Replacement(k));
        RowThenScan(s, u, lo, hi, at, k);
        TableThenScan(u, lo, hi, rows[1..]);
        ListedHead(lo, rows);
      }
    }
  }

  lemma RowThenScan(s: seq<byte>, u: seq<byte>, lo: nat, hi: nat, at: nat, k: nat)
    requires hi <= |s| && Site(s, lo, hi, at, k) && u == Splice(s, at, Replacement(k))
    ensures forall t :: Neutralizes(u, lo, hi, t) <==> Neutralizes(s, lo, hi, t)
    ensures forall i: nat, k: nat :: Site(u, lo, hi, i, k) <==> Site(s, lo, hi, i, k) && i != at
  {
    RewriteThenScan(s, lo, hi, at, k);
  }

  lemma ListedHead(lo: nat, rows: seq<Row>)
    requires rows != []
    ensures forall i: nat :: Listed(lo, rows, i) <==> i == lo + rows[0].off || Listed(lo, rows[1..], i)
  {
  }

  ghost predicate DistinctRows(rows: seq<Row>) {
    forall i, j :: 0 <= i < j < |rows| ==> rows[i].off != rows[j].off
  }

  /** No row repeats an offset, and every row names an idiom of the bytes as they stand before the run. */
  ghost predicate Genuine(s: seq<byte>, lo: nat, rows: seq<Row>) {
    DistinctRows(rows) && forall row :: row in rows ==> Occurs(s, lo + row.off, Kind(row))
  }

  /** `u` has the sites of `s` but the one at `at`. */
  ghost predicate SitesBut(s: seq<byte>, u: seq<byte>, lo: nat, hi: nat, at: nat) {
    forall i: nat, k: nat :: Site(u, lo, hi, i, k) <==> Site(s, lo, hi, i, k) && i != at
  }

  lemma SitesAfterRow(s: seq<byte>, u: seq<byte>, lo: nat, hi: nat, at: nat, k: nat)
    requires hi <= |s| && Site(s, lo, hi, at, k) && u == Splice(s, at, Replacement(k))
    ensures SitesBut(s, u, lo, hi, at)
  {
    RewriteThenScan(s, lo, hi, at, k);
  }

  /** A table in range runs to its end exactly when its rows are genuine in the original bytes. */
  lemma {:induction false} TableRunsExactly(s: seq<byte>, lo: nat, hi: nat, rows: seq<Row>)
    requires hi <= |s| && RowsInRange(lo, hi, rows)
    ensures TableRun(s, lo, rows).1 <==> Genuine(s, lo, rows)
    decreases |rows|
  {
    if rows != [] {
      var at, k := lo + rows[0].off, Kind(rows[0]);
      assert rows[0] in rows;
      if Occurs(s, at, k) {
        var u := Splice(s, at, Replacement(k));
        assert Site(s, lo, hi, at, k);
        SitesAfterRow(s, u, lo, hi, at, k);
        TableRunsExactly(u, lo, hi, rows[1..]);
        GenuineHead(s, u, lo, hi, at, rows);
      }
    }
  }

  /** Another row is genuine after the first is applied exactly when it was before and is not a repeat. */
  lemma RowAfterRow(s: seq<byte>, u: seq<byte>, lo: nat, hi: nat, at: nat, row: Row)
    requires hi <= |s| && |u| == |s| && SitesBut(s, u, lo, hi, at) && lo + row.off + 12 <= hi
    ensures Occurs(u, lo + row.off, Kind(row)) <==> Occurs(s, lo + row.off, Kind(row)) && lo + row.off != at
  {
    var i, k := lo + row.off, Kind(row);
    assert Site(u, lo, hi, i, k) <==> Occurs(u, i, k);
    assert Site(s, lo, hi, i, k) <==> Occurs(s, i, k);
  }

  lemma DistinctHead(rows: seq<Row>)
    requires rows != []
    ensures DistinctRows(rows) <==> DistinctRows(rows[1..]) && forall row :: row in rows[1..] ==> row.off != rows[0].off
  {
    var rest := rows[1..];
    if DistinctRows(rest) && forall row :: row in rest ==> row.off != rows[0].off {
      forall i, j | 0 <= i < j < |rows| ensures rows[i].off != rows[j].off {
        assert rows[j] == rest[j - 1];
        if i > 0 { assert rows[i] == rest[i - 1]; }
      }
    }
    if DistinctRows(rows) {
      forall i, j | 0 <= i < j < |rest| ensures rest[i].off != rest[j].off {
        assert rows[i + 1].off != rows[j + 1].off;
      }
    }
  }

  /** Taking off a genuine first row: the rest must be genuine after it. */
  lemma GenuineHead(s: seq<byte>, u: seq<byte>, lo: nat, hi: nat, at: nat, rows: seq<Row>)
    requires hi <= |s| && |u| == |s| && RowsInRange(lo, hi, rows) && rows != []
    requires at == lo + rows[0].off && Occurs(s, at, Kind(rows[0])) && SitesBut(s, u, lo, hi, at)
    ensures Genuine(u, lo, rows[1..]) <==> Genuine(s, lo, rows)
  {
    DistinctHead(rows);
    forall row | row in rows[1..]
      ensures Occurs(u, lo + row.off, Kind(row)) <==> Occurs(s, lo + row.off, Kind(row)) && row.off != rows[0].off
    {
      assert row in rows;
      RowAfterRow(s, u, lo, hi, at, row);
    }
    assert forall row :: row in rows <==> row == rows[0] || row in rows[1..];
  }

  /** A table in range does all that the scan does exactly when its rows are genuine and list every site. */
  lemma CompleteTable(s: seq<byte>, lo: nat, hi: nat, rows: seq<Row>)
    requires hi <= |s| && RowsInRange(lo, hi, rows)
    ensures TableRun(s, lo, rows).1 && Neutralizes(s, lo, hi, TableRun(s, lo, rows).0)
            <==> Genuine(s, lo, rows) && ListsEverySite(s, lo, hi, rows)
  {
    var t := TableRun(s, lo, rows).0;
    TableThenScan(s, lo, hi, rows);
    TableRunsExactly(s, lo, hi, rows);
    if ListsEverySite(s, lo, hi, rows) {
      if TableRun(s, lo, rows).1 { assert Neutralizes(t, lo, hi, t); }
    } else if Neutralizes(s, lo, hi, t) {
      NeutralizedMeaning(s, lo, hi, t);
    }
  }

  /** Where `__TEXT,__text` lies, as (offset, size). */
  datatype TextSection = NoText | Text(off: u32, size: u64) {
    function End(): u64
      requires Text?
    {
      Wrap64(off + size)
    }
  }

  /** What the file-buffer variant leaves: the scan runs when the section fits. */
  ghost predicate TextNeutralized(s: seq<byte>, text: TextSection, t: seq<byte>) {
    if text.Text? && text.End() <= |s| then Neutralizes(s, text.off, text.End(), t) else t == s
  }

  method NeutralizeRdtsc(work: array<byte>, text: TextSection)
    modifies work
    ensures TextNeutralized(old(work[..]), text, work[..])
  {
    if text.Text? && text.End() <= work.Length {
      Scan(work, text.off, text.End());
    }
  }

  /** What the mapped variant leaves: a table that runs to its end replaces the scan. */
  ghost predicate MappedNeutralized(s: seq<byte>, text: TextSection, pinned: seq<Row>, t: seq<byte>) {
    if text.Text? && text.End() <= |s| then
      var run := TableRun(s, text.off, pinned);
      if run.1 then t == run.0 else Neutralizes(run.0, text.off, text.End(), t)
    else t == s
  }

  method NeutralizeRdtscMapped(work: array<byte>, text: TextSection, havePinned: bool, pinned: seq<Row>)
    modifies work
    ensures if havePinned then MappedNeutralized(old(work[..]), text, pinned, work[..])
            else TextNeutralized(old(work[..]), text, work[..])
  {
    if text.NoText? || text.End() > work.Length {
      return;
    }
    if havePinned {
      var ok := ApplyTable(work, text.off, pinned);
      if ok {
        return;
      }
    }
    Scan(work, text.off, text.End());
  }

  /**
   * The table shortcut is invisible - the mapped variant leaves what the buffer variant leaves -
   * exactly when genuine rows list every site: any other table stops, and the scan runs after all.
   */
  lemma ShortcutAgrees(s: seq<byte>, text: TextSection, pinned: seq<Row>, t: seq<byte>)
    requires text.Text? && text.End() <= |s| && RowsInRange(text.off, text.End(), pinned)
    requires MappedNeutralized(s, text, pinned, t)
    ensures TextNeutralized(s, text, t)
            <==> (Genuine(s, text.off, pinned) ==> ListsEverySite(s, text.off, text.End(), pinned))
  {
    TableThenScan(s, text.off, text.End(), pinned);
    TableRunsExactly(s, text.off, text.End(), pinned);
    CompleteTable(s, text.off, text.End(), pinned);
  }

  /** An idiom and an empty table: the mapped variant leaves the idiom, the scan does not. */
  lemma EmptyTableMissesSite()
    ensures var s := Idiom(0) + [0x90, 0x90, 0x90]; MappedNeutralized(s, Text(0, 12), [], s) && !TextNeutralized(s, Text(0, 12), s)
  {
    var s := Idiom(0) + [0x90, 0x90, 0x90];
    ShortcutAgrees(s, Text(0, 12), [], s);
    assert s[0..9] == Idiom(0);
    assert Site(s, 0, 12, 0, 0) && !Listed(0, [], 0);
  }
}
