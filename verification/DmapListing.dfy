/**
 * Purchase listings printed and read back: which field of a record each tag fills, whatever the order
 * of the fields and whatever else stands between them.
 */
module DmapListing {
  import opened Bytes
  import opened Wrappers
  import opened Dmap
  import Utf8
  import Calendar

  // ── tags by their letters ────────────────────────────────────────────────

  predicate Tagged(t: Tag, s: string) { |s| == 4 && forall i :: 0 <= i < 4 ==> t[i] == s[i] as int }

  /** The tags that hold further items. */
  const CONTAINER_TAGS: seq<string> := ["adbs", "adsr", "aply", "avdb", "mbcl", "mccr", "mcty", "mdcl", "mlcl", "mlit", "mlog", "msrv", "mupd"]

  predicate NamedContainer(t: Tag, names: seq<string>) { names != [] && (Tagged(t, names[0]) || NamedContainer(t, names[1..])) }

  lemma TagIs(t: Tag, c: Tag, s: string)
    requires Tagged(c, s)
    ensures t == c <==> Tagged(t, s)
  {
    if Tagged(t, s) { assert t == c; }
  }

  lemma {:induction false} NamesMatch(t: Tag, tags: seq<Tag>, names: seq<string>)
    requires |tags| == |names| && forall i :: 0 <= i < |tags| ==> Tagged(tags[i], names[i])
    ensures OneOf(t, tags) <==> NamedContainer(t, names)
    decreases |tags|
  {
    if tags != [] {
      TagIs(t, tags[0], names[0]);
      NamesMatch(t, tags[1..], names[1..]);
    }
  }

  /** The containers are exactly the thirteen tags named. */
  lemma ContainersAre(t: Tag)
    ensures IsContainer(t) <==> NamedContainer(t, CONTAINER_TAGS)
  {
    var tags: seq<Tag> := CONTAINERS;
    NamesMatch(t, tags, CONTAINER_TAGS);
  }

  /** A tag is four visible ASCII characters or blanks. */
  lemma PrintableIs(t: Tag)
    ensures Printable(t) <==> forall i :: 0 <= i < 4 ==> ' ' as int <= t[i] <= '~' as int
  {
  }

  // ── the fields of a record ───────────────────────────────────────────────

  /** The payload of the last field named `s`, of length `n` if one is asked for. */
  function Last(fields: seq<Visit>, s: string, n: Option<nat>): Option<seq<byte>> {
    if fields == [] then None
    else
      var f := fields[|fields| - 1];
      if Tagged(f.tag, s) && (n.None? || |f.payload| == n.value) then Some(f.payload) else Last(fields[..|fields| - 1], s, n)
  }

  function Text(p: Option<seq<byte>>): seq<byte> { if p.None? then [] else Utf8.Lossy(p.value) }

  /** A big-endian 32-bit number, or a signed 64-bit one; anything else is zero. */
  function Number(p: Option<seq<byte>>): int {
    if p.None? then 0
    else if |p.value| == 4 then ReadBe32(p.value, 0)
    else if |p.value| == 8 then
      var high := ReadBe32(p.value, 0);
      0x1_0000_0000 * (if high < 0x8000_0000 then high else high - 0x1_0000_0000) + ReadBe32(p.value, 4)
    else 0
  }

  /** The name is the last `aeLN`, or while that is empty the first `minm` after it that is not. */
  function Name(fields: seq<Visit>): seq<byte> {
    if fields == [] then []
    else
      var f, before := fields[|fields| - 1], Name(fields[..|fields| - 1]);
      if Tagged(f.tag, "aeLN") || (Tagged(f.tag, "minm") && before == []) then Utf8.Lossy(f.payload) else before
  }

  function Bought(p: Option<seq<byte>>): Option<Calendar.Stamp> {
    if p.Some? && |p.value| == 4 then Some(Calendar.Iso8601(ReadBe32(p.value, 0))) else None
  }

  /** A record is its fields, each read off the last item with its tag. */
  predicate ReadsAs(app: App, fields: seq<Visit>) {
    && app.id == Number(Last(fields, "aeSI", None))
    && app.bundle == Text(Last(fields, "aeBI", None))
    && app.name == Name(fields)
    && app.version == Text(Last(fields, "aePd", None))
    && app.purchased == Bought(Last(fields, "asdp", Some(4)))
  }

  lemma FieldTags(t: Tag)
    ensures (t == AESI <==> Tagged(t, "aeSI")) && (t == AEBI <==> Tagged(t, "aeBI")) && (t == AELN <==> Tagged(t, "aeLN"))
    ensures (t == MINM <==> Tagged(t, "minm")) && (t == AEPD <==> Tagged(t, "aePd")) && (t == ASDP <==> Tagged(t, "asdp"))
    ensures t == MLIT <==> Tagged(t, "mlit")
  {
    TagIs(t, AESI, "aeSI");
    TagIs(t, AEBI, "aeBI");
    TagIs(t, AELN, "aeLN");
    TagIs(t, MINM, "minm");
    TagIs(t, AEPD, "aePd");
    TagIs(t, ASDP, "asdp");
    TagIs(t, MLIT, "mlit");
  }

  lemma LastNext(fields: seq<Visit>, f: Visit, s: string, n: Option<nat>)
    ensures Last(fields + [f], s, n) == if Tagged(f.tag, s) && (n.None? || |f.payload| == n.value) then Some(f.payload) else Last(fields, s, n)
  {
    assert (fields + [f])[..|fields|] == fields;
  }

  lemma NameNext(fields: seq<Visit>, f: Visit)
    ensures Name(fields + [f]) == if Tagged(f.tag, "aeLN") || (Tagged(f.tag, "minm") && Name(fields) == []) then Utf8.Lossy(f.payload) else Name(fields)
  {
    assert (fields + [f])[..|fields|] == fields;
  }

  lemma NumberIs(p: seq<byte>)
    ensures Number(Some(p)) == match ReadInt(p) case None => 0 case Some(n) => n
  {
  }

  /** What a field does to one record, by the tag's letters. */
  lemma SetFieldIs(app: App, f: Visit)
    ensures var next := SetField(app, f);
            && next.id == (if Tagged(f.tag, "aeSI") then Number(Some(f.payload)) else app.id)
            && next.bundle == (if Tagged(f.tag, "aeBI") then Utf8.Lossy(f.payload) else app.bundle)
            && next.name == (if Tagged(f.tag, "aeLN") || (Tagged(f.tag, "minm") && app.name == []) then Utf8.Lossy(f.payload) else app.name)
            && next.version == (if Tagged(f.tag, "aePd") then Utf8.Lossy(f.payload) else app.version)
            && next.purchased == (if Tagged(f.tag, "asdp") && |f.payload| == 4 then Bought(Some(f.payload)) else app.purchased)
  {
    FieldTags(f.tag);
    NumberIs(f.payload);
  }

  lemma SetFieldReads(app: App, fields: seq<Visit>, f: Visit)
    requires ReadsAs(app, fields)
    ensures ReadsAs(SetField(app, f), fields + [f])
  {
    SetFieldIs(app, f);
    LastNext(fields, f, "aeSI", None);
    LastNext(fields, f, "aeBI", None);
    LastNext(fields, f, "aePd", None);
    LastNext(fields, f, "asdp", Some(4));
    NameNext(fields, f);
  }

  lemma {:induction false} SetFieldsRead(app: App, done: seq<Visit>, fields: seq<Visit>, all: seq<Visit>)
    requires ReadsAs(app, done) && all == done + fields
    ensures ReadsAs(SetFields(app, fields), all)
    decreases |fields|
  {
    if fields == [] {
      assert all == done;
    } else {
      var f, rest := fields[0], fields[1..];
      assert all == (done + [f]) + rest;
      SetFieldReads(app, done, f);
      SetFieldsRead(SetField(app, f), done + [f], rest, all);
      FirstSet(app, f, rest, fields);
    }
  }

  lemma FirstSet(app: App, f: Visit, rest: seq<Visit>, fields: seq<Visit>)
    requires fields == [f] + rest
    ensures SetFields(app, fields) == SetFields(SetField(app, f), rest)
  {
    assert fields[1..] == rest;
  }

  /** Reading any list of fields gives the record they spell. */
  lemma RecordReads(fields: seq<Visit>)
    ensures ReadsAs(SetFields(BLANK, fields), fields)
  {
    SetFieldsRead(BLANK, [], fields, fields);
  }

  // ── printed listings ─────────────────────────────────────────────────────

  predicate PlainField(n: Node) { n.Leaf? && Printable(n.tag) && !IsContainer(n.tag) && |n.payload| < 0x1_0000_0000 }

  predicate PlainFields(fields: seq<Node>) {
    (forall n :: n in fields ==> PlainField(n)) && |PrintAll(fields)| < 0x1_0000_0000
  }

  function FieldVisits(fields: seq<Node>): seq<Visit> {
    if fields == [] then [] else [Visit(fields[0].tag, Body(fields[0]))] + FieldVisits(fields[1..])
  }

  predicate AllPlain(listings: seq<seq<Node>>) { listings == [] || (PlainFields(listings[0]) && AllPlain(listings[1..])) }

  function Boxes(listings: seq<seq<Node>>): seq<Node> {
    if listings == [] then [] else [Box(MLIT, listings[0])] + Boxes(listings[1..])
  }

  /** One record for each listing, in order. */
  predicate RecordsRead(records: seq<App>, listings: seq<seq<Node>>)
    requires AllPlain(listings)
    decreases |listings|
  {
    if listings == [] then records == []
    else records != [] && ReadsAs(records[0], FieldVisits(listings[0])) && RecordsRead(records[1..], listings[1..])
  }

  lemma {:induction false} PlainPreorder(fields: seq<Node>)
    requires forall n :: n in fields ==> PlainField(n)
    ensures Good(fields) && Nesting(fields) == 0 && Preorder(fields) == FieldVisits(fields)
  {
    PlainLeaves(fields);
    if fields != [] {
      assert fields[0] in fields;
      PlainPreorder(fields[1..]);
    }
  }

  lemma MlitTag()
    ensures Printable(MLIT) && IsContainer(MLIT)
  {
    assert CONTAINERS[9] == MLIT;
    InTags(MLIT, CONTAINERS, 9);
  }

  lemma {:induction false} InTags(t: seq<byte>, tags: seq<seq<byte>>, i: nat)
    requires i < |tags| && tags[i] == t
    ensures OneOf(t, tags)
    decreases |tags|
  {
    if i > 0 { InTags(t, tags[1..], i - 1); }
  }

  lemma BoxGood(fields: seq<Node>, rest: seq<Node>)
    requires PlainFields(fields) && Good(rest) && Nesting(rest) <= 1
    ensures Good([Box(MLIT, fields)] + rest) && Nesting([Box(MLIT, fields)] + rest) == 1
    ensures Preorder([Box(MLIT, fields)] + rest) == [Visit(MLIT, PrintAll(fields))] + FieldVisits(fields) + Preorder(rest)
  {
    var box := Box(MLIT, fields);
    MlitTag();
    PlainPreorder(fields);
    assert Body(box) == PrintAll(fields);
    assert ([box] + rest)[0] == box && ([box] + rest)[1..] == rest;
  }

  lemma {:induction false} BoxesGood(listings: seq<seq<Node>>)
    requires AllPlain(listings)
    ensures Good(Boxes(listings)) && Nesting(Boxes(listings)) <= 1
    decreases |listings|
  {
    if listings != [] {
      BoxesGood(listings[1..]);
      BoxGood(listings[0], Boxes(listings[1..]));
    }
  }

  /** Fields are no listings themselves. */
  lemma {:induction false} FieldsSkipped(fields: seq<Node>, rest: seq<Visit>)
    requires forall n :: n in fields ==> PlainField(n)
    ensures Records(FieldVisits(fields) + rest) == Records(rest)
    decreases |fields|
  {
    if fields == [] {
      assert FieldVisits(fields) + rest == rest;
    } else {
      assert fields[0] in fields;
      MlitTag();
      FieldsSkipped(fields[1..], rest);
      assert (FieldVisits(fields) + rest)[1..] == FieldVisits(fields[1..]) + rest;
    }
  }

  /** One listing's record, then those of the rest. */
  lemma OneListing(fields: seq<Node>, rest: seq<Visit>)
    requires PlainFields(fields)
    ensures Records([Visit(MLIT, PrintAll(fields))] + FieldVisits(fields) + rest) == [SetFields(BLANK, FieldVisits(fields))] + Records(rest)
  {
    var visits := [Visit(MLIT, PrintAll(fields))] + FieldVisits(fields) + rest;
    PlainPreorder(fields);
    WalkPrinted(fields, 0);
    assert visits[1..] == FieldVisits(fields) + rest;
    FieldsSkipped(fields, rest);
  }

  lemma {:induction false} PreorderRecords(listings: seq<seq<Node>>)
    requires AllPlain(listings)
    ensures RecordsRead(Records(Preorder(Boxes(listings))), listings)
    decreases |listings|
  {
    if listings != [] {
      var fields, rest := listings[0], Boxes(listings[1..]);
      BoxesGood(listings[1..]);
      BoxGood(fields, rest);
      OneListing(fields, Preorder(rest));
      RecordReads(FieldVisits(fields));
      PreorderRecords(listings[1..]);
      assert ([SetFields(BLANK, FieldVisits(fields))] + Records(Preorder(rest)))[1..] == Records(Preorder(rest));
    }
  }

  /** Printed listings read back: each as the record its fields spell, in order. */
  lemma ListingsRead(listings: seq<seq<Node>>)
    requires AllPlain(listings)
    ensures RecordsRead(Records(Walk(PrintAll(Boxes(listings)), 0).visits), listings)
  {
    BoxesGood(listings);
    ForestWalk(Boxes(listings));
    PreorderRecords(listings);
  }

  // ── the request's fields by their letters ────────────────────────────────

  /** The leaf named `s` with these bytes. */
  predicate Field(n: Node, s: string, payload: seq<byte>) { n.Leaf? && Tagged(n.tag, s) && n.payload == payload }

  /** The request's seven fields: time, session, one byte two, revision, zero, query and an empty one. */
  lemma RequestSpelled(now: u32, session: u32, revision: u32, query: seq<byte>)
    ensures var f := RequestFields(now, session, revision, query);
            && |f| == 7 && Field(f[0], "mstc", Be32(now)) && Field(f[1], "mlid", Be32(session)) && Field(f[2], "mikd", [2])
            && Field(f[3], "musr", Be32(revision)) && Field(f[4], "mder", [0, 0, 0, 0]) && Field(f[5], "mque", query) && Field(f[6], "aetl", [])
    ensures Tagged(ADSR, "adsr")
  {
  }

  // ── bad items ────────────────────────────────────────────────────────────

  /** An item is refused for its first fault: fewer than eight bytes, a tag that is not printable, a length past the end. */
  lemma ItemRefused(data: seq<byte>)
    ensures FirstItem(data) == Bad(TruncatedHeader) <==> |data| < 8
    ensures FirstItem(data) == Bad(InvalidTag) <==> |data| >= 8 && exists i :: 0 <= i < 4 && !(' ' as int <= data[i] <= '~' as int)
    ensures FirstItem(data) == Bad(LengthExceeds) <==>
            |data| >= 8 && (forall i :: 0 <= i < 4 ==> ' ' as int <= data[i] <= '~' as int) && ReadBe32(data, 4) > |data| - 8
    ensures FirstItem(data) != Bad(TooDeep)
  {
    if |data| >= 8 {
      assert forall i :: 0 <= i < 4 ==> data[..4][i] == data[i];
      PrintableIs(data[..4]);
    }
  }

  /** The walk stops at its first bad item, with what it visited before. */
  lemma WalkStops(data: seq<byte>, depth: nat)
    requires data != [] && depth <= 16 && FirstItem(data).Bad?
    ensures Walk(data, depth) == Walked([], Some(FirstItem(data).error))
    ensures Walk(data, 17 + depth) == Walked([], Some(TooDeep))
  {
  }
}
