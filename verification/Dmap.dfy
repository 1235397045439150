/** The tagged format of crates/perun-cli/src/store/dmap.rs: printer, depth-limited walk, and the listing reader. */
module Dmap {
  import opened Bytes
  import opened Wrappers
  import Utf8
  import Calendar

  type Tag = t: seq<byte> | |t| == 4 witness [0x6D, 0x6C, 0x69, 0x74]

  const MAX_DEPTH: nat := 16

  const ADBS: seq<byte> := [0x61, 0x64, 0x62, 0x73]
  const ADSR: seq<byte> := [0x61, 0x64, 0x73, 0x72]
  const APLY: seq<byte> := [0x61, 0x70, 0x6C, 0x79]
  const AVDB: seq<byte> := [0x61, 0x76, 0x64, 0x62]
  const MBCL: seq<byte> := [0x6D, 0x62, 0x63, 0x6C]
  const MCCR: seq<byte> := [0x6D, 0x63, 0x63, 0x72]
  const MCTY: seq<byte> := [0x6D, 0x63, 0x74, 0x79]
  const MDCL: seq<byte> := [0x6D, 0x64, 0x63, 0x6C]
  const MLCL: seq<byte> := [0x6D, 0x6C, 0x63, 0x6C]
  const MLIT: seq<byte> := [0x6D, 0x6C, 0x69, 0x74]
  const MLOG: seq<byte> := [0x6D, 0x6C, 0x6F, 0x67]
  const MSRV: seq<byte> := [0x6D, 0x73, 0x72, 0x76]
  const MUPD: seq<byte> := [0x6D, 0x75, 0x70, 0x64]

  const CONTAINERS: seq<seq<byte>> := [ADBS, ADSR, APLY, AVDB, MBCL, MCCR, MCTY, MDCL, MLCL, MLIT, MLOG, MSRV, MUPD]

  predicate OneOf(t: seq<byte>, tags: seq<seq<byte>>) {
    tags != [] && (t == tags[0] || OneOf(t, tags[1..]))
  }

  predicate IsContainer(t: Tag) { OneOf(t, CONTAINERS) }

  predicate Printable(t: Tag) { forall i :: 0 <= i < 4 ==> 0x20 <= t[i] <= 0x7E }

  datatype Visit = Visit(tag: Tag, payload: seq<byte>)

  datatype WalkError = TooDeep | TruncatedHeader | InvalidTag | LengthExceeds

  /** The visits made, and the error that ended them, if any. */
  datatype Walked = Walked(visits: seq<Visit>, error: Option<WalkError>) {
    function After(first: seq<Visit>): Walked { Walked(first + visits, error) }
  }

  function ReadBe32(s: seq<byte>, off: nat): (v: u32)
    requires off + 4 <= |s|
  {
    0x100_0000 * (s[off] as int) + 0x1_0000 * (s[off + 1] as int) + 0x100 * (s[off + 2] as int) + (s[off + 3] as int)
  }

  function Be32(v: u32): (bs: seq<byte>)
    ensures |bs| == 4
  {
    [v / 0x100_0000, v / 0x1_0000 % 0x100, v / 0x100 % 0x100, v % 0x100]
  }

  lemma Be32Value(v: u32)
    ensures ReadBe32(Be32(v), 0) == v
  {
    var c := v / 0x100;
    var b := c / 0x100;
    assert v / 0x1_0000 == b && v / 0x100_0000 == b / 0x100;
    assert v == 0x100 * c + v % 0x100 && c == 0x100 * b + c % 0x100 && b == 0x100 * (b / 0x100) + b % 0x100;
  }

  lemma Be32RoundTrip(v: u32, pre: seq<byte>, rest: seq<byte>)
    ensures ReadBe32(pre + Be32(v) + rest, |pre|) == v
  {
    SameWord(pre + Be32(v) + rest, |pre|, Be32(v));
    Be32Value(v);
  }

  lemma SameWord(s: seq<byte>, off: nat, word: seq<byte>)
    requires |word| == 4 && off + 4 <= |s| && s[off..off + 4] == word
    ensures ReadBe32(s, off) == ReadBe32(word, 0)
  {
  }

  // ── the walk ─────────────────────────────────────────────────────────────

  /** The item at the start of some data, and what follows it. */
  datatype Item = Bad(error: WalkError) | Item(tag: Tag, payload: seq<byte>, rest: seq<byte>)

  function FirstItem(data: seq<byte>): (i: Item)
    ensures i.Item? ==> |i.payload| + |i.rest| + 8 == |data|
  {
    if |data| < 8 then Bad(TruncatedHeader)
    else if !Printable(data[..4]) then Bad(InvalidTag)
    else
      var length := ReadBe32(data, 4);
      if length > |data| - 8 then Bad(LengthExceeds) else Item(data[..4], data[8..8 + length], data[8 + length..])
  }

  /** What a container's own items add; anything else adds nothing. */
  function Inner(tag: Tag, payload: seq<byte>, depth: nat): Walked
    decreases |payload|, 2
  {
    if IsContainer(tag) then Walk(payload, depth + 1) else Walked([], None)
  }

  /** All items of `data`, each container followed by its own items. */
  function Items(data: seq<byte>, depth: nat): Walked
    decreases |data|, 0
  {
    if data == [] then Walked([], None)
    else match FirstItem(data)
      case Bad(e) => Walked([], Some(e))
      case Item(tag, payload, rest) =>
        var inner := Inner(tag, payload, depth);
        var first := [Visit(tag, payload)] + inner.visits;
        if inner.error.Some? then Walked(first, inner.error) else Items(rest, depth).After(first)
  }

  function Walk(data: seq<byte>, depth: nat): Walked
    decreases |data|, 1
  {
    if depth > MAX_DEPTH then Walked([], Some(TooDeep)) else Items(data, depth)
  }

  method ReadItem(data: seq<byte>, offset: nat) returns (item: Item)
    requires offset <= |data|
    ensures item == FirstItem(data[offset..])
    ensures item.Item? ==> item.rest == data[offset + 8 + |item.payload|..]
  {
    ghost var here := data[offset..];
    if |data| - offset < 8 { return Bad(TruncatedHeader); }
    var tag: Tag := data[offset..offset + 4];
    assert here[..4] == tag;
    if !Printable(tag) { return Bad(InvalidTag); }
    var length := ReadBe32(data, offset + 4);
    assert length == ReadBe32(here, 4);
    if length > |data| - offset - 8 { return Bad(LengthExceeds); }
    var end := offset + 8 + length;
    item := Item(tag, data[offset + 8..end], data[end..]);
    assert item.payload == here[8..8 + length] && item.rest == here[8 + length..];
  }

  /** Visit an item, and its own items when it is a container. */
  method WalkItem(tag: Tag, payload: seq<byte>, depth: nat) returns (w: Walked)
    ensures w == Inner(tag, payload, depth).After([Visit(tag, payload)])
    decreases |payload|, 2
  {
    w := Walked([Visit(tag, payload)], None);
    if IsContainer(tag) {
      var inner := WalkDmap(payload, depth + 1);
      w := Walked(w.visits + inner.visits, inner.error);
    }
  }

  lemma ItemsNext(data: seq<byte>, depth: nat, item: Item, one: Walked)
    requires data != [] && item == FirstItem(data) && item.Item? && one == Inner(item.tag, item.payload, depth).After([Visit(item.tag, item.payload)])
    ensures Items(data, depth) == if one.error.Some? then one else Items(item.rest, depth).After(one.visits)
  {
  }

  /** `walk_dmap`, with the visitor's calls recorded in order. */
  method WalkDmap(data: seq<byte>, depth: nat) returns (w: Walked)
    ensures w == Walk(data, depth)
    decreases |data|, 1
  {
    if depth > MAX_DEPTH { return Walked([], Some(TooDeep)); }
    var visits: seq<Visit> := [];
    var offset := 0;
    ghost var rest, whole := data, Items(data, depth);
    ItemsEnd(depth);
    while offset < |data|
      invariant offset <= |data| && rest == data[offset..]
      invariant Items(rest, depth).After(visits) == whole
      decreases |data| - offset
    {
      var item := ReadItem(data, offset);
      if item.Bad? {
        ItemsBad(rest, depth, item);
        return Walked(visits, Some(item.error));
      }
      var one := WalkItem(item.tag, item.payload, depth);
      ItemsNext(rest, depth, item, one);
      AfterAfter(Items(item.rest, depth), visits, one.visits);
      visits := visits + one.visits;
      if one.error.Some? { return Walked(visits, one.error); }
      offset := offset + 8 + |item.payload|;
      rest := item.rest;
    }
    w := Walked(visits, None);
  }

  lemma ItemsEnd(depth: nat)
    ensures Items([], depth) == Walked([], None)
  {
  }

  lemma ItemsBad(data: seq<byte>, depth: nat, item: Item)
    requires data != [] && item == FirstItem(data) && item.Bad?
    ensures Items(data, depth) == Walked([], Some(item.error))
  {
  }

  lemma AfterAfter(w: Walked, a: seq<Visit>, b: seq<Visit>)
    ensures w.After(b).After(a) == w.After(a + b)
  {
  }

  // ── printed trees ────────────────────────────────────────────────────────

  datatype Node = Leaf(tag: Tag, payload: seq<byte>) | Box(tag: Tag, children: seq<Node>)

  /** `tag_bytes`: the length field is cut to 32 bits. */
  function TagBytes(tag: Tag, payload: seq<byte>): seq<byte> {
    tag + Be32(Wrap32(|payload|)) + payload
  }

  function Body(n: Node): seq<byte>
    decreases n, 0
  {
    match n case Leaf(_, payload) => payload case Box(_, children) => PrintAll(children)
  }

  function Print(n: Node): seq<byte>
    decreases n, 1
  {
    TagBytes(n.tag, Body(n))
  }

  function PrintAll(forest: seq<Node>): seq<byte>
    decreases forest
  {
    if forest == [] then [] else Print(forest[0]) + PrintAll(forest[1..])
  }

  /** Printable tags, boxes exactly where the tag says container, and lengths the field can hold. */
  predicate GoodNode(n: Node)
    decreases n
  {
    && Printable(n.tag) && (n.Box? <==> IsContainer(n.tag)) && |Body(n)| < 0x1_0000_0000
    && (n.Box? ==> Good(n.children))
  }

  predicate Good(forest: seq<Node>)
    decreases forest
  {
    forest == [] || (GoodNode(forest[0]) && Good(forest[1..]))
  }

  /** Every node before its children, with exactly its encoded payload. */
  function Preorder(forest: seq<Node>): seq<Visit>
    decreases forest
  {
    if forest == [] then []
    else [Visit(forest[0].tag, Body(forest[0]))] + (if forest[0].Box? then Preorder(forest[0].children) else []) + Preorder(forest[1..])
  }

  /** How many levels of boxes. */
  function Nesting(forest: seq<Node>): nat
    decreases forest
  {
    if forest == [] then 0
    else
      var here := if forest[0].Box? then 1 + Nesting(forest[0].children) else 0;
      var rest := Nesting(forest[1..]);
      if here > rest then here else rest
  }

  /** Reading back one printed item. */
  lemma ItemParses(tag: Tag, payload: seq<byte>, rest: seq<byte>)
    requires Printable(tag) && |payload| < 0x1_0000_0000
    ensures FirstItem(TagBytes(tag, payload) + rest) == Item(tag, payload, rest)
  {
    var data, length := TagBytes(tag, payload) + rest, Be32(|payload|);
    assert data == tag + length + (payload + rest);
    assert Wrap32(|payload|) == |payload|;
    Be32RoundTrip(|payload|, tag, payload + rest);
    assert data[..4] == tag && data[8..8 + |payload|] == payload && data[8 + |payload|..] == rest;
  }

  /** What the walk of one more printed node adds. */
  lemma ItemsUnfold(tag: Tag, payload: seq<byte>, rest: seq<byte>, depth: nat, inner: Walked)
    requires Printable(tag) && |payload| < 0x1_0000_0000 && inner == Inner(tag, payload, depth)
    ensures Items(TagBytes(tag, payload) + rest, depth)
         == if inner.error.Some? then Walked([Visit(tag, payload)] + inner.visits, inner.error)
            else Items(rest, depth).After([Visit(tag, payload)] + inner.visits)
  {
    ItemParses(tag, payload, rest);
    assert TagBytes(tag, payload) + rest != [];
  }

  /** The promise about a walk `w` of something with this preorder and nesting. */
  predicate Promised(w: Walked, preorder: seq<Visit>, depth: nat, nesting: nat) {
    && (w.error == None <==> depth + nesting <= MAX_DEPTH)
    && (w.error == None ==> w.visits == preorder)
    && (w.error != None ==> w.error == Some(TooDeep) && w.visits <= preorder)
  }

  /**
   * The walk of a printed forest succeeds exactly when its boxes nest at most sixteen levels deep,
   * counting from depth 0; then it visits every node in preorder. When it fails, the visits made
   * are a prefix of the preorder.
   */
  lemma {:induction false} WalkPrinted(forest: seq<Node>, depth: nat)
    requires Good(forest) && depth <= MAX_DEPTH
    ensures Promised(Items(PrintAll(forest), depth), Preorder(forest), depth, Nesting(forest))
    decreases forest, 1
  {
    if forest != [] {
      var n, rest := forest[0], forest[1..];
      WalkPrinted(rest, depth);
      WalkPrintedInner(forest, depth);
      var inner := Inner(n.tag, Body(n), depth);
      ItemsUnfold(n.tag, Body(n), PrintAll(rest), depth, inner);
      var children := if n.Box? then Preorder(n.children) else [];
      Combine(inner, Items(PrintAll(rest), depth), [Visit(n.tag, Body(n))], children, Preorder(rest), depth,
              if n.Box? then 1 + Nesting(n.children) else 0, Nesting(rest));
    }
  }

  /** From the top, as callers walk: success exactly up to sixteen levels, and then the whole preorder. */
  lemma ForestWalk(forest: seq<Node>)
    requires Good(forest)
    ensures Walk(PrintAll(forest), 0).error == None <==> Nesting(forest) <= 16
    ensures Nesting(forest) <= 16 ==> Walk(PrintAll(forest), 0).visits == Preorder(forest)
  {
    WalkPrinted(forest, 0);
  }

  /** What the first node's own content adds. */
  lemma {:induction false} WalkPrintedInner(forest: seq<Node>, depth: nat)
    requires Good(forest) && depth <= MAX_DEPTH && forest != []
    ensures var n := forest[0];
            Promised(Inner(n.tag, Body(n), depth), if n.Box? then Preorder(n.children) else [], depth, if n.Box? then 1 + Nesting(n.children) else 0)
    decreases forest, 0
  {
    var n := forest[0];
    assert GoodNode(n);
    if n.Box? {
      if depth + 1 <= MAX_DEPTH { WalkPrinted(n.children, depth + 1); }
      BoxInner(n, depth);
    }
  }

  /** A box's content, from the walk of its children one level down. */
  lemma BoxInner(n: Node, depth: nat)
    requires n.Box? && IsContainer(n.tag) && depth <= MAX_DEPTH
    requires depth + 1 <= MAX_DEPTH ==> Promised(Items(PrintAll(n.children), depth + 1), Preorder(n.children), depth + 1, Nesting(n.children))
    ensures Promised(Inner(n.tag, Body(n), depth), Preorder(n.children), depth, 1 + Nesting(n.children))
  {
  }

  lemma Combine(inner: Walked, tail: Walked, head: seq<Visit>, children: seq<Visit>, rest: seq<Visit>, depth: nat, here: nat, below: nat)
    requires Promised(inner, children, depth, here) && Promised(tail, rest, depth, below)
    ensures var w := if inner.error.Some? then Walked(head + inner.visits, inner.error) else tail.After(head + inner.visits);
            Promised(w, head + children + rest, depth, if here > below then here else below)
  {
  }

  // ── the items request ────────────────────────────────────────────────────

  const MSTC: seq<byte> := [0x6D, 0x73, 0x74, 0x63]
  const MLID: seq<byte> := [0x6D, 0x6C, 0x69, 0x64]
  const MIKD: seq<byte> := [0x6D, 0x69, 0x6B, 0x64]
  const MUSR: seq<byte> := [0x6D, 0x75, 0x73, 0x72]
  const MDER: seq<byte> := [0x6D, 0x64, 0x65, 0x72]
  const MQUE: seq<byte> := [0x6D, 0x71, 0x75, 0x65]
  const AETL: seq<byte> := [0x61, 0x65, 0x74, 0x6C]

  /** The fields of the request, in order. */
  function RequestFields(now: u32, session: u32, revision: u32, query: seq<byte>): seq<Node> {
    [Leaf(MSTC, Be32(now)), Leaf(MLID, Be32(session)), Leaf(MIKD, [2]), Leaf(MUSR, Be32(revision)),
     Leaf(MDER, Be32(0)), Leaf(MQUE, query), Leaf(AETL, [])]
  }

  method ItemsBody(now: u32, session: u32, revision: u32, query: seq<byte>) returns (body: seq<byte>)
    ensures body == Print(Box(ADSR, RequestFields(now, session, revision, query)))
  {
    var inner := AddFields(now, session, revision, query, RequestFields(now, session, revision, query));
    body := TagBytes(ADSR, inner);
  }

  method AddFields(now: u32, session: u32, revision: u32, query: seq<byte>, ghost f: seq<Node>) returns (inner: seq<byte>)
    requires |f| == 7 && f[0] == Leaf(MSTC, Be32(now)) && f[1] == Leaf(MLID, Be32(session)) && f[2] == Leaf(MIKD, [2])
    requires f[3] == Leaf(MUSR, Be32(revision)) && f[4] == Leaf(MDER, Be32(0)) && f[5] == Leaf(MQUE, query) && f[6] == Leaf(AETL, [])
    ensures inner == PrintAll(f)
  {
    inner := AddField([], MSTC, Be32(now), f, 0);
    inner := AddField(inner, MLID, Be32(session), f, 1);
    inner := AddField(inner, MIKD, [2], f, 2);
    inner := AddField(inner, MUSR, Be32(revision), f, 3);
    inner := AddField(inner, MDER, Be32(0), f, 4);
    inner := AddField(inner, MQUE, query, f, 5);
    inner := AddField(inner, AETL, [], f, 6);
    assert f[..7] == f;
  }

  /** `inner.extend_from_slice(&tag_…(…))`, the next field of the list `f`. */
  method AddField(inner: seq<byte>, tag: Tag, payload: seq<byte>, ghost f: seq<Node>, ghost k: nat) returns (more: seq<byte>)
    requires k < |f| && f[k] == Leaf(tag, payload) && inner == PrintAll(f[..k])
    ensures more == inner + TagBytes(tag, payload) == PrintAll(f[..k + 1])
  {
    PrintNext(f, k);
    more := inner + TagBytes(tag, payload);
  }

  lemma {:induction false} PrintNext(f: seq<Node>, k: nat)
    requires k < |f|
    ensures PrintAll(f[..k + 1]) == PrintAll(f[..k]) + Print(f[k])
    decreases k
  {
    if k == 0 {
      assert f[..1][1..] == [] && f[..0] == [];
    } else {
      PrintNext(f[1..], k - 1);
      assert f[..k + 1][1..] == f[1..][..k] && f[..k][1..] == f[1..][..k - 1];
    }
  }

  lemma {:induction false} ShortFields(f: seq<Node>, k: nat, total: nat)
    requires k <= |f| && |PrintAll(f[..k])| <= total && forall i :: 0 <= i < |f| ==> f[i].Leaf? && |f[i].payload| <= 4
    ensures |PrintAll(f)| <= total + 12 * (|f| - k)
    decreases |f| - k
  {
    if k == |f| {
      assert f[..k] == f;
    } else {
      PrintNext(f, k);
      ShortFields(f, k + 1, total + 12);
    }
  }

  /** The request's length: six short fields and the query. */
  lemma RequestLength(now: u32, session: u32, revision: u32, query: seq<byte>)
    ensures |PrintAll(RequestFields(now, session, revision, query))| <= |query| + 92
  {
    var f := RequestFields(now, session, revision, query);
    var front := f[..5];
    ShortFields(front, 0, 0);
    PrintNext(f, 5);
    PrintNext(f, 6);
    assert f[..7] == f;
  }

  lemma PlainTag(t: Tag)
    requires t == MSTC || t == MLID || t == MIKD || t == MUSR || t == MDER || t == MQUE || t == AETL
    ensures Printable(t) && !IsContainer(t)
  {
    assert forall c :: c in CONTAINERS ==> t != c;
    NotOneOf(t, CONTAINERS);
  }

  lemma {:induction false} NotOneOf(t: seq<byte>, tags: seq<seq<byte>>)
    requires forall c :: c in tags ==> t != c
    ensures !OneOf(t, tags)
    decreases |tags|
  {
    if tags != [] {
      assert tags[0] in tags && forall c :: c in tags[1..] ==> c in tags;
      NotOneOf(t, tags[1..]);
    }
  }

  lemma {:induction false} PlainLeaves(fields: seq<Node>)
    requires forall n :: n in fields ==> n.Leaf? && Printable(n.tag) && !IsContainer(n.tag) && |n.payload| < 0x1_0000_0000
    ensures Good(fields) && Nesting(fields) == 0
  {
    if fields != [] {
      assert fields[0] in fields;
      PlainLeaves(fields[1..]);
    }
  }

  lemma OneNode(n: Node)
    requires GoodNode(n)
    ensures Good([n]) && Nesting([n]) == if n.Box? then 1 + Nesting(n.children) else 0
  {
  }

  /** The request the service receives walks back to its eight items, the last field empty. */
  lemma RequestWalks(now: u32, session: u32, revision: u32, query: seq<byte>)
    requires |query| + 96 < 0x1_0000_0000
    ensures var box := Box(ADSR, RequestFields(now, session, revision, query));
            Walk(PrintAll([box]), 0) == Walked(Preorder([box]), None)
  {
    var fields := RequestFields(now, session, revision, query);
    var box := Box(ADSR, fields);
    PlainTag(MSTC);
    PlainTag(MLID);
    PlainTag(MIKD);
    PlainTag(MUSR);
    PlainTag(MDER);
    PlainTag(MQUE);
    PlainTag(AETL);
    RequestLength(now, session, revision, query);
    PlainLeaves(fields);
    assert IsContainer(ADSR) by { assert CONTAINERS[1..][0] == ADSR; }
    assert Body(box) == PrintAll(fields);
    assert GoodNode(box);
    OneNode(box);
    WalkPrinted([box], 0);
  }

  // ── the purchase listing ─────────────────────────────────────────────────

  const AESI: seq<byte> := [0x61, 0x65, 0x53, 0x49]
  const AEBI: seq<byte> := [0x61, 0x65, 0x42, 0x49]
  const AELN: seq<byte> := [0x61, 0x65, 0x4C, 0x4E]
  const MINM: seq<byte> := [0x6D, 0x69, 0x6E, 0x6D]
  const AEPD: seq<byte> := [0x61, 0x65, 0x50, 0x64]
  const ASDP: seq<byte> := [0x61, 0x73, 0x64, 0x70]

  datatype App = App(id: int, bundle: seq<byte>, name: seq<byte>, version: seq<byte>, purchased: Option<Calendar.Stamp>)

  const BLANK: App := App(0, [], [], [], None)

  function ReadInt(payload: seq<byte>): Option<int> {
    if |payload| == 4 then Some(ReadBe32(payload, 0))
    else if |payload| == 8 then
      var v := 0x1_0000_0000 * ReadBe32(payload, 0) + ReadBe32(payload, 4);
      Some(if v < 0x8000_0000_0000_0000 then v else v - 0x1_0000_0000_0000_0000)
    else None
  }

  /** What one field does to the record being read. */
  function SetField(app: App, v: Visit): App {
    if v.tag == AESI then app.(id := match ReadInt(v.payload) case None => 0 case Some(n) => n)
    else if v.tag == AEBI then app.(bundle := Utf8.Lossy(v.payload))
    else if v.tag == AELN then app.(name := Utf8.Lossy(v.payload))
    else if v.tag == MINM then (if app.name == [] then app.(name := Utf8.Lossy(v.payload)) else app)
    else if v.tag == AEPD then app.(version := Utf8.Lossy(v.payload))
    else if v.tag == ASDP && |v.payload| == 4 then app.(purchased := Some(Calendar.Iso8601(ReadBe32(v.payload, 0))))
    else app
  }

  function SetFields(app: App, visits: seq<Visit>): App
    decreases |visits|
  {
    if visits == [] then app else SetFields(SetField(app, visits[0]), visits[1..])
  }

  /** The records of the listings among `visits`, up to the first listing that does not parse. */
  function Records(visits: seq<Visit>): seq<App> {
    if visits == [] then []
    else if visits[0].tag != MLIT then Records(visits[1..])
    else
      var inner := Walk(visits[0].payload, 0);
      if inner.error.Some? then [] else [SetFields(BLANK, inner.visits)] + Records(visits[1..])
  }

  /** The first record with its id, and the id is not zero. */
  predicate First(records: seq<App>, i: nat)
    requires i < |records|
  {
    records[i].id != 0 && forall j :: 0 <= j < i ==> records[j].id != records[i].id
  }

  /** The first records of each id among the first `n`, in order. */
  function Firsts(records: seq<App>, n: nat): seq<App>
    requires n <= |records|
  {
    if n == 0 then [] else Firsts(records, n - 1) + if First(records, n - 1) then [records[n - 1]] else []
  }

  method ReadListing(payload: seq<byte>) returns (r: Option<App>)
    ensures r == if Walk(payload, 0).error.Some? then None else Some(SetFields(BLANK, Walk(payload, 0).visits))
  {
    var w := WalkDmap(payload, 0);
    var app := BLANK;
    for i := 0 to |w.visits|
      invariant SetFields(app, w.visits[i..]) == SetFields(BLANK, w.visits)
    {
      assert w.visits[i..][0] == w.visits[i] && w.visits[i..][1..] == w.visits[i + 1..];
      app := SetField(app, w.visits[i]);
    }
    r := if w.error.Some? then None else Some(app);
  }

  /** The ids seen are exactly the nonzero ids of the records read. */
  ghost predicate Seen(seen: set<int>, done: seq<App>) {
    forall id :: id in seen <==> id != 0 && HasId(done, id)
  }

  predicate HasId(done: seq<App>, id: int) { exists j :: 0 <= j < |done| && done[j].id == id }

  lemma SeenGrows(seen: set<int>, done: seq<App>, app: App)
    requires Seen(seen, done)
    ensures Seen(if app.id != 0 then seen + {app.id} else seen, done + [app])
    ensures app.id !in seen <==> app.id == 0 || forall j :: 0 <= j < |done| ==> done[j].id != app.id
  {
    var more := done + [app];
    assert more[|done|] == app;
    forall id ensures HasId(more, id) <==> id == app.id || HasId(done, id) {
      if j :| 0 <= j < |done| && done[j].id == id { assert more[j].id == id; }
    }
  }

  /** The records after one more visit. */
  lemma RecordsNext(visits: seq<Visit>, i: nat, done: seq<App>, all: seq<App>)
    requires i < |visits| && done + Records(visits[i..]) == all
    ensures visits[i].tag != MLIT ==> done + Records(visits[i + 1..]) == all
    ensures visits[i].tag == MLIT ==>
              var inner := Walk(visits[i].payload, 0);
              if inner.error.Some? then done == all else done + [SetFields(BLANK, inner.visits)] + Records(visits[i + 1..]) == all
  {
  }

  /** Keep a record unless its id is zero or was seen. */
  method Keep(apps0: seq<App>, seen0: set<int>, app: App, ghost done: seq<App>) returns (apps: seq<App>, seen: set<int>)
    requires Seen(seen0, done) && apps0 == Firsts(done, |done|)
    ensures Seen(seen, done + [app]) && apps == Firsts(done + [app], |done + [app]|)
  {
    apps, seen := apps0, seen0;
    SeenGrows(seen, done, app);
    FirstsGrow(done, app);
    if app.id != 0 && app.id !in seen {
      seen := seen + {app.id};
      apps := apps + [app];
    } else if app.id != 0 {
      assert seen + {app.id} == seen;
    }
  }

  /** `parse_owned_apps`: a listing that does not parse ends the reading but keeps what came before. */
  method ParseOwnedApps(data: seq<byte>) returns (apps: seq<App>)
    ensures var records := Records(Walk(data, 0).visits); apps == Firsts(records, |records|)
  {
    apps := [];
    var seen: set<int> := {};
    var w := WalkDmap(data, 0);
    ghost var done: seq<App>, all := [], Records(w.visits);
    assert w.visits[0..] == w.visits;
    for i := 0 to |w.visits|
      invariant done + Records(w.visits[i..]) == all
      invariant apps == Firsts(done, |done|) && Seen(seen, done)
    {
      RecordsNext(w.visits, i, done, all);
      if w.visits[i].tag != MLIT {
        continue;
      }
      var app := ReadListing(w.visits[i].payload);
      if app.None? {
        return;
      }
      apps, seen := Keep(apps, seen, app.value, done);
      done := done + [app.value];
    }
    assert done + Records([]) == done;
  }

  lemma FirstsGrow(done: seq<App>, app: App)
    ensures var more := done + [app];
            Firsts(more, |more|) == Firsts(done, |done|) + if app.id != 0 && (forall j :: 0 <= j < |done| ==> done[j].id != app.id) then [app] else []
  {
    var more := done + [app];
    FirstsPrefix(done, app, |done|);
    assert First(more, |done|) <==> app.id != 0 && forall j :: 0 <= j < |done| ==> done[j].id != app.id by {
      assert forall j :: 0 <= j < |done| ==> more[j] == done[j];
    }
  }

  lemma {:induction false} FirstsPrefix(done: seq<App>, app: App, n: nat)
    requires n <= |done|
    ensures Firsts(done + [app], n) == Firsts(done, n)
  {
    if n > 0 {
      FirstsPrefix(done, app, n - 1);
      assert forall j :: 0 <= j < |done| ==> (done + [app])[j] == done[j];
      assert First(done + [app], n - 1) <==> First(done, n - 1);
    }
  }

  predicate DistinctIds(apps: seq<App>) { forall k, l :: 0 <= k < l < |apps| ==> apps[k].id != apps[l].id }

  /** Every listed record was read, and has an id. */
  predicate FromRecords(apps: seq<App>, records: seq<App>, n: nat)
    requires n <= |records|
  {
    forall k :: 0 <= k < |apps| ==> apps[k].id != 0 && apps[k] in records[..n]
  }

  /** Every nonzero id read is listed. */
  predicate CoversIds(apps: seq<App>, records: seq<App>, n: nat)
    requires n <= |records|
  {
    forall i :: 0 <= i < n && records[i].id != 0 ==> HasId(apps, records[i].id)
  }

  /** The listing's ids are distinct and nonzero, and every nonzero id read appears. */
  lemma {:induction false} FirstsDistinct(records: seq<App>, n: nat)
    requires n <= |records|
    ensures var apps := Firsts(records, n); DistinctIds(apps) && FromRecords(apps, records, n) && CoversIds(apps, records, n)
  {
    if n > 0 {
      FirstsDistinct(records, n - 1);
      FirstsStep(records, n - 1, Firsts(records, n - 1), Firsts(records, n));
    }
  }

  lemma FirstsStep(records: seq<App>, m: nat, front: seq<App>, apps: seq<App>)
    requires m < |records| && DistinctIds(front) && FromRecords(front, records, m) && CoversIds(front, records, m)
    requires apps == front + if First(records, m) then [records[m]] else []
    ensures DistinctIds(apps) && FromRecords(apps, records, m + 1) && CoversIds(apps, records, m + 1)
  {
    assert records[..m + 1] == records[..m] + [records[m]];
    forall i | 0 <= i < m + 1 && records[i].id != 0 ensures HasId(apps, records[i].id) {
      NewOrOld(records, m, front, apps, i);
    }
  }

  lemma NewOrOld(records: seq<App>, m: nat, front: seq<App>, apps: seq<App>, i: nat)
    requires i <= m < |records| && CoversIds(front, records, m) && records[i].id != 0
    requires apps == front + if First(records, m) then [records[m]] else []
    ensures HasId(apps, records[i].id)
  {
    if i == m && First(records, m) {
      assert apps[|front|] == records[m];
    } else {
      var j :| 0 <= j < m && records[j].id == records[i].id;
      assert HasId(front, records[j].id);
      var k :| 0 <= k < |front| && front[k].id == records[j].id;
      assert apps[k] == front[k];
    }
  }
}
