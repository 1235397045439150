/** The dependency walk of tools/gen_license_tables.py: `graph` and `reach`. */
module Reach {
  import opened Wrappers

  type Node = string

  /** A dependency kind; `None` is cargo's default, a normal dependency. */
  type Kind = Option<string>

  datatype Edge = Edge(dep: Node, kind: Kind)

  datatype Package = Package(procMacro: bool)

  datatype KeyError = KeyError(key: Node)

  // ── the graph ────────────────────────────────────────────────────────────

  datatype Dependency = Dependency(pkg: Node, kinds: set<Kind>)

  datatype ResolveNode = ResolveNode(id: Node, deps: seq<Dependency>)

  /** A dependency of kind `k`, where a missing list of kinds means the default kind. */
  predicate HasKind(d: Dependency, k: Kind) {
    if d.kinds == {} then k == None else k in d.kinds
  }

  predicate Depends(deps: seq<Dependency>, e: Edge) {
    exists d :: d in deps && d.pkg == e.dep && HasKind(d, e.kind)
  }

  method EdgesOf(deps: seq<Dependency>) returns (edges: seq<Edge>)
    ensures forall e :: e in edges <==> Depends(deps, e)
  {
    edges := [];
    for i := 0 to |deps|
      invariant forall e :: e in edges <==> Depends(deps[..i], e)
    {
      var kinds := if deps[i].kinds == {} then {None} else deps[i].kinds;
      ghost var before := edges;
      var left := kinds;
      while left != {}
        invariant left <= kinds
        invariant forall e :: e in edges <==> e in before || (e.dep == deps[i].pkg && e.kind in kinds - left)
        decreases left
      {
        var k :| k in left;
        edges := edges + [Edge(deps[i].pkg, k)];
        left := left - {k};
      }
      assert deps[..i + 1] == deps[..i] + [deps[i]];
    }
    assert deps[..|deps|] == deps;
  }

  /** Entry `i` is the last of the first `k` with its id. */
  predicate LastEntry(nodes: seq<ResolveNode>, k: nat, i: nat)
    requires k <= |nodes|
  {
    i < k && forall j :: i < j < k ==> nodes[j].id != nodes[i].id
  }

  /** `edges` are exactly the dependencies of entry `i`. */
  ghost predicate EdgesMatch(node: ResolveNode, edges: seq<Edge>) {
    forall e :: e in edges <==> Depends(node.deps, e)
  }

  predicate Listed(nodes: seq<ResolveNode>, k: nat, n: Node)
    requires k <= |nodes|
  {
    exists i :: 0 <= i < k && nodes[i].id == n
  }

  predicate KeysListed(nodes: seq<ResolveNode>, k: nat, g: map<Node, seq<Edge>>)
    requires k <= |nodes|
  {
    (forall n :: n in g ==> Listed(nodes, k, n)) && (forall i :: 0 <= i < k ==> nodes[i].id in g)
  }

  ghost predicate IsGraph(nodes: seq<ResolveNode>, k: nat, g: map<Node, seq<Edge>>)
    requires k <= |nodes|
  {
    KeysListed(nodes, k, g) && forall i :: 0 <= i < k && LastEntry(nodes, k, i) ==> EdgesMatch(nodes[i], g[nodes[i].id])
  }

  lemma KeysGrow(nodes: seq<ResolveNode>, k: nat, g: map<Node, seq<Edge>>, edges: seq<Edge>)
    requires k < |nodes| && KeysListed(nodes, k, g)
    ensures KeysListed(nodes, k + 1, g[nodes[k].id := edges])
  {
  }

  lemma EntryStays(nodes: seq<ResolveNode>, k: nat, g: map<Node, seq<Edge>>, edges: seq<Edge>, i: nat)
    requires k < |nodes| && IsGraph(nodes, k, g) && EdgesMatch(nodes[k], edges)
    requires i < k + 1 && LastEntry(nodes, k + 1, i)
    ensures nodes[i].id in g[nodes[k].id := edges] && EdgesMatch(nodes[i], g[nodes[k].id := edges][nodes[i].id])
  {
  }

  lemma GraphGrows(nodes: seq<ResolveNode>, k: nat, g: map<Node, seq<Edge>>, edges: seq<Edge>)
    requires k < |nodes| && IsGraph(nodes, k, g) && EdgesMatch(nodes[k], edges)
    ensures IsGraph(nodes, k + 1, g[nodes[k].id := edges])
  {
    KeysGrow(nodes, k, g, edges);
    forall i | 0 <= i < k + 1 && LastEntry(nodes, k + 1, i) ensures EdgesMatch(nodes[i], g[nodes[k].id := edges][nodes[i].id]) {
      EntryStays(nodes, k, g, edges, i);
    }
  }

  /** The adjacency lists; a repeated node id keeps its last entry. */
  method BuildGraph(nodes: seq<ResolveNode>) returns (g: map<Node, seq<Edge>>)
    ensures IsGraph(nodes, |nodes|, g)
  {
    g := map[];
    for k := 0 to |nodes|
      invariant IsGraph(nodes, k, g)
    {
      var edges := EdgesOf(nodes[k].deps);
      GraphGrows(nodes, k, g, edges);
      g := g[nodes[k].id := edges];
    }
  }

  // ── paths ────────────────────────────────────────────────────────────────

  /** One call's arguments. */
  datatype Walk = Walk(g: map<Node, seq<Edge>>, roots: seq<Node>, want: set<Kind>, ids: map<Node, Package>, stop: bool) {
    function Edges(n: Node): seq<Edge> { if n in g then g[n] else [] }

    /** Some wanted edge leads from `a` to `b`. */
    predicate Wanted(a: Node, b: Node) { exists e :: e in Edges(a) && e.kind in want && e.dep == b }

    /** A step the walk may take: a stopping walk never enters a proc-macro package. */
    predicate Step(a: Node, b: Node) { Wanted(a, b) && (stop ==> b in ids && !ids[b].procMacro) }

    /** A walk from a root that ends at `n`. */
    predicate Path(p: seq<Node>, n: Node) {
      && p != [] && p[0] in roots && p[|p| - 1] == n
      && forall i :: 0 < i < |p| ==> Step(p[i - 1], p[i])
    }

    ghost predicate Reachable(n: Node) { exists p :: Path(p, n) }

    /** What a finished search owes: exactly the reachable nodes, each with a shortest path. */
    ghost predicate Answer(best: map<Node, seq<Node>>) {
      && (forall n :: n in best <==> Reachable(n))
      && (forall n :: n in best ==> Path(best[n], n))
      && (forall n, q :: Path(q, n) ==> n in best && |best[n]| <= |q|)
    }
  }

  datatype Item = Item(node: Node, path: seq<Node>)

  lemma PathGrows(w: Walk, p: seq<Node>, a: Node, b: Node)
    requires w.Path(p, a) && w.Step(a, b)
    ensures w.Path(p + [b], b)
  {
  }

  // ── the search's invariants ──────────────────────────────────────────────

  predicate Queued(queue: seq<Item>, n: Node, len: nat) {
    exists i :: 0 <= i < |queue| && queue[i].node == n && |queue[i].path| <= len
  }

  /** `n` has a path of at most `len` nodes, found or waiting. */
  predicate Covered(best: map<Node, seq<Node>>, queue: seq<Item>, n: Node, len: nat) {
    (n in best && |best[n]| <= len) || Queued(queue, n, len)
  }

  predicate Sorted(queue: seq<Item>) {
    forall i, j :: 0 <= i <= j < |queue| ==> |queue[i].path| <= |queue[j].path| <= |queue[i].path| + 1
  }

  /** No found path is longer than a waiting one. */
  predicate Ahead(best: map<Node, seq<Node>>, queue: seq<Item>) {
    forall n, i :: n in best && 0 <= i < |queue| ==> |best[n]| <= |queue[i].path|
  }

  ghost predicate Sound(w: Walk, best: map<Node, seq<Node>>, queue: seq<Item>) {
    && (forall n :: n in best ==> w.Path(best[n], n))
    && (forall i :: 0 <= i < |queue| ==> w.Path(queue[i].path, queue[i].node))
  }

  predicate RootsCovered(w: Walk, best: map<Node, seq<Node>>, queue: seq<Item>) {
    forall r :: r in w.roots ==> Covered(best, queue, r, 1)
  }

  ghost predicate StepsCovered(w: Walk, best: map<Node, seq<Node>>, queue: seq<Item>, n: Node) {
    n in best ==> forall d :: w.Step(n, d) ==> Covered(best, queue, d, |best[n]| + 1)
  }

  ghost predicate Inv(w: Walk, best: map<Node, seq<Node>>, queue: seq<Item>) {
    && Sound(w, best, queue) && Sorted(queue) && Ahead(best, queue) && RootsCovered(w, best, queue)
    && forall n :: StepsCovered(w, best, queue, n)
  }

  /** Every node still covered after the head of the queue is found or dropped. */
  lemma PopCovers(w: Walk, best: map<Node, seq<Node>>, queue: seq<Item>, after: map<Node, seq<Node>>)
    requires Inv(w, best, queue) && queue != []
    requires forall m :: m in best ==> m in after && after[m] == best[m]
    requires queue[0].node in after && |after[queue[0].node]| <= |queue[0].path|
    ensures RootsCovered(w, after, queue[1..])
    ensures forall n :: n in best ==> StepsCovered(w, after, queue[1..], n)
  {
    forall r | r in w.roots ensures Covered(after, queue[1..], r, 1) {
      CoveredAfterPop(best, queue, after, r, 1);
    }
    forall n | n in best ensures StepsCovered(w, after, queue[1..], n) {
      assert StepsCovered(w, best, queue, n);
      forall d | w.Step(n, d) ensures Covered(after, queue[1..], d, |best[n]| + 1) {
        CoveredAfterPop(best, queue, after, d, |best[n]| + 1);
      }
    }
  }

  /** When nothing waits, every path is matched by one no longer. */
  lemma {:induction false} Complete(w: Walk, best: map<Node, seq<Node>>, q: seq<Node>, n: Node)
    requires Inv(w, best, []) && w.Path(q, n)
    ensures n in best && |best[n]| <= |q|
    decreases |q|
  {
    if |q| == 1 {
      assert Covered(best, [], n, 1);
    } else {
      var front := q[..|q| - 1];
      var m := front[|front| - 1];
      assert w.Path(front, m);
      Complete(w, best, front, m);
      assert StepsCovered(w, best, [], m);
      assert w.Step(q[|q| - 2], q[|q| - 1]);
      assert Covered(best, [], n, |best[m]| + 1);
    }
  }

  lemma InvAnswers(w: Walk, best: map<Node, seq<Node>>)
    requires Inv(w, best, []) && FoundLooked(w, best)
    ensures w.Answer(best) && AllLookedUp(w)
  {
    forall n, q | w.Path(q, n) ensures n in best && |best[n]| <= |q| {
      Complete(w, best, q, n);
    }
  }

  /** Removing an entry, once its node has a path no longer, uncovers nothing. */
  lemma CoveredAfterPop(best: map<Node, seq<Node>>, queue: seq<Item>, after: map<Node, seq<Node>>, n: Node, len: nat)
    requires queue != [] && Covered(best, queue, n, len)
    requires forall m :: m in best ==> m in after && after[m] == best[m]
    requires queue[0].node in after && |after[queue[0].node]| <= |queue[0].path|
    ensures Covered(after, queue[1..], n, len)
  {
  }

  /** A second entry of a node already found is dropped. */
  lemma DropKeepsInv(w: Walk, best: map<Node, seq<Node>>, queue: seq<Item>)
    requires Inv(w, best, queue) && queue != [] && queue[0].node in best
    ensures Inv(w, best, queue[1..])
  {
    PopCovers(w, best, queue, best);
  }

  /** The invariant while the edges of the freshly found `node` are being expanded. */
  ghost predicate Expanding(w: Walk, best: map<Node, seq<Node>>, queue: seq<Item>, item: Item, done: nat) {
    && Sound(w, best, queue) && Sorted(queue) && Ahead(best, queue) && RootsCovered(w, best, queue)
    && (forall n :: n != item.node ==> StepsCovered(w, best, queue, n))
    && item.node in best && best[item.node] == item.path
    && (forall n :: n in best ==> |best[n]| <= |item.path|)
    && (forall i :: 0 <= i < |queue| ==> |item.path| <= |queue[i].path| <= |item.path| + 1)
    && done <= |w.Edges(item.node)|
    && EdgesCovered(w, best, queue, item, done)
  }

  /** A step along one edge. */
  predicate Along(w: Walk, n: Node, k: nat)
    requires k < |w.Edges(n)|
  {
    w.Edges(n)[k].kind in w.want && w.Step(n, w.Edges(n)[k].dep)
  }

  predicate EdgesCovered(w: Walk, best: map<Node, seq<Node>>, queue: seq<Item>, item: Item, done: nat)
    requires done <= |w.Edges(item.node)|
  {
    forall k :: 0 <= k < done && Along(w, item.node, k) ==> Covered(best, queue, w.Edges(item.node)[k].dep, |item.path| + 1)
  }

  lemma FoundSound(w: Walk, best: map<Node, seq<Node>>, queue: seq<Item>)
    requires Inv(w, best, queue) && queue != [] && queue[0].node !in best
    ensures var after := best[queue[0].node := queue[0].path];
            Sound(w, after, queue[1..]) && Sorted(queue[1..]) && Ahead(after, queue[1..])
  {
  }

  lemma FoundStartsExpanding(w: Walk, best: map<Node, seq<Node>>, queue: seq<Item>)
    requires Inv(w, best, queue) && queue != [] && queue[0].node !in best
    ensures Expanding(w, best[queue[0].node := queue[0].path], queue[1..], queue[0], 0)
  {
    FoundSound(w, best, queue);
    PopCovers(w, best, queue, best[queue[0].node := queue[0].path]);
  }

  lemma CoveredAfterPush(best: map<Node, seq<Node>>, queue: seq<Item>, item: Item, n: Node, len: nat)
    requires Covered(best, queue, n, len)
    ensures Covered(best, queue + [item], n, len)
  {
    if !(n in best && |best[n]| <= len) {
      var i :| 0 <= i < |queue| && queue[i].node == n && |queue[i].path| <= len;
      assert (queue + [item])[i] == queue[i];
    }
  }

  lemma PushKeepsExpanding(w: Walk, best: map<Node, seq<Node>>, queue: seq<Item>, item: Item, done: nat)
    requires Expanding(w, best, queue, item, done) && done < |w.Edges(item.node)| && Along(w, item.node, done)
    ensures var dep := w.Edges(item.node)[done].dep;
            Expanding(w, best, queue + [Item(dep, item.path + [dep])], item, done + 1)
  {
    var dep := w.Edges(item.node)[done].dep;
    var pushed := Item(dep, item.path + [dep]);
    var after := queue + [pushed];
    PathGrows(w, item.path, item.node, dep);
    assert after[|queue|] == pushed;
    forall r | r in w.roots ensures Covered(best, after, r, 1) {
      CoveredAfterPush(best, queue, pushed, r, 1);
    }
    forall n | n != item.node ensures StepsCovered(w, best, after, n) {
      assert StepsCovered(w, best, queue, n);
      if n in best {
        forall d | w.Step(n, d) ensures Covered(best, after, d, |best[n]| + 1) {
          CoveredAfterPush(best, queue, pushed, d, |best[n]| + 1);
        }
      }
    }
    forall k | 0 <= k < done + 1 && Along(w, item.node, k)
      ensures Covered(best, after, w.Edges(item.node)[k].dep, |item.path| + 1)
    {
      if k < done { CoveredAfterPush(best, queue, pushed, w.Edges(item.node)[k].dep, |item.path| + 1); }
    }
  }

  lemma ExpandedKeepsInv(w: Walk, best: map<Node, seq<Node>>, queue: seq<Item>, item: Item)
    requires Expanding(w, best, queue, item, |w.Edges(item.node)|)
    ensures Inv(w, best, queue)
  {
  }

  /** Every node the root list or an edge can name. */
  function Universe(w: Walk): set<Node> {
    (set r | r in w.roots) + (set n, e | n in w.g && e in w.g[n] :: e.dep)
  }

  ghost predicate Known(w: Walk, best: map<Node, seq<Node>>, queue: seq<Item>) {
    && best.Keys <= Universe(w)
    && forall i :: 0 <= i < |queue| ==> queue[i].node in Universe(w)
  }

  lemma FoundKnown(w: Walk, best: map<Node, seq<Node>>, queue: seq<Item>)
    requires Known(w, best, queue) && queue != [] && queue[0].node !in best
    ensures Known(w, best[queue[0].node := queue[0].path], queue[1..])
    ensures |Universe(w) - best[queue[0].node := queue[0].path].Keys| < |Universe(w) - best.Keys|
  {
  }

  // ── missing packages ─────────────────────────────────────────────────────

  /** A wanted edge out of a reachable node leads to an id without a package. */
  ghost predicate Dangling(w: Walk, n: Node, d: Node) {
    w.Reachable(n) && w.Wanted(n, d) && d !in w.ids
  }

  ghost predicate Dangles(w: Walk) { exists n, d :: Dangling(w, n, d) }

  /** A stopping search met a wanted dependency that is no package. */
  ghost predicate FailsOn(w: Walk, key: Node) { w.stop && exists n :: Dangling(w, n, key) }

  ghost predicate Searching(w: Walk, best: map<Node, seq<Node>>, queue: seq<Item>) {
    Inv(w, best, queue) && Known(w, best, queue) && FoundLooked(w, best)
  }

  /** Every root is a package. */
  predicate RootsKnown(w: Walk) { forall n :: n in w.roots ==> n in w.ids }

  /** Every wanted edge expanded so far led to a known package or to a root. */
  ghost predicate Looked(w: Walk, n: Node) {
    forall d :: w.Wanted(n, d) ==> d in w.ids || d in w.roots
  }

  ghost predicate AllLookedUp(w: Walk) {
    w.stop ==> forall n :: w.Reachable(n) ==> Looked(w, n)
  }

  ghost predicate FoundLooked(w: Walk, best: map<Node, seq<Node>>) {
    w.stop ==> forall n :: n in best ==> Looked(w, n)
  }

  ghost predicate LookedSoFar(w: Walk, n: Node, done: nat)
    requires done <= |w.Edges(n)|
  {
    forall k :: 0 <= k < done && w.Edges(n)[k].kind in w.want ==> w.Edges(n)[k].dep in w.ids || w.Edges(n)[k].dep in w.roots
  }

  lemma AllLooked(w: Walk, n: Node)
    requires LookedSoFar(w, n, |w.Edges(n)|)
    ensures Looked(w, n)
  {
  }

  /** A node with a path was either a root or entered by a permitted step. */
  lemma EnteredKnown(w: Walk, p: seq<Node>, n: Node)
    requires w.Path(p, n) && w.stop
    ensures n in w.ids || n in w.roots
  {
    if |p| > 1 { assert w.Step(p[|p| - 2], p[|p| - 1]); }
  }

  /** The inner loop: queue every wanted dependency not found yet. */
  method Expand(w: Walk, best: map<Node, seq<Node>>, queue0: seq<Item>, item: Item) returns (r: Result<seq<Item>, KeyError>)
    requires Expanding(w, best, queue0, item, 0) && Known(w, best, queue0)
    ensures r.Success? ==> Inv(w, best, r.value) && Known(w, best, r.value) && (w.stop ==> Looked(w, item.node))
    ensures r.Failure? ==> FailsOn(w, r.error.key)
  {
    var queue, edges := queue0, w.Edges(item.node);
    for k := 0 to |edges|
      invariant Expanding(w, best, queue, item, k) && Known(w, best, queue)
      invariant w.stop ==> LookedSoFar(w, item.node, k)
    {
      var e := edges[k];
      if e.kind !in w.want || e.dep in best {
        SkipKeepsExpanding(w, best, queue, item, k);
        continue;
      }
      if w.stop {
        if e.dep !in w.ids {
          DanglingHere(w, item, k);
          return Failure(KeyError(e.dep));
        }
        if w.ids[e.dep].procMacro {
          StopKeepsExpanding(w, best, queue, item, k);
          continue;
        }
      }
      TakesStep(w, item.node, k);
      PushKeepsExpanding(w, best, queue, item, k);
      queue := queue + [Item(e.dep, item.path + [e.dep])];
    }
    ExpandedKeepsInv(w, best, queue, item);
    if w.stop { AllLooked(w, item.node); }
    r := Success(queue);
  }

  /** A node taken off the queue for the first time. */
  method Visit(w: Walk, best0: map<Node, seq<Node>>, queue: seq<Item>) returns (best: map<Node, seq<Node>>, r: Result<seq<Item>, KeyError>)
    requires Searching(w, best0, queue) && queue != [] && queue[0].node !in best0
    ensures r.Success? ==> Searching(w, best, r.value)
    ensures |Universe(w) - best.Keys| < |Universe(w) - best0.Keys|
    ensures r.Failure? ==> FailsOn(w, r.error.key)
  {
    FoundStartsExpanding(w, best0, queue);
    FoundKnown(w, best0, queue);
    best := best0[queue[0].node := queue[0].path];
    r := Expand(w, best, queue[1..], queue[0]);
  }

  lemma DanglingHere(w: Walk, item: Item, k: nat)
    requires w.Path(item.path, item.node) && k < |w.Edges(item.node)|
    requires w.Edges(item.node)[k].kind in w.want && w.Edges(item.node)[k].dep !in w.ids
    ensures Dangling(w, item.node, w.Edges(item.node)[k].dep)
  {
  }

  lemma StopKeepsExpanding(w: Walk, best: map<Node, seq<Node>>, queue: seq<Item>, item: Item, k: nat)
    requires Expanding(w, best, queue, item, k) && k < |w.Edges(item.node)|
    requires w.stop && w.Edges(item.node)[k].dep in w.ids && w.ids[w.Edges(item.node)[k].dep].procMacro
    ensures Expanding(w, best, queue, item, k + 1)
  {
  }

  lemma TakesStep(w: Walk, n: Node, k: nat)
    requires k < |w.Edges(n)| && w.Edges(n)[k].kind in w.want
    requires w.stop ==> w.Edges(n)[k].dep in w.ids && !w.ids[w.Edges(n)[k].dep].procMacro
    ensures Along(w, n, k) && w.Edges(n)[k].dep in Universe(w)
  {
  }

  lemma RootsStart(w: Walk, queue: seq<Item>)
    requires queue == seq(|w.roots|, i requires 0 <= i < |w.roots| => Item(w.roots[i], [w.roots[i]]))
    ensures Searching(w, map[], queue)
  {
    forall x | x in w.roots ensures Covered(map[], queue, x, 1) {
      var i :| 0 <= i < |w.roots| && w.roots[i] == x;
      assert queue[i].node == x && |queue[i].path| == 1;
    }
  }

  lemma DropKeepsSearching(w: Walk, best: map<Node, seq<Node>>, queue: seq<Item>)
    requires Searching(w, best, queue) && queue != [] && queue[0].node in best
    ensures Searching(w, best, queue[1..])
  {
    DropKeepsInv(w, best, queue);
  }

  lemma NothingDangles(w: Walk)
    requires AllLookedUp(w)
    ensures w.stop && RootsKnown(w) ==> !Dangles(w)
  {
    if w.stop && RootsKnown(w) {
      forall n, d ensures !Dangling(w, n, d) {
        if w.Reachable(n) { assert Looked(w, n); }
      }
    }
  }

  /**
   * `reach`. The search ends despite duplicate queue entries. A search that stops at proc macros
   * looks every wanted dependency up, and can only fail on one that has no package; it fails on
   * every such dependency that is not itself a root: with every root a package, exactly when one exists.
   */
  method ReachFrom(w: Walk) returns (r: Result<map<Node, seq<Node>>, KeyError>)
    ensures r.Success? ==> w.Answer(r.value) && AllLookedUp(w)
    ensures r.Failure? ==> FailsOn(w, r.error.key)
    ensures w.stop && RootsKnown(w) ==> (r.Failure? <==> Dangles(w))
    ensures !w.stop ==> r.Success?
  {
    var best: map<Node, seq<Node>> := map[];
    var queue := seq(|w.roots|, i requires 0 <= i < |w.roots| => Item(w.roots[i], [w.roots[i]]));
    RootsStart(w, queue);
    while queue != []
      invariant Searching(w, best, queue)
      decreases |Universe(w) - best.Keys|, |queue|
    {
      if queue[0].node in best {
        DropKeepsSearching(w, best, queue);
        queue := queue[1..];
        continue;
      }
      var expanded;
      best, expanded := Visit(w, best, queue);
      if expanded.Failure? {
        return Failure(expanded.error);
      }
      queue := expanded.value;
    }
    InvAnswers(w, best);
    NothingDangles(w);
    r := Success(best);
  }

  lemma SkipKeepsExpanding(w: Walk, best: map<Node, seq<Node>>, queue: seq<Item>, item: Item, k: nat)
    requires Expanding(w, best, queue, item, k) && k < |w.Edges(item.node)|
    requires var e := w.Edges(item.node)[k]; e.kind !in w.want || e.dep in best
    ensures Expanding(w, best, queue, item, k + 1)
    ensures w.stop && LookedSoFar(w, item.node, k) ==> LookedSoFar(w, item.node, k + 1)
  {
    var e := w.Edges(item.node)[k];
    if e.dep in best {
      assert Covered(best, queue, e.dep, |item.path| + 1);
      if w.stop { EnteredKnown(w, best[e.dep], e.dep); }
    }
  }

  // ── what callers rely on ─────────────────────────────────────────────────

  /** The search that stops at proc macros finds only nodes the unrestricted one finds, at no shorter distance. */
  lemma RestrictedIsSubset(w: Walk, restricted: map<Node, seq<Node>>, everything: map<Node, seq<Node>>)
    requires w.(stop := true).Answer(restricted) && w.(stop := false).Answer(everything)
    ensures restricted.Keys <= everything.Keys
    ensures forall n :: n in restricted ==> |everything[n]| <= |restricted[n]|
  {
    var stopping, free := w.(stop := true), w.(stop := false);
    forall n | n in restricted ensures n in everything && |everything[n]| <= |restricted[n]| {
      var p := restricted[n];
      assert stopping.Path(p, n);
      forall i | 0 < i < |p| ensures free.Step(p[i - 1], p[i]) {
        assert stopping.Step(p[i - 1], p[i]);
        assert stopping.Wanted(p[i - 1], p[i]);
        assert free.Edges(p[i - 1]) == stopping.Edges(p[i - 1]);
      }
      assert free.Path(p, n);
    }
  }

  /** The nodes and the distances do not depend on the order the roots come in. */
  lemma RootOrderIrrelevant(w: Walk, order: seq<Node>, a: map<Node, seq<Node>>, b: map<Node, seq<Node>>)
    requires forall r :: r in order <==> r in w.roots
    requires w.Answer(a) && w.(roots := order).Answer(b)
    ensures a.Keys == b.Keys && forall n :: n in a ==> |a[n]| == |b[n]|
  {
    var v := w.(roots := order);
    forall x, y ensures w.Step(x, y) <==> v.Step(x, y) {
      assert w.Edges(x) == v.Edges(x);
    }
    forall p, n ensures w.Path(p, n) <==> v.Path(p, n) {
    }
    forall n | n in a ensures n in b && |a[n]| == |b[n]| {
      assert w.Path(a[n], n);
      assert v.Path(b[n], n);
    }
    forall n | n in b ensures n in a {
      assert v.Path(b[n], n);
    }
  }

  /** One package with an edge to no package: a stopping search from it raises `KeyError`. */
  method DanglingRaises(n: Node, d: Node) returns (r: Result<map<Node, seq<Node>>, KeyError>)
    requires n != d
    ensures r == Failure(KeyError(d))
  {
    var e := Edge(d, None);
    var w := Walk(map[n := [e]], [n], {None}, map[n := Package(false)], true);
    assert w.Path([n], n);
    assert e in w.Edges(n) && w.Wanted(n, d);
    assert Dangling(w, n, d);
    forall x, key | Dangling(w, x, key) ensures key == d {
    }
    r := ReachFrom(w);
  }
}
