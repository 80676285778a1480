/**
 * The viewer's `DataManager`. It cleans the graph built from the two tables and keeps three
 * check-box filters: node types, node labels and edge labels. From these it computes every node's
 * distance from the checked nodes, and the part of the graph to draw. Drawing has a distance mode
 * (mode 1) and an edge-label mode (mode 2).
 *
 * Ids and labels come from the tables as text. A JavaScript object turns a missing label into the
 * key "undefined", and `KeyOf` models that. Property keys and `Map` keys coincide for every graph
 * the sanitizer lets through, because every edge end is then the id of a kept node. The sanitizer's
 * label tally models the names a plain object inherits from `Object.prototype`; the check-box
 * filters are maps of own entries.
 */
module DataManager {
  import opened Wrappers
  import Text
  import Seqs
  import Reach
  import opened ViewerUtils

  /** A node id, or an edge end: the table's text, or `undefined` when the column is missing. */
  type Id = Option<string>

  /** The property key JavaScript makes of an optional text. */
  function KeyOf(name: Option<string>): string {
    match name
    case Some(s) => s
    case None => "undefined"
  }

  function NodeLabel(n: ViewNode): string {
    KeyOf(n.tagged.name)
  }

  function EdgeLabel(e: ViewEdge): string {
    KeyOf(e.tagged.name)
  }

  /** The node's list of types (a node the sanitizer keeps always has one; see `KeptTypesSplit`). */
  function NodeTypes(n: ViewNode): seq<string> {
    match n.tagged.types
    case Split(ps) => ps
    case Untouched(_) => []
  }

  /** The edge's document indices (every edge the sanitizer keeps has them). */
  function EdgeDocs(e: ViewEdge): seq<string> {
    match e.tagged.documentIds
    case Some(ds) => ds
    case None => []
  }

  // ------------------------------------------------------------ sanitizeGraphData

  datatype Graph = Graph(nodes: seq<ViewNode>, edges: seq<ViewEdge>)

  /** `type` is truthy: a list (even an empty one) or a non-empty text. */
  predicate TypeTruthy(t: Types) {
    t.Split? || Truthy(t.raw)
  }

  /** A node survives when its label and its type are truthy (the id test never fires on text). */
  predicate KeepNode(n: ViewNode) {
    Truthy(n.tagged.name) && TypeTruthy(n.tagged.types)
  }

  function Ids(ns: seq<ViewNode>): (r: set<Id>)
    ensures forall n :: n in ns ==> n.id in r
    ensures forall x :: x in r ==> exists n :: n in ns && n.id == x
  {
    set n | n in ns :: n.id
  }

  /** An edge survives when both ends are ids of surviving nodes and its label is truthy. */
  predicate KeepEdge(ids: set<Id>, e: ViewEdge) {
    e.source in ids && e.target in ids && Truthy(e.tagged.name)
  }

  function Labels(ns: seq<ViewNode>): (ls: seq<string>)
    ensures |ls| == |ns| && forall i :: 0 <= i < |ns| ==> ls[i] == NodeLabel(ns[i])
  {
    seq(|ns|, i requires 0 <= i < |ns| => NodeLabel(ns[i]))
  }

  predicate Unique(ls: seq<string>) {
    forall i, j :: 0 <= i < j < |ls| ==> ls[i] != ls[j]
  }

  /**
    The names a plain object `{}` inherits from `Object.prototype`. Reading one of them from an
    object without an own property of that name gives a function, or for `__proto__` the
    prototype itself: a truthy value that is not a number.
  */
  const Inherited: set<string> := {
    "constructor", "hasOwnProperty", "isPrototypeOf", "propertyIsEnumerable", "toLocaleString",
    "toString", "valueOf", "__defineGetter__", "__defineSetter__", "__lookupGetter__",
    "__lookupSetter__", "__proto__"}

  /** A value in the tally object: a number, or the text that `+ 1` makes of an inherited value. */
  datatype Tally = Count(n: nat) | Concatenated

  /** The tally object's own entries: no `__proto__`, text exactly for inherited names, counts of at least 1. */
  predicate TallyOk(m: map<string, Tally>) {
    forall x :: x in m ==>
      && x != "__proto__"
      && (m[x].Concatenated? <==> x in Inherited)
      && (m[x].Count? ==> m[x].n >= 1)
  }

  /**
    The `reduce` of `acc[label] = (acc[label] || 0) + 1` into a plain object. An own count goes
    up by one; a new label counts 1, unless it names an inherited value, which `+ 1` turns into
    text, and text stays text. Assigning text to `__proto__` is ignored.
  */
  function CountLabels(ls: seq<string>): (m: map<string, Tally>)
    ensures forall l :: l in m <==> l in ls && l != "__proto__"
    ensures TallyOk(m)
  {
    if ls == [] then map[]
    else
      var init := ls[..|ls| - 1];
      var l := ls[|ls| - 1];
      assert forall x :: x in ls <==> x in init || x == l;
      var m := CountLabels(init);
      if l == "__proto__" then m else m[l := Bump(m, l)]
  }

  /** `(acc[l] || 0) + 1`. */
  function Bump(m: map<string, Tally>, l: string): Tally {
    if l in m then (match m[l] case Count(n) => Count(n + 1) case Concatenated => Concatenated)
    else if l in Inherited then Concatenated
    else Count(1)
  }

  /** `Object.entries(counts).filter(([label, count]) => count > 1)` is not empty: text is never `> 1`. */
  predicate Repeats(m: map<string, Tally>) {
    exists l :: l in m && m[l].Count? && m[l].n > 1
  }

  /** No label occurs twice, except one that names an inherited value. */
  predicate CountedOnce(ls: seq<string>) {
    forall i, j :: 0 <= i < j < |ls| && ls[i] !in Inherited ==> ls[i] != ls[j]
  }

  /** A list with one more label is counted once when the shorter one is and the label is new or inherited. */
  lemma CountedOnceSnoc(ls: seq<string>)
    requires ls != []
    ensures CountedOnce(ls) <==> CountedOnce(ls[..|ls| - 1]) && (ls[|ls| - 1] in Inherited || ls[|ls| - 1] !in ls[..|ls| - 1])
  {
    var init := ls[..|ls| - 1];
    var l := ls[|ls| - 1];
    if CountedOnce(ls) {
      assert CountedOnce(init) by {
        forall i, j | 0 <= i < j < |init| && init[i] !in Inherited ensures init[i] != init[j] {
          assert init[i] == ls[i] && init[j] == ls[j];
        }
      }
      if l !in Inherited {
        forall k | 0 <= k < |init| ensures init[k] != l {
          assert init[k] == ls[k];
        }
      }
    }
    if CountedOnce(init) && (l in Inherited || l !in init) {
      forall i, j | 0 <= i < j < |ls| && ls[i] !in Inherited ensures ls[i] != ls[j] {
        assert ls[i] == init[i];
        if j < |ls| - 1 {
          assert ls[j] == init[j];
        }
      }
    }
  }

  /** Tallying one more label shows a repeat when the shorter tally did or the label already has an own count. */
  lemma RepeatsSnoc(m: map<string, Tally>, l: string)
    requires TallyOk(m)
    ensures var m' := if l == "__proto__" then m else m[l := Bump(m, l)];
      Repeats(m') <==> Repeats(m) || (l in m && l !in Inherited)
  {
    var m' := if l == "__proto__" then m else m[l := Bump(m, l)];
    if Repeats(m') {
      var x :| x in m' && m'[x].Count? && m'[x].n > 1;
      if x != l {
        assert x in m && m[x].Count? && m[x].n > 1;
      }
    }
    if Repeats(m) {
      var x :| x in m && m[x].Count? && m[x].n > 1;
      if x != l {
        assert x in m' && m'[x] == m[x];
      } else {
        assert m'[x].Count? && m'[x].n > 1;
      }
    }
    if l in m && l !in Inherited {
      assert m'[l].Count? && m'[l].n > 1;
    }
  }

  /** The tally shows a repeat exactly when two positions hold the same label that is not an inherited name. */
  lemma {:induction false} CountsRepeat(ls: seq<string>)
    ensures Repeats(CountLabels(ls)) <==> !CountedOnce(ls)
  {
    if ls != [] {
      var init := ls[..|ls| - 1];
      var l := ls[|ls| - 1];
      var m := CountLabels(init);
      assert CountLabels(ls) == if l == "__proto__" then m else m[l := Bump(m, l)];
      CountsRepeat(init);
      CountedOnceSnoc(ls);
      RepeatsSnoc(m, l);
    }
  }

  datatype SanitizeError = DuplicateLabels

  /** What the sanitizer leaves: usable nodes with distinct labels (inherited names aside), and edges between them. */
  predicate Clean(g: Graph) {
    && (forall n :: n in g.nodes ==> KeepNode(n))
    && CountedOnce(Labels(g.nodes))
    && (forall e :: e in g.edges ==> KeepEdge(Ids(g.nodes), e))
  }

  /** `sanitizeGraphData`: drop the unusable nodes, stop when two of the rest share a label that is not
      an inherited name, and drop the edges that do not join two remaining nodes or have no label. */
  function Sanitize(g: Graph): (r: Result<Graph, SanitizeError>)
    ensures r.Success? <==> CountedOnce(Labels(Seqs.Filter(g.nodes, KeepNode)))
    ensures r.Success? ==> Clean(r.value)
    ensures r.Success? ==> forall n :: n in r.value.nodes <==> n in g.nodes && KeepNode(n)
    ensures r.Success? ==> forall e :: e in r.value.edges <==> e in g.edges && KeepEdge(Ids(r.value.nodes), e)
  {
    var nodes := Seqs.Filter(g.nodes, KeepNode);
    var counts := CountLabels(Labels(nodes));
    CountsRepeat(Labels(nodes));
    if exists l :: l in counts && counts[l].Count? && counts[l].n > 1 then Failure(DuplicateLabels)
    else
      var ids := Ids(nodes);
      Success(Graph(nodes, Seqs.Filter(g.edges, (e: ViewEdge) => KeepEdge(ids, e))))
  }

  /** A clean graph goes through the sanitizer unchanged. */
  lemma SanitizeClean(g: Graph)
    requires Clean(g)
    ensures Sanitize(g) == Success(g)
  {
    Seqs.FilterAll(g.nodes, KeepNode);
    var ids := Ids(g.nodes);
    Seqs.FilterAll(g.edges, (e: ViewEdge) => KeepEdge(ids, e));
  }

  lemma LabelsAppend(a: seq<ViewNode>, b: seq<ViewNode>)
    ensures Labels(a + b) == Labels(a) + Labels(b)
  {
  }

  lemma CountedOnceParts(a: seq<string>, b: seq<string>)
    requires CountedOnce(a + b)
    ensures CountedOnce(a) && CountedOnce(b)
  {
    forall i, j | 0 <= i < j < |a| && a[i] !in Inherited ensures a[i] != a[j] {
      assert a[i] == (a + b)[i] && a[j] == (a + b)[j];
    }
    forall i, j | 0 <= i < j < |b| && b[i] !in Inherited ensures b[i] != b[j] {
      assert b[i] == (a + b)[|a| + i] && b[j] == (a + b)[|a| + j];
    }
  }

  /** One node on its own: it is kept exactly when its label and type are usable. */
  lemma SanitizeNodesSingle(n: ViewNode, es: seq<ViewEdge>)
    ensures Sanitize(Graph([n], es)).Success?
    ensures Sanitize(Graph([n], es)).value.nodes == if KeepNode(n) then [n] else []
  {
    assert [n][1..] == [];
  }

  /** The sanitizer keeps nodes one by one: the kept nodes of `a + b` are those of `a` followed by
      those of `b`, each as often as it occurs, and a graph that passes has parts that pass. */
  lemma SanitizeNodesAppend(a: seq<ViewNode>, b: seq<ViewNode>, es: seq<ViewEdge>)
    requires Sanitize(Graph(a + b, es)).Success?
    ensures Sanitize(Graph(a, es)).Success? && Sanitize(Graph(b, es)).Success?
    ensures Sanitize(Graph(a + b, es)).value.nodes == Sanitize(Graph(a, es)).value.nodes + Sanitize(Graph(b, es)).value.nodes
  {
    Seqs.FilterAppend(a, b, KeepNode);
    LabelsAppend(Seqs.Filter(a, KeepNode), Seqs.Filter(b, KeepNode));
    CountedOnceParts(Labels(Seqs.Filter(a, KeepNode)), Labels(Seqs.Filter(b, KeepNode)));
  }

  /** One edge on its own: it is kept exactly when it joins two kept nodes and has a label. */
  lemma SanitizeEdgesSingle(ns: seq<ViewNode>, e: ViewEdge)
    requires Sanitize(Graph(ns, [])).Success?
    ensures Sanitize(Graph(ns, [e])).Success?
    ensures Sanitize(Graph(ns, [e])).value.edges == if KeepEdge(Ids(Sanitize(Graph(ns, [])).value.nodes), e) then [e] else []
  {
    assert [e][1..] == [];
  }

  /** The sanitizer keeps edges one by one: the kept edges of `a + b` are those of `a` followed by those
      of `b`, in order and each as often as it occurs, so the drawing's edge limit meets them in the
      order of the table. */
  lemma SanitizeEdgesAppend(ns: seq<ViewNode>, a: seq<ViewEdge>, b: seq<ViewEdge>)
    requires Sanitize(Graph(ns, [])).Success?
    ensures Sanitize(Graph(ns, a + b)).Success?
    ensures Sanitize(Graph(ns, a + b)).value.edges == Sanitize(Graph(ns, a)).value.edges + Sanitize(Graph(ns, b)).value.edges
  {
    var ids := Ids(Seqs.Filter(ns, KeepNode));
    Seqs.FilterAppend(a, b, (e: ViewEdge) => KeepEdge(ids, e));
  }

  /** Sanitizing twice is sanitizing once. */
  lemma SanitizeIdempotent(g: Graph)
    requires Sanitize(g).Success?
    ensures Sanitize(Sanitize(g).value) == Sanitize(g)
  {
    SanitizeClean(Sanitize(g).value);
  }

  /** Labels are compared as written: two kept nodes pass together exactly when their labels differ,
      even when the labels differ only in case ("Paris" and "paris"), or when they share a name
      the tally object inherits ("constructor"), whose count never becomes a number above 1. */
  lemma SanitizeCaseSensitive(a: ViewNode, b: ViewNode)
    requires KeepNode(a) && KeepNode(b)
    ensures Sanitize(Graph([a, b], [])).Success? <==> NodeLabel(a) != NodeLabel(b) || NodeLabel(a) in Inherited
  {
    Seqs.FilterAll([a, b], KeepNode);
  }

  /** A node made from a table row and kept by the sanitizer has its type split into a list. */
  lemma KeptTypesSplit(id: Id, name: Option<string>, kind: Option<string>)
    requires KeepNode(ViewNode(id, ExtractDocumentIds(name, kind)))
    ensures ExtractDocumentIds(name, kind).types.Split?
  {
  }

  // ------------------------------------------------------------ filters

  /** A check-box filter: key to checked. */
  type Checks = map<string, bool>

  /** `filter[key]` is truthy: the entry exists and is checked. */
  predicate Checked(f: Checks, k: string) {
    k in f && f[k]
  }

  /** The `forEach` over the listed keys: with `resetTo` every listed entry takes that value; without it
      an entry keeps its value and a new one starts unchecked. */
  function Reset(f: Checks, keys: seq<string>, resetTo: Option<bool>): (r: Checks)
    decreases |keys|
    ensures forall k :: k in r <==> k in f || k in keys
    ensures forall k :: k in keys ==> r[k] == (if resetTo.Some? then resetTo.value else Checked(f, k))
    ensures forall k :: k in f && k !in keys ==> r[k] == f[k]
  {
    if keys == [] then f
    else
      assert forall k :: k in keys <==> k == keys[0] || k in keys[1..];
      Reset(f[keys[0] := if resetTo.Some? then resetTo.value else Checked(f, keys[0])], keys[1..], resetTo)
  }

  /** Listing the same keys again changes nothing. */
  lemma ResetIdempotent(f: Checks, keys: seq<string>, resetTo: Option<bool>)
    ensures Reset(Reset(f, keys, resetTo), keys, resetTo) == Reset(f, keys, resetTo)
  {
  }

  /** Without `resetTo`, an entry's value is never changed, and a new one is unchecked. */
  lemma ResetKeeps(f: Checks, keys: seq<string>)
    ensures forall k :: k in f ==> Reset(f, keys, None)[k] == f[k]
    ensures forall k :: Checked(Reset(f, keys, None), k) <==> Checked(f, k)
  {
  }

  /** The search box: when it is not empty, keep the entries whose lower-cased text contains it. */
  function Narrow(input: string, xs: seq<string>): (r: seq<string>)
    ensures forall x :: x in r <==> x in xs && (input == [] || Text.Contains(Text.Lower(x), Text.Lower(input)))
  {
    var q := Text.Lower(input);
    if |q| > 0 then Seqs.Filter(xs, (x: string) => Text.Contains(Text.Lower(x), q)) else xs
  }

  /** Narrowing keeps a list free of repeats. */
  lemma NarrowUnique(input: string, xs: seq<string>)
    requires Unique(xs)
    ensures Unique(Narrow(input, xs))
  {
    var q := Text.Lower(input);
    if |q| > 0 {
      Seqs.FilterDistinct(xs, (x: string) => Text.Contains(Text.Lower(x), q), (x: string) => x);
      var r := Narrow(input, xs);
      assert Seqs.DistinctKeys(r, (x: string) => x);
    }
  }

  /** A flipped check box: `filter[key] = !filter[key]`. */
  function Flip(f: Checks, k: string): (r: Checks)
    ensures forall j :: j in r <==> j in f || j == k
    ensures Checked(r, k) == !Checked(f, k)
    ensures forall j :: j in f && j != k ==> r[j] == f[j]
  {
    f[k := !Checked(f, k)]
  }

  /** Flipping an existing check box twice restores the filter. */
  lemma FlipTwice(f: Checks, k: string)
    requires k in f
    ensures Flip(Flip(f, k), k) == f
  {
  }

  // ------------------------------------------------------------ the manager's state

  /** The manager's settings: set from the page, read by the operations. */
  datatype Settings = Settings(
    mode: int,                 // operation_mode
    direction: int,            // DirectionMode: bit 0 follows edges forward, bit 1 backward
    threshold: int,            // max_distance_threshold
    typesFilterNodes: bool,    // typeFilteringNodes_Enabled
    nodesFilterEdges: bool,    // nodeFilteringEdges_Enabled
    typeInput: string,         // input_NodeTypes
    labelInput: string,        // input_NodeLabels
    edgeInput: string)         // input_EdgeLabels

  /** The fields of `DataManager` the operations read and write. */
  datatype Viewer = Viewer(
    graph: Graph,
    nodeTypes: seq<string>,
    settings: Settings,
    typeChecks: Checks,        // nodeTypeFilter
    labelChecks: Checks,       // nodeFilter
    edgeChecks: Checks,        // edgeFilter
    edgeLabels: seq<string>,   // selectedNodesFiltered_EdgeLabels
    dist: map<Id, nat>)        // root_distance of the nodes that have one

  /** Bit 0 of `DirectionMode`. Bit tests on a JavaScript number read its low 32 bits in two's
      complement, and for the low bits that agrees with floor division on every integer. */
  predicate Forward(direction: int) {
    direction % 2 == 1
  }

  /** Bit 1 of `DirectionMode`. */
  predicate Backward(direction: int) {
    (direction / 2) % 2 == 1
  }

  /** `getSelectedNodes`: the nodes whose label is checked. */
  function SelectedNodes(v: Viewer): (r: seq<ViewNode>)
    ensures forall n :: n in r <==> n in v.graph.nodes && Checked(v.labelChecks, NodeLabel(n))
  {
    var checks := v.labelChecks;
    Seqs.Filter(v.graph.nodes, (n: ViewNode) => Checked(checks, NodeLabel(n)))
  }

  /** The arcs the distance search follows: each edge with a checked label, forward and/or backward. */
  function Arcs(edges: seq<ViewEdge>, checks: Checks, direction: int): (r: seq<(Id, Id)>)
    ensures forall a :: a in r <==>
      exists e :: e in edges && Checked(checks, EdgeLabel(e)) &&
        ((Forward(direction) && a == (e.source, e.target)) || (Backward(direction) && a == (e.target, e.source)))
  {
    if edges == [] then []
    else
      var e := edges[0];
      assert forall x :: x in edges <==> x == e || x in edges[1..];
      var own := if Checked(checks, EdgeLabel(e)) then
          (if Forward(direction) then [(e.source, e.target)] else []) +
          (if Backward(direction) then [(e.target, e.source)] else [])
        else [];
      own + Arcs(edges[1..], checks, direction)
  }

  /** `calculateRootDistances`: the selected nodes are at 0, and every node reached along checked
      edges gets its number of steps. */
  function RootDistances(v: Viewer): map<Id, nat> {
    Reach.Distances(Ids(v.graph.nodes), Arcs(v.graph.edges, v.edgeChecks, v.settings.direction), Ids(SelectedNodes(v)))
  }

  /** A selected node is at distance 0 and nothing else is; a node has a distance exactly when some walk
      along checked edges reaches it from a selected node, and that distance is the fewest steps. */
  lemma RootDistancesShortest(v: Viewer, x: Id)
    ensures var d := RootDistances(v);
      var nodes := Ids(v.graph.nodes);
      var arcs := Arcs(v.graph.edges, v.edgeChecks, v.settings.direction);
      var roots := Ids(SelectedNodes(v));
      && (x in d && d[x] == 0 <==> x in roots)
      && (x in d <==> exists w :: Reach.Walk(nodes, arcs, roots, w) && w[|w| - 1] == x)
      && (x in d ==> exists w :: Reach.Walk(nodes, arcs, roots, w) && w[|w| - 1] == x && |w| == d[x] + 1)
      && (forall w :: Reach.Walk(nodes, arcs, roots, w) && w[|w| - 1] == x ==> x in d && d[x] <= |w| - 1)
  {
    var nodes := Ids(v.graph.nodes);
    var arcs := Arcs(v.graph.edges, v.edgeChecks, v.settings.direction);
    var roots := Ids(SelectedNodes(v));
    Reach.DistancesSpec(nodes, arcs, roots);
    Reach.DistancesShortest(nodes, arcs, roots, x);
  }

  // ------------------------------------------------------------ update*Filter and toggle*

  function EdgeLabelsOf(es: seq<ViewEdge>): (ls: seq<string>)
    ensures |ls| == |es| && forall i :: 0 <= i < |es| ==> ls[i] == EdgeLabel(es[i])
  {
    seq(|es|, i requires 0 <= i < |es| => EdgeLabel(es[i]))
  }

  /** The nodes whose edges the edge filter lists: the selected ones, or all of them in mode 2 or with
      the node filter off. */
  function EdgeSources(v: Viewer): seq<ViewNode> {
    if v.settings.nodesFilterEdges && v.settings.mode != 2 then SelectedNodes(v) else v.graph.nodes
  }

  /** An edge touches one of `ns` when its source or its target is the id of one of them. */
  predicate Touches(ns: seq<ViewNode>, e: ViewEdge) {
    exists n :: n in ns && (n.id == e.source || n.id == e.target)
  }

  /** The edges touching one of `ns`. */
  function Touching(ns: seq<ViewNode>, es: seq<ViewEdge>): (r: seq<ViewEdge>)
    ensures forall e :: e in r <==> e in es && Touches(ns, e)
  {
    var ids := Ids(ns);
    Seqs.Filter(es, (e: ViewEdge) => e.source in ids || e.target in ids)
  }

  /** The labels of `es`, each once, in the order they first occur. */
  function DistinctEdgeLabels(es: seq<ViewEdge>): (ls: seq<string>)
    ensures forall l :: l in ls <==> exists e :: e in es && EdgeLabel(e) == l
    ensures Unique(ls)
  {
    var all := EdgeLabelsOf(es);
    forall l ensures l in all <==> exists e :: e in es && EdgeLabel(e) == l {
      if exists e :: e in es && EdgeLabel(e) == l {
        var e :| e in es && EdgeLabel(e) == l;
        var i :| 0 <= i < |es| && es[i] == e;
        assert all[i] == l;
      }
    }
    Seqs.Dedup(all)
  }

  /** `selectedNodesFiltered_EdgeLabels`: without repeats, the labels of the edges touching the chosen
      nodes that match the search box. */
  function EdgeLabelsListed(v: Viewer): (ls: seq<string>)
    ensures forall l :: l in ls <==>
      (exists e :: e in v.graph.edges && EdgeLabel(e) == l && Touches(EdgeSources(v), e)) &&
      (v.settings.edgeInput == [] || Text.Contains(Text.Lower(l), Text.Lower(v.settings.edgeInput)))
    ensures Unique(ls)
  {
    var all := DistinctEdgeLabels(Touching(EdgeSources(v), v.graph.edges));
    var ls := Narrow(v.settings.edgeInput, all);
    NarrowUnique(v.settings.edgeInput, all);
    ls
  }

  /** `updateEdgeLabelFilter`: list the edge labels, add them to the edge filter, and in mode 1
      recompute the distances. */
  function UpdateEdgeLabels(v: Viewer, resetTo: Option<bool>): (r: Viewer)
    ensures r.graph == v.graph && r.settings == v.settings
    ensures r.typeChecks == v.typeChecks && r.labelChecks == v.labelChecks
    ensures r.edgeLabels == EdgeLabelsListed(v)
    ensures r.edgeChecks == Reset(v.edgeChecks, r.edgeLabels, resetTo)
    ensures v.settings.mode == 1 ==> r.dist == RootDistances(r)
    ensures v.settings.mode != 1 ==> r.dist == v.dist
  {
    var labels := EdgeLabelsListed(v);
    var r := v.(edgeLabels := labels, edgeChecks := Reset(v.edgeChecks, labels, resetTo));
    if v.settings.mode == 1 then
      var r' := r.(dist := RootDistances(r));
      DistancesRead(r', r);
      r'
    else r
  }

  /** The distances read only the graph, the settings and the three filters. */
  lemma DistancesRead(a: Viewer, b: Viewer)
    requires a.graph == b.graph && a.settings == b.settings
    requires a.typeChecks == b.typeChecks && a.labelChecks == b.labelChecks && a.edgeChecks == b.edgeChecks
    ensures RootDistances(a) == RootDistances(b)
  {
    assert SelectedNodes(a) == SelectedNodes(b);
  }

  /** `updateNodeLabelFilter`: list the labels of the nodes that have a checked type (all nodes with the
      type filter off), narrowed by the search box; add them to the node filter; then update the edge
      filter. */
  function UpdateNodeLabels(v: Viewer, resetTo: Option<bool>): (r: Viewer)
    ensures r.graph == v.graph && r.settings == v.settings && r.typeChecks == v.typeChecks
    ensures r.labelChecks == Reset(v.labelChecks, NodeLabelsListed(v), resetTo)
    ensures r.edgeLabels == EdgeLabelsListed(r)
    ensures r.edgeChecks == Reset(v.edgeChecks, r.edgeLabels, None)
    ensures forall k :: k in v.edgeChecks ==> k in r.edgeChecks && r.edgeChecks[k] == v.edgeChecks[k]
    ensures v.settings.mode == 1 ==> r.dist == RootDistances(r)
    ensures v.settings.mode != 1 ==> r.dist == v.dist
  {
    var v1 := v.(labelChecks := Reset(v.labelChecks, NodeLabelsListed(v), resetTo));
    ResetKeeps(v1.edgeChecks, EdgeLabelsListed(v1));
    var r := UpdateEdgeLabels(v1, None);
    EdgeLabelsRead(r, v1);
    r
  }

  /** A node passes the type filter when one of its types is checked. */
  predicate HasCheckedType(checks: Checks, n: ViewNode) {
    exists t :: t in NodeTypes(n) && Checked(checks, t)
  }

  /** The nodes whose labels the node filter lists: those with a checked type, or all of them with the
      type filter off. */
  function TypedNodes(v: Viewer): (ns: seq<ViewNode>)
    ensures forall n :: n in ns <==> n in v.graph.nodes && (v.settings.typesFilterNodes ==> HasCheckedType(v.typeChecks, n))
  {
    var checks := v.typeChecks;
    if v.settings.typesFilterNodes then Seqs.Filter(v.graph.nodes, (n: ViewNode) => HasCheckedType(checks, n))
    else v.graph.nodes
  }

  /** The labels of `ns` as a set of members. */
  lemma LabelsMembers(ns: seq<ViewNode>)
    ensures forall l :: l in Labels(ns) <==> exists n :: n in ns && NodeLabel(n) == l
  {
    var ls := Labels(ns);
    forall l ensures l in ls <==> exists n :: n in ns && NodeLabel(n) == l {
      if exists n :: n in ns && NodeLabel(n) == l {
        var n :| n in ns && NodeLabel(n) == l;
        var i :| 0 <= i < |ns| && ns[i] == n;
        assert ls[i] == l;
      }
    }
  }

  /** `typeFiltered_NodeLabels` after the search box. */
  function NodeLabelsListed(v: Viewer): (ls: seq<string>)
    ensures forall l :: l in ls <==>
      (exists n :: n in TypedNodes(v) && NodeLabel(n) == l) &&
      (v.settings.labelInput == [] || Text.Contains(Text.Lower(l), Text.Lower(v.settings.labelInput)))
  {
    LabelsMembers(TypedNodes(v));
    Narrow(v.settings.labelInput, Labels(TypedNodes(v)))
  }

  /** The node labels listed read only the graph, the settings and the type filter. */
  lemma NodeLabelsRead(a: Viewer, b: Viewer)
    requires a.graph == b.graph && a.settings == b.settings && a.typeChecks == b.typeChecks
    ensures NodeLabelsListed(a) == NodeLabelsListed(b)
  {
    assert TypedNodes(a) == TypedNodes(b);
  }

  /** The edge labels listed read only the graph, the settings and the node filter. */
  lemma EdgeLabelsRead(a: Viewer, b: Viewer)
    requires a.graph == b.graph && a.settings == b.settings && a.labelChecks == b.labelChecks
    ensures EdgeLabelsListed(a) == EdgeLabelsListed(b)
  {
    assert EdgeSources(a) == EdgeSources(b);
  }

  /** `updateNodeTypeFilter`: with the type filter on, add the types that match the search box to it;
      then update the node filter. */
  function UpdateNodeTypes(v: Viewer, resetTo: Option<bool>): (r: Viewer)
    ensures r.graph == v.graph && r.settings == v.settings
    ensures v.settings.typesFilterNodes ==>
      r.typeChecks == Reset(v.typeChecks, Narrow(v.settings.typeInput, v.nodeTypes), resetTo)
    ensures !v.settings.typesFilterNodes ==> r.typeChecks == v.typeChecks
    ensures r.labelChecks == Reset(v.labelChecks, NodeLabelsListed(r), None)
    ensures forall k :: k in v.labelChecks ==> k in r.labelChecks && r.labelChecks[k] == v.labelChecks[k]
    ensures r.edgeLabels == EdgeLabelsListed(r)
    ensures r.edgeChecks == Reset(v.edgeChecks, r.edgeLabels, None)
    ensures forall k :: k in v.edgeChecks ==> k in r.edgeChecks && r.edgeChecks[k] == v.edgeChecks[k]
    ensures v.settings.mode == 1 ==> r.dist == RootDistances(r)
    ensures v.settings.mode != 1 ==> r.dist == v.dist
  {
    var v1 := if v.settings.typesFilterNodes
      then v.(typeChecks := Reset(v.typeChecks, Narrow(v.settings.typeInput, v.nodeTypes), resetTo))
      else v;
    ResetKeeps(v1.labelChecks, NodeLabelsListed(v1));
    var r := UpdateNodeLabels(v1, None);
    NodeLabelsRead(r, v1);
    r
  }

  /** Every entry of `keys` already has a check box, so listing them without `resetTo` changes nothing. */
  lemma ResetPresent(f: Checks, keys: seq<string>)
    requires forall k :: k in keys ==> k in f
    ensures Reset(f, keys, None) == f
  {
  }

  /** The state an update leaves: each filter has a check box for everything it lists, the listed edge
      labels are those of the current selection, and in mode 1 the distances are those of the current
      filters. */
  predicate Synced(v: Viewer) {
    && v.edgeLabels == EdgeLabelsListed(v)
    && (forall l :: l in v.edgeLabels ==> l in v.edgeChecks)
    && (forall l :: l in NodeLabelsListed(v) ==> l in v.labelChecks)
    && (v.settings.typesFilterNodes ==> forall t :: t in Narrow(v.settings.typeInput, v.nodeTypes) ==> t in v.typeChecks)
    && (v.settings.mode == 1 ==> v.dist == RootDistances(v))
  }

  /** The full cascade leaves a synced state, whatever it starts from. */
  lemma UpdateNodeTypesSynced(v: Viewer, resetTo: Option<bool>)
    ensures Synced(UpdateNodeTypes(v, resetTo))
  {
    var r := UpdateNodeTypes(v, resetTo);
    assert r.typeChecks.Keys >= (set t | t in Narrow(v.settings.typeInput, v.nodeTypes) && v.settings.typesFilterNodes);
  }

  /** In a synced state an update without `resetTo` changes nothing: the cascade settles after one
      run. */
  lemma UpdateNodeTypesSettles(v: Viewer)
    requires Synced(v)
    ensures UpdateNodeTypes(v, None) == v
  {
    if v.settings.typesFilterNodes {
      ResetPresent(v.typeChecks, Narrow(v.settings.typeInput, v.nodeTypes));
    }
    ResetPresent(v.labelChecks, NodeLabelsListed(v));
    ResetPresent(v.edgeChecks, v.edgeLabels);
  }

  /** So running the whole cascade twice is running it once. */
  lemma UpdateNodeTypesTwice(v: Viewer, resetTo: Option<bool>)
    ensures UpdateNodeTypes(UpdateNodeTypes(v, resetTo), None) == UpdateNodeTypes(v, resetTo)
  {
    UpdateNodeTypesSynced(v, resetTo);
    UpdateNodeTypesSettles(UpdateNodeTypes(v, resetTo));
  }

  /** Updating without `resetTo` leaves every existing check box of every filter as it was. */
  lemma UpdateKeepsChecks(v: Viewer)
    ensures var r := UpdateNodeTypes(v, None);
      && (forall k :: k in v.typeChecks ==> k in r.typeChecks && r.typeChecks[k] == v.typeChecks[k])
      && (forall k :: k in v.labelChecks ==> k in r.labelChecks && r.labelChecks[k] == v.labelChecks[k])
      && (forall k :: k in v.edgeChecks ==> k in r.edgeChecks && r.edgeChecks[k] == v.edgeChecks[k])
  {
    ResetKeeps(v.typeChecks, Narrow(v.settings.typeInput, v.nodeTypes));
  }

  /** `selectAllEdgeLabels(b)`: every listed edge label takes the value `b`, other entries stay. */
  lemma SelectAllEdgeLabels(v: Viewer, b: bool)
    ensures var r := UpdateEdgeLabels(v, Some(b));
      && (forall l :: l in r.edgeLabels ==> l in r.edgeChecks && r.edgeChecks[l] == b)
      && (forall l :: l in v.edgeChecks && l !in r.edgeLabels ==> r.edgeChecks[l] == v.edgeChecks[l])
  {
  }

  /** `selectAllNodeLabels(b)`: every listed node label takes the value `b`, other entries stay. */
  lemma SelectAllNodeLabels(v: Viewer, b: bool)
    ensures var r := UpdateNodeLabels(v, Some(b));
      && (forall l :: l in NodeLabelsListed(v) ==> l in r.labelChecks && r.labelChecks[l] == b)
      && (forall l :: l in v.labelChecks && l !in NodeLabelsListed(v) ==> r.labelChecks[l] == v.labelChecks[l])
  {
  }

  /** `toggleNodeType`: flip one type, then update the node filter. */
  function ToggleNodeType(v: Viewer, t: string): Viewer {
    UpdateNodeLabels(v.(typeChecks := Flip(v.typeChecks, t)), None)
  }

  /** `toggleNodeLabel`: flip one label, then update the edge filter. */
  function ToggleNodeLabel(v: Viewer, l: string): Viewer {
    UpdateEdgeLabels(v.(labelChecks := Flip(v.labelChecks, l)), None)
  }

  /** `toggleEdgeLabel`: flip one edge label. */
  function ToggleEdgeLabel(v: Viewer, l: string): Viewer {
    v.(edgeChecks := Flip(v.edgeChecks, l))
  }

  /** Toggling a type flips exactly that check box; the updates it sets off only add unchecked boxes. */
  lemma ToggleNodeTypeSpec(v: Viewer, t: string)
    ensures var r := ToggleNodeType(v, t);
      && Checked(r.typeChecks, t) == !Checked(v.typeChecks, t)
      && (forall k :: k in r.typeChecks <==> k in v.typeChecks || k == t)
      && (forall k :: k in v.typeChecks && k != t ==> r.typeChecks[k] == v.typeChecks[k])
      && (forall k :: k in v.labelChecks ==> r.labelChecks[k] == v.labelChecks[k])
      && (forall k :: Checked(r.labelChecks, k) <==> Checked(v.labelChecks, k))
      && (forall k :: k in v.edgeChecks ==> r.edgeChecks[k] == v.edgeChecks[k])
  {
    var v1 := v.(typeChecks := Flip(v.typeChecks, t));
    ResetKeeps(v1.labelChecks, NodeLabelsListed(v1));
  }

  /** Toggling a node label flips exactly that check box; the edge filter only gains unchecked boxes. */
  lemma ToggleNodeLabelSpec(v: Viewer, l: string)
    ensures var r := ToggleNodeLabel(v, l);
      && r.typeChecks == v.typeChecks
      && Checked(r.labelChecks, l) == !Checked(v.labelChecks, l)
      && (forall k :: k in r.labelChecks <==> k in v.labelChecks || k == l)
      && (forall k :: k in v.labelChecks && k != l ==> r.labelChecks[k] == v.labelChecks[k])
      && (forall k :: Checked(r.edgeChecks, k) <==> Checked(v.edgeChecks, k))
  {
    var v1 := v.(labelChecks := Flip(v.labelChecks, l));
    ResetKeeps(v1.edgeChecks, UpdateEdgeLabels(v1, None).edgeLabels);
  }

  /** Toggling an edge label flips exactly that check box and nothing else. */
  lemma ToggleEdgeLabelSpec(v: Viewer, l: string)
    ensures var r := ToggleEdgeLabel(v, l);
      && r == v.(edgeChecks := r.edgeChecks)
      && Checked(r.edgeChecks, l) == !Checked(v.edgeChecks, l)
      && (forall k :: k in r.edgeChecks <==> k in v.edgeChecks || k == l)
      && (forall k :: k in v.edgeChecks && k != l ==> r.edgeChecks[k] == v.edgeChecks[k])
  {
  }

  // ------------------------------------------------------------ getVisibleGraph: merging edges

  /** One drawn edge: the edges sharing a `${source}-${target}` key, merged. */
  datatype Merged = Merged(source: Id, target: Id, labels: seq<string>, docs: seq<string>)

  /** The template string `${source}-${target}`. Different pairs can share it when an id contains
      a `-` (see `KeysCollide`). */
  function PairKey(source: Id, target: Id): string {
    KeyOf(source) + "-" + KeyOf(target)
  }

  function EdgeKey(e: ViewEdge): string {
    PairKey(e.source, e.target)
  }

  /** The loop's state: `edgeMap` as its keys in insertion order and its entries, and
      `connectedNodeIds` in insertion order. */
  datatype Drawing = Drawing(keys: seq<string>, groups: map<string, Merged>, ids: seq<Id>)

  const Empty := Drawing([], map[], [])

  /** `Set.add` (and a `Map`'s key order): a member already there stays where it is. */
  function Insert<T(==,!new)>(xs: seq<T>, x: T): (r: seq<T>)
    ensures forall y :: y in r <==> y in xs || y == x
    ensures |xs| <= |r| <= |xs| + 1
  {
    if x in xs then xs else xs + [x]
  }

  /** The loop body for one drawn edge: append its label and documents to the group with its key, or
      open a group with its ends; and record both ends. */
  function Add(dr: Drawing, e: ViewEdge): Drawing {
    var k := EdgeKey(e);
    var m := if k in dr.groups
      then dr.groups[k].(labels := dr.groups[k].labels + [EdgeLabel(e)], docs := dr.groups[k].docs + EdgeDocs(e))
      else Merged(e.source, e.target, [EdgeLabel(e)], EdgeDocs(e));
    Drawing(Insert(dr.keys, k), dr.groups[k := m], Insert(Insert(dr.ids, e.source), e.target))
  }

  /** Every edge of `es` added in order: the loop when the size limit is not reached. */
  function Merge(es: seq<ViewEdge>): Drawing {
    if es == [] then Empty else Add(Merge(es[..|es| - 1]), es[|es| - 1])
  }

  /** `mergedEdges`: the groups in the order their keys were first seen. */
  function MergedEdges(dr: Drawing): (r: seq<Merged>)
    ensures |r| == |dr.keys|
  {
    seq(|dr.keys|, i requires 0 <= i < |dr.keys| =>
      if dr.keys[i] in dr.groups then dr.groups[dr.keys[i]] else Merged(None, None, [], []))
  }

  /** The labels of the edges of `es` with key `k`, in order. */
  function LabelsWithKey(es: seq<ViewEdge>, k: string): seq<string> {
    if es == [] then []
    else LabelsWithKey(es[..|es| - 1], k) + if EdgeKey(es[|es| - 1]) == k then [EdgeLabel(es[|es| - 1])] else []
  }

  /** The document indices of the edges of `es` with key `k`, in order. */
  function DocsWithKey(es: seq<ViewEdge>, k: string): seq<string> {
    if es == [] then []
    else DocsWithKey(es[..|es| - 1], k) + if EdgeKey(es[|es| - 1]) == k then EdgeDocs(es[|es| - 1]) else []
  }

  /** A group holds the labels and documents of the edges with its key. */
  ghost predicate Grouped(es: seq<ViewEdge>, k: string, m: Merged) {
    m.labels == LabelsWithKey(es, k) && m.docs == DocsWithKey(es, k)
  }

  /** A group is drawn between the ends of one of its edges. */
  ghost predicate Anchored(es: seq<ViewEdge>, k: string, m: Merged) {
    exists e :: e in es && EdgeKey(e) == k && e.source == m.source && e.target == m.target
  }

  /** Each element once. */
  ghost predicate Once<T>(xs: seq<T>) {
    forall i, j :: 0 <= i < j < |xs| ==> xs[i] != xs[j]
  }

  lemma WithKeyNone(es: seq<ViewEdge>, k: string)
    requires forall e :: e in es ==> EdgeKey(e) != k
    ensures LabelsWithKey(es, k) == [] && DocsWithKey(es, k) == []
  {
    if es != [] {
      assert es[|es| - 1] in es;
      assert forall e :: e in es[..|es| - 1] ==> e in es;
      WithKeyNone(es[..|es| - 1], k);
    }
  }

  /** Inserting keeps a list free of repeats. */
  lemma InsertOnce<T(!new)>(xs: seq<T>, x: T)
    requires Once(xs)
    ensures Once(Insert(xs, x))
  {
  }

  /** Adding the last edge of `es` to the drawing of the others keeps the keys those of the groups,
      each once, one per distinct edge key. */
  lemma AddKeys(es: seq<ViewEdge>, dr: Drawing)
    requires es != [] && Once(dr.keys) && |dr.keys| < |es|
    requires forall k :: k in dr.keys <==> k in dr.groups
    requires forall k :: k in dr.groups <==> exists e :: e in es[..|es| - 1] && EdgeKey(e) == k
    ensures var dr' := Add(dr, es[|es| - 1]);
      && Once(dr'.keys)
      && |dr'.keys| <= |es|
      && (forall k :: k in dr'.keys <==> k in dr'.groups)
      && (forall k :: k in dr'.groups <==> exists e :: e in es && EdgeKey(e) == k)
  {
    InsertOnce(dr.keys, EdgeKey(es[|es| - 1]));
    AddGroupKeys(es, dr.groups.Keys, Add(dr, es[|es| - 1]).groups.Keys);
  }

  /** The keys with a group after adding the last edge of `es` are those of its edges. */
  lemma AddGroupKeys(es: seq<ViewEdge>, ks: set<string>, ks': set<string>)
    requires es != [] && ks' == ks + {EdgeKey(es[|es| - 1])}
    requires forall k :: k in ks <==> exists e :: e in es[..|es| - 1] && EdgeKey(e) == k
    ensures forall k :: k in ks' <==> exists e :: e in es && EdgeKey(e) == k
  {
    var init := es[..|es| - 1];
    assert es[|es| - 1] in es;
    forall f | f in es ensures EdgeKey(f) in ks' {
      var i :| 0 <= i < |es| && es[i] == f;
      if i < |es| - 1 {
        assert init[i] == f;
      }
    }
    forall k | k in ks ensures exists f :: f in es && EdgeKey(f) == k {
      var f :| f in init && EdgeKey(f) == k;
      assert f in es;
    }
  }

  /** The keys of a merge are its groups' keys, each once, one per distinct edge key. */
  lemma {:induction false} MergeKeys(es: seq<ViewEdge>)
    ensures var dr := Merge(es);
      && Once(dr.keys)
      && |dr.keys| <= |es|
      && (forall k :: k in dr.keys <==> k in dr.groups)
      && (forall k :: k in dr.groups <==> exists e :: e in es && EdgeKey(e) == k)
  {
    if es != [] {
      MergeKeys(es[..|es| - 1]);
      AddKeys(es, Merge(es[..|es| - 1]));
    }
  }

  lemma WithKeySnoc(es: seq<ViewEdge>, e: ViewEdge, k: string)
    ensures LabelsWithKey(es + [e], k) == LabelsWithKey(es, k) + if EdgeKey(e) == k then [EdgeLabel(e)] else []
    ensures DocsWithKey(es + [e], k) == DocsWithKey(es, k) + if EdgeKey(e) == k then EdgeDocs(e) else []
  {
    assert (es + [e])[..|es|] == es;
  }

  /** One group after adding an edge: its own group gains the edge, any other is as it was. */
  lemma AddGroupedAt(es: seq<ViewEdge>, dr: Drawing, e: ViewEdge, j: string)
    requires j in Add(dr, e).groups
    requires j in dr.groups ==> Grouped(es, j, dr.groups[j])
    requires j !in dr.groups ==> forall f :: f in es ==> EdgeKey(f) != j
    ensures Grouped(es + [e], j, Add(dr, e).groups[j])
  {
    WithKeySnoc(es, e, j);
    if j !in dr.groups {
      WithKeyNone(es, j);
    }
  }

  /** Every group of a merge holds the labels and documents of the edges with its key, in order. */
  lemma {:induction false} MergeGrouped(es: seq<ViewEdge>)
    ensures forall k :: k in Merge(es).groups ==> Grouped(es, k, Merge(es).groups[k])
  {
    if es != [] {
      var init := es[..|es| - 1];
      var e := es[|es| - 1];
      assert init + [e] == es;
      MergeGrouped(init);
      MergeKeys(init);
      forall j | j in Merge(es).groups ensures Grouped(es, j, Merge(es).groups[j]) {
        AddGroupedAt(init, Merge(init), e, j);
      }
    }
  }

  /** One group after adding an edge: a new group is drawn between the ends of that edge, an old one keeps its ends. */
  lemma AddAnchoredAt(es: seq<ViewEdge>, dr: Drawing, e: ViewEdge, j: string)
    requires j in Add(dr, e).groups
    requires j in dr.groups ==> Anchored(es, j, dr.groups[j])
    ensures Anchored(es + [e], j, Add(dr, e).groups[j])
  {
    var es' := es + [e];
    if j in dr.groups {
      var x :| x in es && EdgeKey(x) == j && x.source == dr.groups[j].source && x.target == dr.groups[j].target;
      assert x in es';
    } else {
      assert e in es';
    }
  }

  /** Every group of a merge is drawn between the ends of one of its edges. */
  lemma {:induction false} MergeAnchored(es: seq<ViewEdge>)
    ensures forall k :: k in Merge(es).groups ==> Anchored(es, k, Merge(es).groups[k])
  {
    if es != [] {
      var init := es[..|es| - 1];
      var e := es[|es| - 1];
      assert init + [e] == es;
      MergeAnchored(init);
      forall j | j in Merge(es).groups ensures Anchored(es, j, Merge(es).groups[j]) {
        AddAnchoredAt(init, Merge(init), e, j);
      }
    }
  }

  /** Adding the last edge of `es` to the drawing of the others records its two ends, each once. */
  lemma AddIds(es: seq<ViewEdge>, dr: Drawing)
    requires es != [] && Once(dr.ids)
    requires forall x :: x in dr.ids <==> exists f :: f in es[..|es| - 1] && (x == f.source || x == f.target)
    ensures var ids := Add(dr, es[|es| - 1]).ids;
      && Once(ids)
      && (forall x :: x in ids <==> exists f :: f in es && (x == f.source || x == f.target))
  {
    var init := es[..|es| - 1];
    var e := es[|es| - 1];
    assert e in es;
    InsertOnce(dr.ids, e.source);
    InsertOnce(Insert(dr.ids, e.source), e.target);
    forall x | x in dr.ids ensures exists f :: f in es && (x == f.source || x == f.target) {
      var f :| f in init && (x == f.source || x == f.target);
      assert f in es;
    }
    forall x | exists f :: f in es && (x == f.source || x == f.target)
      ensures x in dr.ids || x == e.source || x == e.target
    {
      var f :| f in es && (x == f.source || x == f.target);
      var i :| 0 <= i < |es| && es[i] == f;
      if i < |es| - 1 {
        assert init[i] == f;
      }
    }
  }

  /** A merge records every end of its edges, each once. */
  lemma {:induction false} MergeIds(es: seq<ViewEdge>)
    ensures Once(Merge(es).ids)
    ensures forall x :: x in Merge(es).ids <==> exists e :: e in es && (x == e.source || x == e.target)
  {
    if es != [] {
      MergeIds(es[..|es| - 1]);
      AddIds(es, Merge(es[..|es| - 1]));
    }
  }

  /** Two different pairs of ids share a key, and are drawn as one edge, whenever a `-` can be moved
      from the end of one id to the start of the other. */
  lemma KeysCollide(x: string, y: string, z: string)
    ensures PairKey(Some(x + "-" + y), Some(z)) == PairKey(Some(x), Some(y + "-" + z))
  {
  }

  // ------------------------------------------------------------ getVisibleGraph: the size limit

  /** What the loop does with one edge: skip it (`continue`), reach the size test and leave it out,
      or reach the size test and draw it. */
  datatype Verdict = Skip | Pass | Take

  /** The loop stops before an edge once more than this many drawn edges exist. */
  const Limit := 1500

  /** The loop's final state, and whether it stopped early (`break`). */
  datatype Gathered = Gathered(drawing: Drawing, truncated: bool)

  /** The edges of `es` the loop would draw if it never stopped. */
  function Taken(es: seq<ViewEdge>, verdict: ViewEdge -> Verdict): (r: seq<ViewEdge>)
    ensures |r| <= |es|
    ensures forall e :: e in r <==> e in es && verdict(e) == Take
  {
    if es == [] then []
    else
      var init := es[..|es| - 1];
      var e := es[|es| - 1];
      assert forall f :: f in es <==> f in init || f == e;
      Taken(init, verdict) + if verdict(e) == Take then [e] else []
  }

  /** `Taken` is a filter. */
  lemma {:induction false} TakenIsFilter(es: seq<ViewEdge>, verdict: ViewEdge -> Verdict)
    ensures Taken(es, verdict) == Seqs.Filter(es, (e: ViewEdge) => verdict(e) == Take)
  {
    if es != [] {
      var init := es[..|es| - 1];
      var e := es[|es| - 1];
      assert es == init + [e];
      TakenIsFilter(init, verdict);
      TakenSnoc(init, e, verdict);
      Seqs.FilterAppend(init, [e], (e: ViewEdge) => verdict(e) == Take);
    }
  }

  /** Appending one edge appends it to `Taken` exactly when it is taken. */
  lemma TakenSnoc(init: seq<ViewEdge>, e: ViewEdge, verdict: ViewEdge -> Verdict)
    ensures Taken(init + [e], verdict) == Taken(init, verdict) + if verdict(e) == Take then [e] else []
  {
    assert (init + [e])[..|init + [e]| - 1] == init;
  }

  /** The loop of modes 1 and 2 over `es`, one edge after another: an edge that is not skipped first
      meets the size test, and stops the loop when the drawing already holds more than `Limit` edges. */
  function Gather(es: seq<ViewEdge>, verdict: ViewEdge -> Verdict): Gathered {
    if es == [] then Gathered(Empty, false)
    else
      var g := Gather(es[..|es| - 1], verdict);
      var e := es[|es| - 1];
      if g.truncated || verdict(e) == Skip then g
      else if |g.drawing.keys| > Limit then Gathered(g.drawing, true)
      else if verdict(e) == Take then Gathered(Add(g.drawing, e), false)
      else g
  }

  /** Taking one more edge adds it to the merge when the loop draws it. */
  lemma MergeTakenSnoc(es: seq<ViewEdge>, verdict: ViewEdge -> Verdict)
    requires es != []
    ensures var init := es[..|es| - 1];
      var e := es[|es| - 1];
      Merge(Taken(es, verdict)) == if verdict(e) == Take then Add(Merge(Taken(init, verdict)), e) else Merge(Taken(init, verdict))
  {
    var e := es[|es| - 1];
    var t := Taken(es[..|es| - 1], verdict);
    if verdict(e) == Take {
      var te := t + [e];
      assert Taken(es, verdict) == te;
      assert te[..|te| - 1] == t && te[|te| - 1] == e;
    } else {
      assert Taken(es, verdict) == t;
    }
  }

  /** The loop draws the edges it takes from some prefix of `es`, in order; it runs through all of them
      unless it stops, and stops only with exactly `Limit + 1` drawn edges. */
  lemma {:induction false} GatherSpec(es: seq<ViewEdge>, verdict: ViewEdge -> Verdict) returns (n: nat)
    ensures var g := Gather(es, verdict);
      && n <= |es|
      && g.drawing == Merge(Taken(es[..n], verdict))
      && (g.truncated <==> n < |es|)
      && |g.drawing.keys| <= Limit + 1
      && (g.truncated ==> |g.drawing.keys| == Limit + 1)
  {
    if es == [] {
      n := 0;
    } else {
      var init := es[..|es| - 1];
      var e := es[|es| - 1];
      var m := GatherSpec(init, verdict);
      var g := Gather(init, verdict);
      if g.truncated || (|g.drawing.keys| > Limit && verdict(e) != Skip) {
        n := m;
        GatherHolds(es, verdict, m);
      } else {
        n := |es|;
        GatherGoesOn(es, verdict, m);
      }
    }
  }

  /** The step of `GatherSpec` where the loop has stopped, or stops at the last edge. */
  lemma GatherHolds(es: seq<ViewEdge>, verdict: ViewEdge -> Verdict, m: nat)
    requires es != []
    requires var g := Gather(es[..|es| - 1], verdict);
      && m <= |es| - 1
      && g.drawing == Merge(Taken(es[..|es| - 1][..m], verdict))
      && (g.truncated <==> m < |es| - 1)
      && |g.drawing.keys| <= Limit + 1
      && (g.truncated ==> |g.drawing.keys| == Limit + 1)
    requires var g := Gather(es[..|es| - 1], verdict);
      g.truncated || (|g.drawing.keys| > Limit && verdict(es[|es| - 1]) != Skip)
    ensures var g := Gather(es, verdict);
      && g.drawing == Merge(Taken(es[..m], verdict))
      && (g.truncated <==> m < |es|)
      && |g.drawing.keys| <= Limit + 1
      && (g.truncated ==> |g.drawing.keys| == Limit + 1)
  {
    Seqs.PrefixOfInit(es, m);
  }

  /** The step of `GatherSpec` where the loop goes on past the last edge. */
  lemma GatherGoesOn(es: seq<ViewEdge>, verdict: ViewEdge -> Verdict, m: nat)
    requires es != []
    requires var g := Gather(es[..|es| - 1], verdict);
      && m <= |es| - 1
      && g.drawing == Merge(Taken(es[..|es| - 1][..m], verdict))
      && (g.truncated <==> m < |es| - 1)
      && |g.drawing.keys| <= Limit + 1
    requires var g := Gather(es[..|es| - 1], verdict);
      !g.truncated && (|g.drawing.keys| <= Limit || verdict(es[|es| - 1]) == Skip)
    ensures var g := Gather(es, verdict);
      && g.drawing == Merge(Taken(es[..|es|], verdict))
      && !g.truncated
      && |g.drawing.keys| <= Limit + 1
  {
    Seqs.WholePrefix(es[..|es| - 1]);
    Seqs.WholePrefix(es);
    MergeTakenSnoc(es, verdict);
  }

  /** The loop stops at `es[n]`, if it gets there: the edge is not skipped and more than `Limit` edges
      are drawn from the ones before it. */
  ghost predicate StopsAt(es: seq<ViewEdge>, verdict: ViewEdge -> Verdict, n: int) {
    0 <= n < |es| && verdict(es[n]) != Skip && |Merge(Taken(es[..n], verdict)).keys| > Limit
  }

  /** The loop stops early exactly when it would stop at some edge. */
  lemma {:induction false} GatherStops(es: seq<ViewEdge>, verdict: ViewEdge -> Verdict)
    ensures Gather(es, verdict).truncated <==> exists n :: StopsAt(es, verdict, n)
  {
    if es != [] {
      var init := es[..|es| - 1];
      GatherStops(init, verdict);
      if Gather(init, verdict).truncated {
        var n :| StopsAt(init, verdict, n);
        StopsAtInit(es, verdict, n);
      } else {
        GatherStopsLast(es, init, verdict);
      }
    }
  }

  /** Before the last edge, stopping at an edge of `es` is stopping at it in all but the last. */
  lemma StopsAtInit(es: seq<ViewEdge>, verdict: ViewEdge -> Verdict, n: nat)
    requires es != [] && n < |es| - 1
    ensures StopsAt(es, verdict, n) <==> StopsAt(es[..|es| - 1], verdict, n)
  {
    Seqs.PrefixOfInit(es, n);
    assert es[n] == es[..|es| - 1][n];
  }

  /** A loop that has not stopped before the last edge stops there or not at all. */
  lemma GatherStopsLast(es: seq<ViewEdge>, init: seq<ViewEdge>, verdict: ViewEdge -> Verdict)
    requires es != [] && init == es[..|es| - 1] && !Gather(init, verdict).truncated
    requires forall n :: !StopsAt(init, verdict, n)
    ensures Gather(es, verdict).truncated <==> exists n :: StopsAt(es, verdict, n)
  {
    NoEarlierStop(es, init, verdict);
    LastStop(es, init, verdict);
  }

  lemma NoEarlierStop(es: seq<ViewEdge>, init: seq<ViewEdge>, verdict: ViewEdge -> Verdict)
    requires es != [] && init == es[..|es| - 1]
    requires forall n :: !StopsAt(init, verdict, n)
    ensures forall n :: n != |init| ==> !StopsAt(es, verdict, n)
  {
    forall n | n != |init| ensures !StopsAt(es, verdict, n) {
      if 0 <= n < |init| {
        StopsAtInit(es, verdict, n);
      }
    }
  }

  /** After a loop that has not stopped, the last edge stops it exactly when the loop stops at it. */
  lemma LastStop(es: seq<ViewEdge>, init: seq<ViewEdge>, verdict: ViewEdge -> Verdict)
    requires es != [] && init == es[..|es| - 1] && !Gather(init, verdict).truncated
    ensures Gather(es, verdict).truncated <==> StopsAt(es, verdict, |init|)
  {
    var m := GatherSpec(init, verdict);
    Seqs.WholePrefix(init);
  }

  /** With at most `Limit + 1` edges the loop never stops early. */
  lemma GatherSmall(es: seq<ViewEdge>, verdict: ViewEdge -> Verdict)
    requires |es| <= Limit + 1
    ensures !Gather(es, verdict).truncated
    ensures Gather(es, verdict).drawing == Merge(Taken(es, verdict))
  {
    GatherStops(es, verdict);
    forall n | 0 <= n < |es| ensures !StopsAt(es, verdict, n) {
      MergeKeys(Taken(es[..n], verdict));
    }
    var m := GatherSpec(es, verdict);
    assert es[..|es|] == es;
  }

  /** Every drawn node is an end of a drawn edge, and every drawn edge has the ends of one of the edges
      with its key that the loop took. */
  lemma GatherDraws(es: seq<ViewEdge>, verdict: ViewEdge -> Verdict)
    ensures var dr := Gather(es, verdict).drawing;
      && (forall x :: x in dr.ids ==> exists e :: e in es && verdict(e) == Take && (x == e.source || x == e.target))
      && (forall k :: k in dr.groups ==>
            exists e :: e in es && verdict(e) == Take && EdgeKey(e) == k && e.source == dr.groups[k].source && e.target == dr.groups[k].target)
  {
    var n := GatherSpec(es, verdict);
    var t := Taken(es[..n], verdict);
    MergeIds(t);
    MergeAnchored(t);
    assert forall e :: e in t ==> e in es && verdict(e) == Take;
  }

  // ------------------------------------------------------------ getVisibleGraph: modes 1 and 2

  /** What the page draws: the ids of the visible nodes, the merged edges and a message. */
  datatype View = View(nodes: seq<Id>, edges: seq<Merged>, message: string)

  const SelectNodes := "Select a few Nodes!"
  const SelectEdges := "Select a few Edges!"
  const Incomplete := "Incomplete Graph!\nSize is limited to avoid clutter!"
  const Unconnected := "Select Nodes which have at least one connection!"
  const NoEdges := "No edges found for current filters!"
  const NeverHappens := "Something is not ok ... this should never happen!"

  /** The edges whose label is checked. */
  function CheckedEdges(v: Viewer): (r: seq<ViewEdge>)
    ensures forall e :: e in r <==> e in v.graph.edges && Checked(v.edgeChecks, EdgeLabel(e))
  {
    Seqs.Filter(v.graph.edges, (e: ViewEdge) => Checked(v.edgeChecks, EdgeLabel(e)))
  }

  /** The end of both loops: the groups in key order, the recorded ids, and the message (the size
      message when the loop stopped, `empty` when nothing is drawn). */
  function Finish(g: Gathered, empty: string): View {
    var edges := MergedEdges(g.drawing);
    View(g.drawing.ids, edges, if edges == [] then empty else if g.truncated then Incomplete else "")
  }

  /** Mode 2's loop re-tests the label of each (already checked) edge. */
  function LabelVerdict(checks: Checks): ViewEdge -> Verdict {
    (e: ViewEdge) => if Checked(checks, EdgeLabel(e)) then Take else Skip
  }

  /** `getVisibleGraph` in mode 2: every edge with a checked label. */
  function ShowByLabel(v: Viewer): View {
    var es := CheckedEdges(v);
    if es == [] then View([], [], SelectEdges)
    else Finish(Gather(es, LabelVerdict(v.edgeChecks)), NeverHappens)
  }

  /** The nodes with a distance within the threshold (`nodesWithinThreshold`). */
  predicate Within(v: Viewer, x: Id) {
    x in Ids(v.graph.nodes) && x in v.dist && v.dist[x] <= v.settings.threshold
  }

  /** Which way an edge may lead, by `DirectionMode`: both ways at once draws every edge, forward only
      an edge that leads further from the selected nodes, backward only one that leads closer. */
  predicate Include(direction: int, from: nat, to: nat) {
    if Forward(direction) && Backward(direction) then true
    else if Forward(direction) then to > from
    else if Backward(direction) then to < from
    else false
  }

  /** Mode 1's loop: an edge is skipped unless its label is checked and both its ends are nodes with a
      distance within the threshold; it is drawn when the direction allows it. */
  function DistanceVerdict(v: Viewer): ViewEdge -> Verdict {
    (e: ViewEdge) =>
      if !Checked(v.edgeChecks, EdgeLabel(e)) || !Within(v, e.source) || !Within(v, e.target) then Skip
      else if Include(v.settings.direction, v.dist[e.source], v.dist[e.target]) then Take
      else Pass
  }

  /** Some node of the graph is at distance 0 (`nodesWithRootDistance0` is not empty). */
  predicate HasRoot(v: Viewer) {
    exists x :: x in Ids(v.graph.nodes) && x in v.dist && v.dist[x] == 0
  }

  /** `getVisibleGraph` in mode 1: the edges between nodes near the selected ones. */
  function ShowByDistance(v: Viewer): View {
    var es := CheckedEdges(v);
    if !HasRoot(v) then View([], [], SelectNodes)
    else if es == [] then View([], [], SelectEdges)
    else Finish(Gather(es, DistanceVerdict(v)), if v.edgeLabels == [] then Unconnected else NoEdges)
  }

  /** Each merged edge is one of the groups. */
  lemma MergedEdgesIn(dr: Drawing)
    requires forall k :: k in dr.keys ==> k in dr.groups
    ensures forall m :: m in MergedEdges(dr) ==> exists k :: k in dr.groups && dr.groups[k] == m
  {
    var edges := MergedEdges(dr);
    forall m | m in edges ensures exists k :: k in dr.groups && dr.groups[k] == m {
      var i :| 0 <= i < |edges| && edges[i] == m;
      assert dr.keys[i] in dr.groups;
    }
  }

  /** There are at most `Limit + 1` drawn edges, exactly that many when the loop stopped. */
  lemma FinishCount(es: seq<ViewEdge>, verdict: ViewEdge -> Verdict, empty: string)
    ensures |Finish(Gather(es, verdict), empty).edges| <= Limit + 1
    ensures Gather(es, verdict).truncated ==> |Finish(Gather(es, verdict), empty).edges| == Limit + 1
  {
    var n := GatherSpec(es, verdict);
  }

  /** The loop's keys are its groups' keys. */
  lemma GatherKeys(es: seq<ViewEdge>, verdict: ViewEdge -> Verdict)
    ensures forall k :: k in Gather(es, verdict).drawing.keys ==> k in Gather(es, verdict).drawing.groups
  {
    var n := GatherSpec(es, verdict);
    MergeKeys(Taken(es[..n], verdict));
  }

  /** Every drawn node is an end of an edge the loop took. */
  lemma FinishNodes(es: seq<ViewEdge>, verdict: ViewEdge -> Verdict, empty: string)
    ensures forall x :: x in Finish(Gather(es, verdict), empty).nodes ==>
      exists e :: e in es && verdict(e) == Take && (x == e.source || x == e.target)
  {
    GatherDraws(es, verdict);
  }

  /** Every drawn edge runs between the ends of an edge the loop took. */
  lemma FinishEdges(es: seq<ViewEdge>, verdict: ViewEdge -> Verdict, empty: string)
    ensures forall m :: m in Finish(Gather(es, verdict), empty).edges ==>
      exists e :: e in es && verdict(e) == Take && e.source == m.source && e.target == m.target
  {
    var dr := Gather(es, verdict).drawing;
    GatherKeys(es, verdict);
    GatherDraws(es, verdict);
    MergedEdgesIn(dr);
    forall m | m in MergedEdges(dr) ensures exists e :: e in es && verdict(e) == Take && e.source == m.source && e.target == m.target {
      var k :| k in dr.groups && dr.groups[k] == m;
    }
  }

  /** When the loop takes some edge, something is drawn. */
  lemma FinishSome(es: seq<ViewEdge>, verdict: ViewEdge -> Verdict, empty: string, e: ViewEdge)
    requires e in es && verdict(e) == Take
    ensures Finish(Gather(es, verdict), empty).edges != []
  {
    var g := Gather(es, verdict);
    var n := GatherSpec(es, verdict);
    if !g.truncated {
      assert es[..n] == es;
      MergeKeys(Taken(es, verdict));
      assert EdgeKey(e) in g.drawing.groups;
    }
  }

  /** Mode 2 says "Select a few Edges!" exactly when no edge label is checked, never says that
      something went wrong, and draws at most `Limit + 1` edges. */
  lemma ShowByLabelMessages(v: Viewer)
    ensures var r := ShowByLabel(v);
      && (r.message == SelectEdges <==> forall e :: e in v.graph.edges ==> !Checked(v.edgeChecks, EdgeLabel(e)))
      && r.message != NeverHappens
      && |r.edges| <= Limit + 1
  {
    var es := CheckedEdges(v);
    if es != [] {
      assert es[0] in es;
      FinishSome(es, LabelVerdict(v.edgeChecks), NeverHappens, es[0]);
      FinishCount(es, LabelVerdict(v.edgeChecks), NeverHappens);
    }
  }

  /** Mode 2 draws every checked edge, grouped by key, when there are at most `Limit + 1` of them;
      whatever it draws runs between the ends of a checked edge. */
  lemma ShowByLabelDraws(v: Viewer)
    ensures var r := ShowByLabel(v);
      && (forall x :: x in r.nodes ==> exists e :: e in CheckedEdges(v) && (x == e.source || x == e.target))
      && (forall m :: m in r.edges ==> exists e :: e in CheckedEdges(v) && e.source == m.source && e.target == m.target)
      && (0 < |CheckedEdges(v)| <= Limit + 1 ==>
            r.edges == MergedEdges(Merge(CheckedEdges(v))) && r.message != Incomplete)
  {
    var es := CheckedEdges(v);
    if es != [] {
      DrawsFrom(es, LabelVerdict(v.edgeChecks), NeverHappens);
      if |es| <= Limit + 1 {
        DrawsAll(es, LabelVerdict(v.edgeChecks), NeverHappens);
      }
    }
  }

  /** Whatever the loop draws comes from the edges it was given. */
  lemma DrawsFrom(es: seq<ViewEdge>, verdict: ViewEdge -> Verdict, empty: string)
    ensures var r := Finish(Gather(es, verdict), empty);
      && (forall x :: x in r.nodes ==> exists e :: e in es && (x == e.source || x == e.target))
      && (forall m :: m in r.edges ==> exists e :: e in es && e.source == m.source && e.target == m.target)
  {
    FinishNodes(es, verdict, empty);
    FinishEdges(es, verdict, empty);
  }

  /** A short list whose every edge is taken is drawn whole, grouped by key. */
  lemma DrawsAll(es: seq<ViewEdge>, verdict: ViewEdge -> Verdict, empty: string)
    requires |es| <= Limit + 1 && empty != Incomplete
    requires forall e :: e in es ==> verdict(e) == Take
    ensures var r := Finish(Gather(es, verdict), empty);
      r.edges == MergedEdges(Merge(es)) && r.message != Incomplete
  {
    GatherSmall(es, verdict);
    TakenAll(es, verdict);
  }

  /** When every edge is taken, the loop would take them all. */
  lemma {:induction false} TakenAll(es: seq<ViewEdge>, verdict: ViewEdge -> Verdict)
    requires forall e :: e in es ==> verdict(e) == Take
    ensures Taken(es, verdict) == es
  {
    if es != [] {
      var init := es[..|es| - 1];
      var e := es[|es| - 1];
      assert es == init + [e];
      assert forall f :: f in init ==> f in es;
      TakenAll(init, verdict);
      TakenSnoc(init, e, verdict);
    }
  }

  /** Mode 1 asks for nodes exactly when no node is at distance 0, asks for edges exactly when there is
      one but no edge label is checked, and otherwise draws at most `Limit + 1` edges, explaining an
      empty drawing by whether the selected nodes have any edge label at all. */
  lemma ShowByDistanceMessages(v: Viewer)
    ensures var r := ShowByDistance(v);
      && (r.message == SelectNodes <==> !HasRoot(v))
      && (r.message == SelectEdges <==> HasRoot(v) && forall e :: e in v.graph.edges ==> !Checked(v.edgeChecks, EdgeLabel(e)))
      && |r.edges| <= Limit + 1
      && (r.message == Incomplete ==> |r.edges| == Limit + 1)
      && (r.edges == [] && HasRoot(v) && CheckedEdges(v) != [] ==>
            r.message == if v.edgeLabels == [] then Unconnected else NoEdges)
  {
    var es := CheckedEdges(v);
    if es != [] {
      assert es[0] in es;
      FinishCount(es, DistanceVerdict(v), if v.edgeLabels == [] then Unconnected else NoEdges);
    }
    assert SelectNodes[13] != SelectEdges[13];
  }

  /** Mode 1 draws only nodes within the threshold, and only edges between two of them that lead the
      way `DirectionMode` allows. */
  lemma ShowByDistanceNear(v: Viewer)
    ensures var r := ShowByDistance(v);
      && (forall x :: x in r.nodes ==> Within(v, x))
      && (forall m :: m in r.edges ==>
            Within(v, m.source) && Within(v, m.target) && Include(v.settings.direction, v.dist[m.source], v.dist[m.target]))
  {
    var es := CheckedEdges(v);
    var empty := if v.edgeLabels == [] then Unconnected else NoEdges;
    if HasRoot(v) && es != [] {
      FinishNodes(es, DistanceVerdict(v), empty);
      FinishEdges(es, DistanceVerdict(v), empty);
    }
  }

  /** Following edges forward only, every drawn edge leads one or more steps further from the selected
      nodes; backward only, closer; with neither bit set nothing is drawn. */
  lemma ShowByDistanceDirection(v: Viewer)
    ensures var r := ShowByDistance(v);
      var d := v.settings.direction;
      && (Forward(d) && !Backward(d) ==> forall m :: m in r.edges ==> m.source in v.dist && m.target in v.dist && v.dist[m.target] > v.dist[m.source])
      && (!Forward(d) && Backward(d) ==> forall m :: m in r.edges ==> m.source in v.dist && m.target in v.dist && v.dist[m.target] < v.dist[m.source])
      && (!Forward(d) && !Backward(d) ==> r.edges == [])
  {
    ShowByDistanceNear(v);
    var r := ShowByDistance(v);
    if r.edges != [] {
      assert r.edges[0] in r.edges;
    }
  }

  /** Some walk along checked edges from a selected node reaches `x` in at most `steps` steps. */
  ghost predicate ReachedWithin(v: Viewer, x: Id, steps: int) {
    var arcs := Arcs(v.graph.edges, v.edgeChecks, v.settings.direction);
    exists w :: Reach.Walk(Ids(v.graph.nodes), arcs, Ids(SelectedNodes(v)), w) && w[|w| - 1] == x && |w| - 1 <= steps
  }

  /** With the distances of `calculateRootDistances`, every node mode 1 draws is reached from a selected
      node by a walk along checked edges of at most `max_distance_threshold` steps. */
  lemma ShowByDistanceReachable(v: Viewer)
    requires v.dist == RootDistances(v)
    ensures forall x :: x in ShowByDistance(v).nodes ==> ReachedWithin(v, x, v.settings.threshold)
  {
    ShowByDistanceNear(v);
    forall x | x in ShowByDistance(v).nodes ensures ReachedWithin(v, x, v.settings.threshold) {
      RootDistancesShortest(v, x);
    }
  }

  // ------------------------------------------------------------ loadGraphData

  /** Every type of every node, in order. */
  function AllTypes(ns: seq<ViewNode>): (r: seq<string>)
    ensures forall t :: t in r <==> exists n :: n in ns && t in NodeTypes(n)
  {
    if ns == [] then []
    else
      assert forall n :: n in ns <==> n == ns[0] || n in ns[1..];
      NodeTypes(ns[0]) + AllTypes(ns[1..])
  }

  /** `loadGraphData`: clean the graph (a repeated label aborts the load), list the node types, start
      with threshold 1, both directions, both filter links on, empty search boxes and empty filters,
      then update the filters. The operation mode is kept from before. */
  function Load(g: Graph, mode: int): (r: Result<Viewer, SanitizeError>)
    ensures r.Failure? <==> Sanitize(g).Failure?
    ensures r.Success? ==> r.value.graph == Sanitize(g).value
    ensures r.Success? ==> r.value.settings == Settings(mode, 3, 1, true, true, "", "", "")
    ensures r.Success? ==> Unique(r.value.nodeTypes)
    ensures r.Success? ==> forall t :: t in r.value.nodeTypes <==> exists n :: n in r.value.graph.nodes && t in NodeTypes(n)
  {
    match Sanitize(g)
    case Failure(err) => Failure(err)
    case Success(c) =>
      var types := Seqs.Dedup(AllTypes(c.nodes));
      assert Unique(types);
      var v := Viewer(c, types, Settings(mode, 3, 1, true, true, "", "", ""),
        map[], map[], map[], [], map[]);
      Success(UpdateNodeTypes(v, None))
  }

  /** After a load every type is listed in the type filter, and no check box of any filter is ticked. */
  lemma LoadUnchecked(g: Graph, mode: int)
    requires Load(g, mode).Success?
    ensures var v := Load(g, mode).value;
      && (forall t :: t in v.typeChecks <==> t in v.nodeTypes)
      && (forall k :: !Checked(v.typeChecks, k))
      && (forall k :: !Checked(v.labelChecks, k))
      && (forall k :: !Checked(v.edgeChecks, k))
  {
    var c := Sanitize(g).value;
    var v := Viewer(c, Seqs.Dedup(AllTypes(c.nodes)), Settings(mode, 3, 1, true, true, "", "", ""),
      map[], map[], map[], [], map[]);
    var v1 := v.(typeChecks := Reset(v.typeChecks, Narrow("", v.nodeTypes), None));
    ResetKeeps(v.typeChecks, Narrow("", v.nodeTypes));
    var v2 := v1.(labelChecks := Reset(v1.labelChecks, NodeLabelsListed(v1), None));
    ResetKeeps(v1.labelChecks, NodeLabelsListed(v1));
    ResetKeeps(v2.edgeChecks, EdgeLabelsListed(v2));
    assert UpdateNodeTypes(v, None) == UpdateEdgeLabels(v2, None);
  }
}
