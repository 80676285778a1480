/**
  Merging the per-chunk graphs of one document into a single graph.

  Nodes are identified by their sanitized, lower-cased label: the first occurrence
  allocates the next dense id and fixes the displayed label, later occurrences only
  add their type. Each graph's edges are mapped through that graph's own id table
  (edges whose endpoints the graph does not define are dropped) and deduplicated by
  (source, target, lower-cased label). Entities and edges are kept in first-seen
  order; the source keeps edges in a set, whose iteration order it does not rely on.
*/
module GraphMerge {
  import opened Wrappers
  import Text
  import Sorting
  import Seqs

  /** `sanitize`: every `|` becomes `_`, then surrounding whitespace is dropped. */
  function Sanitize(s: string): (r: string)
    ensures '|' !in r
    ensures Text.IsStripped(r)
  {
    var replaced := Text.ReplaceChar(s, '|', '_');
    Text.StripChars(replaced);
    assert '|' !in replaced;
    Text.Strip(replaced)
  }

  /** Sanitizing twice is sanitizing once. */
  lemma SanitizeIdempotent(s: string)
    ensures Sanitize(Sanitize(s)) == Sanitize(s)
  {
    var t := Sanitize(s);
    assert Text.ReplaceChar(t, '|', '_') == t;
    Text.StripStripped(t);
  }

  /** A node row after id coercion: `id`, `label`, `type`. */
  datatype InNode = InNode(id: int, name: string, kind: string)

  /** An edge row after coercion: `source`, `target`, `label`. */
  datatype InEdge = InEdge(source: int, target: int, relation: string)

  datatype Graph = Graph(nodes: seq<InNode>, edges: seq<InEdge>)

  /** A merged entity; its id is its position in the entity list. */
  datatype Entity = Entity(key: string, base: string, kinds: seq<string>)

  /** A merged edge: new endpoint ids and the lower-cased label. */
  datatype OutEdge = OutEdge(source: nat, target: nat, relation: string)

  datatype MergeState = MergeState(ents: seq<Entity>, edges: seq<OutEdge>)

  /** The identity of a node across graphs. */
  function KeyOf(n: InNode): string {
    Text.Lower(Sanitize(n.name))
  }

  /** An entity's key, the one `Seqs.FindKey` searches by. */
  function EntityKey(e: Entity): string {
    e.key
  }

  /** Python's `set.add` on a set kept as a sequence in insertion order. */
  function AddOnce<T(!new, ==)>(xs: seq<T>, x: T): (r: seq<T>)
    ensures forall y :: y in r <==> y in xs || y == x
  {
    if x in xs then xs else xs + [x]
  }

  /** One node: join the entity with its key, or allocate the next id. Returns the node's new id. */
  function AddNode(ents: seq<Entity>, n: InNode): (r: (seq<Entity>, nat))
    ensures r.1 < |r.0|
    ensures r.0[r.1].key == KeyOf(n) && Sanitize(n.kind) in r.0[r.1].kinds
  {
    var key := KeyOf(n);
    var t := Sanitize(n.kind);
    var k := Seqs.FindKey(ents, EntityKey, key);
    if k < |ents| then (ents[k := ents[k].(kinds := AddOnce(ents[k].kinds, t))], k)
    else (ents + [Entity(key, Sanitize(n.name), [t])], |ents|)
  }

  /** The node loop of one graph; `m` maps the graph's own ids to new ids, the last row winning. */
  function AddNodes(ents: seq<Entity>, ns: seq<InNode>, m: map<int, nat>): (r: (seq<Entity>, map<int, nat>))
    decreases |ns|
  {
    if ns == [] then (ents, m)
    else
      var (ents', id) := AddNode(ents, ns[0]);
      AddNodes(ents', ns[1..], m[ns[0].id := id])
  }

  /** The key of an edge whose endpoints the graph's id table knows. */
  function EdgeKey(e: InEdge, m: map<int, nat>): OutEdge
    requires e.source in m && e.target in m
  {
    OutEdge(m[e.source], m[e.target], Text.Lower(Sanitize(e.relation)))
  }

  /** The edge loop of one graph. */
  function AddEdges(edges: seq<OutEdge>, es: seq<InEdge>, m: map<int, nat>): seq<OutEdge>
    decreases |es|
  {
    if es == [] then edges
    else
      var e := es[0];
      if e.source !in m || e.target !in m then AddEdges(edges, es[1..], m)
      else if EdgeKey(e, m) in edges then AddEdges(edges, es[1..], m)
      else AddEdges(edges + [EdgeKey(e, m)], es[1..], m)
  }

  function AddGraph(s: MergeState, g: Graph): MergeState {
    var (ents, m) := AddNodes(s.ents, g.nodes, map[]);
    MergeState(ents, AddEdges(s.edges, g.edges, m))
  }

  function Fold(s: MergeState, gs: seq<Graph>): MergeState
    decreases |gs|
  {
    if gs == [] then s else Fold(AddGraph(s, gs[0]), gs[1..])
  }

  /** An output node row: `id`, `label`, `type`. */
  datatype OutNode = OutNode(id: nat, name: string, kind: string)

  /** The `|`-joined, sorted, distinct non-empty types. */
  function TypeString(kinds: seq<string>): string {
    Text.Join(Sorting.SortedStrings(NonEmpty(kinds)), "|")
  }

  function NonEmpty(ks: seq<string>): (r: seq<string>)
    ensures forall x :: x in r <==> x in ks && x != []
  {
    if ks == [] then []
    else if ks[0] == [] then NonEmpty(ks[1..])
    else [ks[0]] + NonEmpty(ks[1..])
  }

  /** The type string depends only on which types occur, not on their order or repetition. */
  lemma TypeStringSame(a: seq<string>, b: seq<string>)
    requires forall t :: t in a <==> t in b
    ensures TypeString(a) == TypeString(b)
  {
    Sorting.StrLessTotal();
    Sorting.SortedUnique(Sorting.SortedStrings(NonEmpty(a)), Sorting.SortedStrings(NonEmpty(b)), Sorting.StrLess);
  }

  /** Entities and edges as output tables. */
  function Tables(s: MergeState): (r: (seq<OutNode>, seq<OutEdge>))
    ensures |r.0| == |s.ents| && r.1 == s.edges
    ensures forall i :: 0 <= i < |r.0| ==> r.0[i].id == i && r.0[i].name == s.ents[i].base
  {
    (seq(|s.ents|, i requires 0 <= i < |s.ents| =>
        OutNode(i, s.ents[i].base, TypeString(s.ents[i].kinds))),
     s.edges)
  }

  // ------------------------------------------------------------ invariant

  predicate UniqueKeys(ents: seq<Entity>) {
    forall i, j :: 0 <= i < j < |ents| ==> ents[i].key != ents[j].key
  }

  /** A merged state: unique keys that are the lower-cased labels, edges in range and distinct, lower-case labels. */
  predicate Good(s: MergeState) {
    && UniqueKeys(s.ents)
    && (forall i :: 0 <= i < |s.ents| ==> s.ents[i].key == Text.Lower(s.ents[i].base) && '|' !in s.ents[i].base)
    && (forall j :: 0 <= j < |s.edges| ==>
          s.edges[j].source < |s.ents| && s.edges[j].target < |s.ents|
          && Text.Lower(s.edges[j].relation) == s.edges[j].relation)
    && (forall i, j :: 0 <= i < j < |s.edges| ==> s.edges[i] != s.edges[j])
  }

  /** `s'` grew from `s`: entity keys kept at their ids, types and edges only added. */
  predicate Extends(s: MergeState, s': MergeState) {
    && |s.ents| <= |s'.ents|
    && (forall i :: 0 <= i < |s.ents| ==> s'.ents[i].key == s.ents[i].key && s'.ents[i].base == s.ents[i].base)
    && (forall i, t :: 0 <= i < |s.ents| && t in s.ents[i].kinds ==> t in s'.ents[i].kinds)
    && (forall e :: e in s.edges ==> e in s'.edges)
  }

  lemma LowerIdempotent(s: string)
    ensures Text.Lower(Text.Lower(s)) == Text.Lower(s)
  {
  }

  lemma AddNodeGood(ents: seq<Entity>, n: InNode)
    requires Good(MergeState(ents, []))
    ensures Good(MergeState(AddNode(ents, n).0, []))
    ensures Extends(MergeState(ents, []), MergeState(AddNode(ents, n).0, []))
  {
    var k := Seqs.FindKey(ents, EntityKey, KeyOf(n));
    if k == |ents| {
      var e := Entity(KeyOf(n), Sanitize(n.name), [Sanitize(n.kind)]);
      assert AddNode(ents, n).0 == ents + [e];
      assert forall i :: 0 <= i < |ents| ==> (ents + [e])[i] == ents[i];
    } else {
      var ents' := AddNode(ents, n).0;
      assert forall i :: 0 <= i < |ents| ==> ents'[i].key == ents[i].key && ents'[i].base == ents[i].base;
    }
  }

  /** With unique keys, the entity holding a key is the one `Seqs.FindKey` finds. */
  lemma FindKeyUnique(ents: seq<Entity>, k: nat, key: string)
    requires UniqueKeys(ents) && k < |ents| && ents[k].key == key
    ensures Seqs.FindKey(ents, EntityKey, key) == k
  {
  }

  /** Every id in the table is an entity id. */
  predicate IdsBelow(m: map<int, nat>, n: nat) {
    forall id :: id in m ==> m[id] < n
  }

  lemma {:induction false} AddNodesGood(ents: seq<Entity>, ns: seq<InNode>, m: map<int, nat>)
    requires Good(MergeState(ents, []))
    requires IdsBelow(m, |ents|)
    ensures Good(MergeState(AddNodes(ents, ns, m).0, []))
    ensures Extends(MergeState(ents, []), MergeState(AddNodes(ents, ns, m).0, []))
    ensures IdsBelow(AddNodes(ents, ns, m).1, |AddNodes(ents, ns, m).0|)
    decreases |ns|
  {
    if ns != [] {
      var (ents1, id) := AddNode(ents, ns[0]);
      AddNodeGood(ents, ns[0]);
      AddNodesGood(ents1, ns[1..], m[ns[0].id := id]);
    }
  }

  /** Edges inside `n` entities, lower-cased and distinct. */
  predicate EdgesOk(n: nat, edges: seq<OutEdge>) {
    && (forall j :: 0 <= j < |edges| ==>
          edges[j].source < n && edges[j].target < n && Text.Lower(edges[j].relation) == edges[j].relation)
    && (forall i, j :: 0 <= i < j < |edges| ==> edges[i] != edges[j])
  }

  lemma {:induction false} AddEdgesGood(n: nat, edges: seq<OutEdge>, es: seq<InEdge>, m: map<int, nat>)
    requires EdgesOk(n, edges)
    requires IdsBelow(m, n)
    ensures EdgesOk(n, AddEdges(edges, es, m))
    decreases |es|
  {
    if es != [] {
      var e := es[0];
      if e.source !in m || e.target !in m || EdgeKey(e, m) in edges {
        AddEdgesGood(n, edges, es[1..], m);
      } else {
        var k := EdgeKey(e, m);
        LowerIdempotent(Sanitize(e.relation));
        assert forall j :: 0 <= j < |edges| ==> (edges + [k])[j] == edges[j];
        AddEdgesGood(n, edges + [k], es[1..], m);
      }
    }
  }

  lemma AddGraphGood(s: MergeState, g: Graph)
    requires Good(s)
    ensures Good(AddGraph(s, g)) && Extends(s, AddGraph(s, g))
  {
    var (ents, m) := AddNodes(s.ents, g.nodes, map[]);
    AddNodesGood(s.ents, g.nodes, map[]);
    AddEdgesGood(|ents|, s.edges, g.edges, m);
    AddEdgesGrows(s.edges, g.edges, m);
  }

  lemma {:induction false} FoldGood(s: MergeState, gs: seq<Graph>)
    requires Good(s)
    ensures Good(Fold(s, gs)) && Extends(s, Fold(s, gs))
    decreases |gs|
  {
    if gs != [] {
      AddGraphGood(s, gs[0]);
      FoldGood(AddGraph(s, gs[0]), gs[1..]);
    }
  }

  // ------------------------------------------------------------- merging

  const Empty := MergeState([], [])

  /**
    `merge_graphs_unique`: dense ids 0..n-1, no two nodes with the same lower-cased
    label, edges distinct, inside the node range and lower-cased. An empty list of
    graphs gives two empty tables.
  */
  function MergeUnique(gs: seq<Graph>): (r: (seq<OutNode>, seq<OutEdge>))
    ensures gs == [] ==> r == ([], [])
    ensures forall i :: 0 <= i < |r.0| ==> r.0[i].id == i && '|' !in r.0[i].name
    ensures forall i, j :: 0 <= i < j < |r.0| ==> Text.Lower(r.0[i].name) != Text.Lower(r.0[j].name)
    ensures forall j :: 0 <= j < |r.1| ==>
      r.1[j].source < |r.0| && r.1[j].target < |r.0| && Text.Lower(r.1[j].relation) == r.1[j].relation
    ensures forall i, j :: 0 <= i < j < |r.1| ==> r.1[i] != r.1[j]
  {
    FoldGood(Empty, gs);
    Tables(Fold(Empty, gs))
  }

  // ------------------------------------------------------------ absorption

  /** The node's entity, with its type, is in `ents`. */
  predicate NodeKnown(ents: seq<Entity>, n: InNode) {
    Seqs.FindKey(ents, EntityKey, KeyOf(n)) < |ents| && Sanitize(n.kind) in ents[Seqs.FindKey(ents, EntityKey, KeyOf(n))].kinds
  }

  predicate NodesKnown(ents: seq<Entity>, ns: seq<InNode>) {
    forall i :: 0 <= i < |ns| ==> NodeKnown(ents, ns[i])
  }

  /** The id table of a graph whose nodes are all known. */
  function IdTable(ents: seq<Entity>, ns: seq<InNode>, m: map<int, nat>): map<int, nat>
    decreases |ns|
  {
    if ns == [] then m else IdTable(ents, ns[1..], m[ns[0].id := Seqs.FindKey(ents, EntityKey, KeyOf(ns[0]))])
  }

  /** Every edge of `g` that survives has its key among `edges`. */
  predicate EdgesKnown(edges: seq<OutEdge>, es: seq<InEdge>, m: map<int, nat>) {
    forall i :: 0 <= i < |es| && es[i].source in m && es[i].target in m ==> EdgeKey(es[i], m) in edges
  }

  /** The state already holds everything graph `g` would add. */
  predicate Absorbed(s: MergeState, g: Graph) {
    NodesKnown(s.ents, g.nodes) && EdgesKnown(s.edges, g.edges, IdTable(s.ents, g.nodes, map[]))
  }

  /** Known nodes change nothing and map to their entities' ids. */
  lemma {:induction false} AddNodesKnown(ents: seq<Entity>, ns: seq<InNode>, m: map<int, nat>)
    requires NodesKnown(ents, ns)
    ensures AddNodes(ents, ns, m) == (ents, IdTable(ents, ns, m))
    decreases |ns|
  {
    if ns != [] {
      var k := Seqs.FindKey(ents, EntityKey, KeyOf(ns[0]));
      assert AddOnce(ents[k].kinds, Sanitize(ns[0].kind)) == ents[k].kinds;
      assert ents[k := ents[k].(kinds := ents[k].kinds)] == ents;
      assert NodesKnown(ents, ns[1..]) by {
        forall i | 0 <= i < |ns| - 1 ensures NodeKnown(ents, ns[1..][i]) {
          assert ns[1..][i] == ns[i + 1];
        }
      }
      AddNodesKnown(ents, ns[1..], m[ns[0].id := k]);
    }
  }

  /** Known edges change nothing. */
  lemma {:induction false} AddEdgesKnown(edges: seq<OutEdge>, es: seq<InEdge>, m: map<int, nat>)
    requires EdgesKnown(edges, es, m)
    ensures AddEdges(edges, es, m) == edges
    decreases |es|
  {
    if es != [] {
      assert EdgesKnown(edges, es[1..], m) by {
        forall i | 0 <= i < |es| - 1 && es[1..][i].source in m && es[1..][i].target in m
          ensures EdgeKey(es[1..][i], m) in edges
        {
          assert es[1..][i] == es[i + 1];
        }
      }
      AddEdgesKnown(edges, es[1..], m);
    }
  }

  /** Adding an absorbed graph leaves the state as it is. */
  lemma AbsorbedFixed(s: MergeState, g: Graph)
    requires Absorbed(s, g)
    ensures AddGraph(s, g) == s
  {
    AddNodesKnown(s.ents, g.nodes, map[]);
    AddEdgesKnown(s.edges, g.edges, IdTable(s.ents, g.nodes, map[]));
  }

  /** A key found in a state is found at the same id in any extension of it. */
  lemma FindKeyExtends(s: MergeState, s': MergeState, key: string)
    requires Extends(s, s') && Seqs.FindKey(s.ents, EntityKey, key) < |s.ents|
    ensures Seqs.FindKey(s'.ents, EntityKey, key) == Seqs.FindKey(s.ents, EntityKey, key)
  {
    var k := Seqs.FindKey(s.ents, EntityKey, key);
    assert s'.ents[k].key == key;
    assert forall j :: 0 <= j < k ==> s'.ents[j].key == s.ents[j].key;
  }

  lemma NodeKnownExtends(s: MergeState, s': MergeState, n: InNode)
    requires Extends(s, s') && NodeKnown(s.ents, n)
    ensures NodeKnown(s'.ents, n) && Seqs.FindKey(s'.ents, EntityKey, KeyOf(n)) == Seqs.FindKey(s.ents, EntityKey, KeyOf(n))
  {
    FindKeyExtends(s, s', KeyOf(n));
  }

  lemma {:induction false} IdTableExtends(s: MergeState, s': MergeState, ns: seq<InNode>, m: map<int, nat>)
    requires Extends(s, s') && NodesKnown(s.ents, ns)
    ensures NodesKnown(s'.ents, ns)
    ensures IdTable(s'.ents, ns, m) == IdTable(s.ents, ns, m)
    decreases |ns|
  {
    forall i | 0 <= i < |ns| ensures NodeKnown(s'.ents, ns[i]) {
      NodeKnownExtends(s, s', ns[i]);
    }
    if ns != [] {
      NodeKnownExtends(s, s', ns[0]);
      assert NodesKnown(s.ents, ns[1..]) by {
        forall i | 0 <= i < |ns| - 1 ensures NodeKnown(s.ents, ns[1..][i]) {
          assert ns[1..][i] == ns[i + 1];
        }
      }
      IdTableExtends(s, s', ns[1..], m[ns[0].id := Seqs.FindKey(s.ents, EntityKey, KeyOf(ns[0]))]);
    }
  }

  /** Absorption survives any growth of the state. */
  lemma AbsorbedExtends(s: MergeState, s': MergeState, g: Graph)
    requires Absorbed(s, g) && Extends(s, s')
    ensures Absorbed(s', g)
  {
    IdTableExtends(s, s', g.nodes, map[]);
  }

  /** While adding nodes, the table built so far agrees with the final entities. */
  lemma {:induction false} AddNodesAbsorbs(ents: seq<Entity>, ns: seq<InNode>, m: map<int, nat>)
    requires Good(MergeState(ents, []))
    requires IdsBelow(m, |ents|)
    ensures NodesKnown(AddNodes(ents, ns, m).0, ns)
    ensures AddNodes(ents, ns, m).1 == IdTable(AddNodes(ents, ns, m).0, ns, m)
    decreases |ns|
  {
    if ns != [] {
      var (ents1, id) := AddNode(ents, ns[0]);
      var m1 := m[ns[0].id := id];
      AddNodeGood(ents, ns[0]);
      FindKeyUnique(ents1, id, KeyOf(ns[0]));
      assert NodeKnown(ents1, ns[0]);
      AddNodesAbsorbs(ents1, ns[1..], m1);
      AddNodesGood(ents1, ns[1..], m1);
      var (ents', m') := AddNodes(ents1, ns[1..], m1);
      NodeKnownExtends(MergeState(ents1, []), MergeState(ents', []), ns[0]);
      forall i | 0 <= i < |ns| ensures NodeKnown(ents', ns[i]) {
        if i > 0 {
          assert ns[i] == ns[1..][i - 1];
        }
      }
    }
  }

  /** The edge loop never removes an edge. */
  lemma {:induction false} AddEdgesGrows(edges: seq<OutEdge>, es: seq<InEdge>, m: map<int, nat>)
    ensures forall e :: e in edges ==> e in AddEdges(edges, es, m)
    decreases |es|
  {
    if es != [] {
      var e := es[0];
      if e.source !in m || e.target !in m || EdgeKey(e, m) in edges {
        AddEdgesGrows(edges, es[1..], m);
      } else {
        AddEdgesGrows(edges + [EdgeKey(e, m)], es[1..], m);
      }
    }
  }

  /** Every surviving edge of the loop's input ends up among its output. */
  lemma {:induction false} AddEdgesAbsorbs(edges: seq<OutEdge>, es: seq<InEdge>, m: map<int, nat>)
    ensures EdgesKnown(AddEdges(edges, es, m), es, m)
    decreases |es|
  {
    if es != [] {
      var e := es[0];
      var r := AddEdges(edges, es, m);
      if e.source !in m || e.target !in m || EdgeKey(e, m) in edges {
        assert r == AddEdges(edges, es[1..], m);
        AddEdgesAbsorbs(edges, es[1..], m);
        AddEdgesGrows(edges, es[1..], m);
      } else {
        var next := edges + [EdgeKey(e, m)];
        assert r == AddEdges(next, es[1..], m);
        AddEdgesAbsorbs(next, es[1..], m);
        AddEdgesGrows(next, es[1..], m);
        assert EdgeKey(e, m) in next;
      }
      forall i | 0 <= i < |es| && es[i].source in m && es[i].target in m ensures EdgeKey(es[i], m) in r {
        if i > 0 {
          assert es[i] == es[1..][i - 1];
        }
      }
    }
  }

  /** Every edge the loop adds is the key of an input edge whose endpoints the table knows. */
  lemma {:induction false} AddEdgesSound(edges: seq<OutEdge>, es: seq<InEdge>, m: map<int, nat>, x: OutEdge)
    requires x in AddEdges(edges, es, m)
    ensures x in edges || exists i :: 0 <= i < |es| && es[i].source in m && es[i].target in m && EdgeKey(es[i], m) == x
    decreases |es|
  {
    if es != [] {
      var e := es[0];
      if e.source !in m || e.target !in m || EdgeKey(e, m) in edges {
        AddEdgesSound(edges, es[1..], m, x);
      } else {
        AddEdgesSound(edges + [EdgeKey(e, m)], es[1..], m, x);
      }
      if x !in edges {
        if e.source in m && e.target in m && EdgeKey(e, m) == x {
          assert es[0] == e;
        } else {
          var i :| 0 <= i < |es| - 1 && es[1..][i].source in m && es[1..][i].target in m && EdgeKey(es[1..][i], m) == x;
          assert es[i + 1] == es[1..][i];
        }
      }
    }
  }

  /** After adding a graph, the state has absorbed it. */
  lemma AddGraphAbsorbs(s: MergeState, g: Graph)
    requires Good(s)
    ensures Absorbed(AddGraph(s, g), g)
  {
    AddNodesAbsorbs(s.ents, g.nodes, map[]);
    var (ents, m) := AddNodes(s.ents, g.nodes, map[]);
    AddEdgesAbsorbs(s.edges, g.edges, m);
  }

  lemma {:induction false} FoldAppend(s: MergeState, xs: seq<Graph>, ys: seq<Graph>)
    ensures Fold(s, xs + ys) == Fold(Fold(s, xs), ys)
    decreases |xs|
  {
    if xs == [] {
      assert xs + ys == ys;
    } else {
      assert (xs + ys)[0] == xs[0] && (xs + ys)[1..] == xs[1..] + ys;
      FoldAppend(AddGraph(s, xs[0]), xs[1..], ys);
    }
  }

  /** A good state that has folded in a list containing `g` has absorbed `g`. */
  lemma {:induction false} FoldAbsorbs(s: MergeState, xs: seq<Graph>, g: Graph)
    requires Good(s) && g in xs
    ensures Absorbed(Fold(s, xs), g)
    decreases |xs|
  {
    var s1 := AddGraph(s, xs[0]);
    AddGraphGood(s, xs[0]);
    if xs[0] == g {
      AddGraphAbsorbs(s, g);
      FoldGood(s1, xs[1..]);
      AbsorbedExtends(s1, Fold(s1, xs[1..]), g);
    } else {
      assert g in xs[1..];
      FoldAbsorbs(s1, xs[1..], g);
    }
  }

  /** Merging a graph a second time changes nothing: the result is that of merging it once. */
  lemma MergeRepeatedGraph(xs: seq<Graph>, g: Graph, ys: seq<Graph>)
    requires g in xs
    ensures MergeUnique(xs + [g] + ys) == MergeUnique(xs + ys)
  {
    FoldAppend(Empty, xs + [g], ys);
    FoldAppend(Empty, xs, [g]);
    FoldAppend(Empty, xs, ys);
    FoldAbsorbs(Empty, xs, g);
    AbsorbedFixed(Fold(Empty, xs), g);
    assert Fold(Fold(Empty, xs), [g]) == AddGraph(Fold(Empty, xs), g);
  }

  // ------------------------------------------------------------ soundness

  /** `n` is a node row of one of the graphs. */
  ghost predicate InputNode(gs: seq<Graph>, n: InNode) {
    exists g :: g in gs && n in g.nodes
  }

  /** `name` is the sanitized label of some input row. */
  ghost predicate LabelFrom(gs: seq<Graph>, name: string) {
    exists n :: InputNode(gs, n) && Sanitize(n.name) == name
  }

  /** Every entity's label is the sanitized label of some input row. */
  ghost predicate LabelsFrom(ents: seq<Entity>, gs: seq<Graph>) {
    forall i :: 0 <= i < |ents| ==> LabelFrom(gs, ents[i].base)
  }

  /** `x` is the key of an edge row of one graph, read through that graph's id table over `ents`. */
  ghost predicate EdgeFrom(ents: seq<Entity>, gs: seq<Graph>, x: OutEdge) {
    exists g, e :: g in gs && e in g.edges && Mapped(e, IdTable(ents, g.nodes, map[]))
      && EdgeKey(e, IdTable(ents, g.nodes, map[])) == x
  }

  predicate Mapped(e: InEdge, m: map<int, nat>) {
    e.source in m && e.target in m
  }

  /** What the merged state holds comes from the graphs merged so far, all of whose nodes it knows. */
  ghost predicate Sound(s: MergeState, gs: seq<Graph>) {
    && LabelsFrom(s.ents, gs)
    && (forall x :: x in s.edges ==> EdgeFrom(s.ents, gs, x))
    && (forall g :: g in gs ==> NodesKnown(s.ents, g.nodes))
  }

  /** One node row adds no label that is not its own. */
  lemma AddNodeFrom(ents: seq<Entity>, n: InNode, gs: seq<Graph>)
    requires InputNode(gs, n) && LabelsFrom(ents, gs)
    ensures LabelsFrom(AddNode(ents, n).0, gs)
  {
    var ents' := AddNode(ents, n).0;
    forall i | 0 <= i < |ents'| ensures LabelFrom(gs, ents'[i].base) {
      if i < |ents| {
        assert ents'[i].base == ents[i].base;
      } else {
        assert ents'[i].base == Sanitize(n.name);
      }
    }
  }

  lemma {:induction false} AddNodesFrom(ents: seq<Entity>, ns: seq<InNode>, m: map<int, nat>, gs: seq<Graph>)
    requires forall i :: 0 <= i < |ns| ==> InputNode(gs, ns[i])
    requires LabelsFrom(ents, gs)
    ensures LabelsFrom(AddNodes(ents, ns, m).0, gs)
    decreases |ns|
  {
    if ns != [] {
      AddNodeFrom(ents, ns[0], gs);
      var (ents1, id) := AddNode(ents, ns[0]);
      assert forall i :: 0 <= i < |ns| - 1 ==> ns[1..][i] == ns[i + 1];
      AddNodesFrom(ents1, ns[1..], m[ns[0].id := id], gs);
    }
  }

  /** Soundness carries over to more graphs and to a grown state that knows them. */
  lemma EdgeFromExtends(s: MergeState, s': MergeState, gs: seq<Graph>, gs': seq<Graph>, x: OutEdge)
    requires Extends(s, s') && EdgeFrom(s.ents, gs, x)
    requires forall g :: g in gs ==> g in gs' && NodesKnown(s.ents, g.nodes)
    ensures EdgeFrom(s'.ents, gs', x)
  {
    var g, e :| g in gs && e in g.edges && Mapped(e, IdTable(s.ents, g.nodes, map[]))
      && EdgeKey(e, IdTable(s.ents, g.nodes, map[])) == x;
    IdTableExtends(s, s', g.nodes, map[]);
    assert g in gs';
  }

  lemma LabelsFromGrows(ents: seq<Entity>, gs: seq<Graph>, g: Graph)
    requires LabelsFrom(ents, gs)
    ensures LabelsFrom(ents, gs + [g])
  {
    forall i | 0 <= i < |ents| ensures LabelFrom(gs + [g], ents[i].base) {
      assert LabelFrom(gs, ents[i].base);
      var n :| InputNode(gs, n) && Sanitize(n.name) == ents[i].base;
      var g0 :| g0 in gs && n in g0.nodes;
      assert g0 in gs + [g];
      assert InputNode(gs + [g], n);
    }
  }

  /** Merging one more graph adds only labels of its own rows. */
  lemma AddGraphLabels(s: MergeState, gs: seq<Graph>, g: Graph)
    requires LabelsFrom(s.ents, gs)
    ensures LabelsFrom(AddGraph(s, g).ents, gs + [g])
  {
    LabelsFromGrows(s.ents, gs, g);
    assert forall i :: 0 <= i < |g.nodes| ==> InputNode(gs + [g], g.nodes[i]) by {
      assert g in gs + [g];
    }
    AddNodesFrom(s.ents, g.nodes, map[], gs + [g]);
  }

  /** After merging one more graph, the nodes of every graph merged so far are known. */
  lemma AddGraphKnown(s: MergeState, gs: seq<Graph>, g: Graph)
    requires Good(s) && forall g0 :: g0 in gs ==> NodesKnown(s.ents, g0.nodes)
    ensures forall g0 :: g0 in gs + [g] ==> NodesKnown(AddGraph(s, g).ents, g0.nodes)
  {
    var s' := AddGraph(s, g);
    AddGraphGood(s, g);
    AddNodesAbsorbs(s.ents, g.nodes, map[]);
    forall g0 | g0 in gs + [g] ensures NodesKnown(s'.ents, g0.nodes) {
      if g0 in gs { IdTableExtends(s, s', g0.nodes, map[]); }
    }
  }

  /** Merging one more graph adds only keys of its own edge rows, and keeps the old ones traceable. */
  lemma AddGraphEdges(s: MergeState, gs: seq<Graph>, g: Graph)
    requires Good(s) && forall g0 :: g0 in gs ==> NodesKnown(s.ents, g0.nodes)
    requires forall x :: x in s.edges ==> EdgeFrom(s.ents, gs, x)
    ensures forall x :: x in AddGraph(s, g).edges ==> EdgeFrom(AddGraph(s, g).ents, gs + [g], x)
  {
    var gs' := gs + [g];
    var (ents, m) := AddNodes(s.ents, g.nodes, map[]);
    var s' := AddGraph(s, g);
    AddGraphGood(s, g);
    AddNodesAbsorbs(s.ents, g.nodes, map[]);
    forall x | x in s'.edges ensures EdgeFrom(s'.ents, gs', x) {
      AddEdgesSound(s.edges, g.edges, m, x);
      if x in s.edges {
        EdgeFromExtends(s, s', gs, gs', x);
      } else {
        var i :| 0 <= i < |g.edges| && g.edges[i].source in m && g.edges[i].target in m && EdgeKey(g.edges[i], m) == x;
        assert g in gs' && g.edges[i] in g.edges;
      }
    }
  }

  /** The merge loop's invariant: a good state, sound for the graphs merged so far. */
  ghost predicate SoundState(s: MergeState, done: seq<Graph>) {
    Good(s) && Sound(s, done)
  }

  lemma AddGraphSoundState(s: MergeState, done: seq<Graph>, g: Graph)
    requires SoundState(s, done)
    ensures SoundState(AddGraph(s, g), done + [g])
  {
    AddGraphLabels(s, done, g);
    AddGraphKnown(s, done, g);
    AddGraphEdges(s, done, g);
    AddGraphGood(s, g);
  }

  /** Any property that every merge step keeps holds after the whole loop, for the graphs merged. */
  lemma {:induction false} FoldKeeps(inv: (MergeState, seq<Graph>) -> bool, s: MergeState, done: seq<Graph>,
                                     gs: seq<Graph>)
    requires inv(s, done)
    requires forall s', d, g :: inv(s', d) ==> inv(AddGraph(s', g), d + [g])
    ensures inv(Fold(s, gs), done + gs)
    decreases |gs|
  {
    if gs == [] {
      assert done + gs == done;
    } else {
      FoldKeeps(inv, AddGraph(s, gs[0]), done + [gs[0]], gs[1..]);
      assert done + [gs[0]] + gs[1..] == done + gs;
    }
  }

  lemma FoldSound(gs: seq<Graph>)
    ensures SoundState(Fold(Empty, gs), gs)
  {
    var inv := (s, d) => SoundState(s, d);
    forall s, d, g | inv(s, d) ensures inv(AddGraph(s, g), d + [g]) {
      AddGraphSoundState(s, d, g);
    }
    FoldKeeps(inv, Empty, [], gs);
    assert [] + gs == gs;
  }

  /** An id in a graph's table is the start value or reads as the entity of some row with that id. */
  lemma {:induction false} IdTableFrom(ents: seq<Entity>, ns: seq<InNode>, m: map<int, nat>, id: int)
    requires id in IdTable(ents, ns, m)
    ensures (id in m && IdTable(ents, ns, m)[id] == m[id])
      || exists i :: 0 <= i < |ns| && ns[i].id == id && IdTable(ents, ns, m)[id] == Seqs.FindKey(ents, EntityKey, KeyOf(ns[i]))
    decreases |ns|
  {
    if ns != [] {
      var m1 := m[ns[0].id := Seqs.FindKey(ents, EntityKey, KeyOf(ns[0]))];
      var t := IdTable(ents, ns, m);
      assert t == IdTable(ents, ns[1..], m1);
      IdTableFrom(ents, ns[1..], m1, id);
      if id in m1 && t[id] == m1[id] {
        if id == ns[0].id {
          assert ns[0].id == id && t[id] == Seqs.FindKey(ents, EntityKey, KeyOf(ns[0]));
        }
      } else {
        var i :| 0 <= i < |ns| - 1 && ns[1..][i].id == id && t[id] == Seqs.FindKey(ents, EntityKey, KeyOf(ns[1..][i]));
        assert ns[i + 1] == ns[1..][i];
      }
    }
  }

  /** The edge `x` of the output tables joins the nodes of two rows `a` and `b` of one graph's edge row `e`. */
  ghost predicate EdgeOfRows(nodes: seq<OutNode>, gs: seq<Graph>, x: OutEdge) {
    exists g, e, a, b :: g in gs && e in g.edges && a in g.nodes && b in g.nodes
      && a.id == e.source && b.id == e.target
      && x.source < |nodes| && x.target < |nodes|
      && Text.Lower(nodes[x.source].name) == KeyOf(a) && Text.Lower(nodes[x.target].name) == KeyOf(b)
      && x.relation == Text.Lower(Sanitize(e.relation))
  }

  /** The row of graph `g` whose id `id` the graph's table maps to entity `k`. */
  lemma RowOfId(ents: seq<Entity>, g: Graph, id: int) returns (a: InNode)
    requires NodesKnown(ents, g.nodes) && id in IdTable(ents, g.nodes, map[])
    ensures a in g.nodes && a.id == id
    ensures IdTable(ents, g.nodes, map[])[id] < |ents| && ents[IdTable(ents, g.nodes, map[])[id]].key == KeyOf(a)
  {
    IdTableFrom(ents, g.nodes, map[], id);
    var i :| 0 <= i < |g.nodes| && g.nodes[i].id == id
      && IdTable(ents, g.nodes, map[])[id] == Seqs.FindKey(ents, EntityKey, KeyOf(g.nodes[i]));
    a := g.nodes[i];
    assert NodeKnown(ents, a);
  }

  lemma EdgeOfRowsIntro(nodes: seq<OutNode>, gs: seq<Graph>, x: OutEdge, g: Graph, e: InEdge, a: InNode, b: InNode)
    requires g in gs && e in g.edges && a in g.nodes && b in g.nodes
    requires a.id == e.source && b.id == e.target
    requires x.source < |nodes| && x.target < |nodes|
    requires Text.Lower(nodes[x.source].name) == KeyOf(a) && Text.Lower(nodes[x.target].name) == KeyOf(b)
    requires x.relation == Text.Lower(Sanitize(e.relation))
    ensures EdgeOfRows(nodes, gs, x)
  {
  }

  /** An edge traced to a row through the final entities joins the entities of two node rows of the same graph. */
  lemma EdgeOfRowsFrom(s: MergeState, gs: seq<Graph>, x: OutEdge)
    requires EdgeFrom(s.ents, gs, x)
    requires forall g :: g in gs ==> NodesKnown(s.ents, g.nodes)
    requires forall i :: 0 <= i < |s.ents| ==> s.ents[i].key == Text.Lower(s.ents[i].base)
    ensures EdgeOfRows(Tables(s).0, gs, x)
  {
    var nodes := Tables(s).0;
    var g, e :| g in gs && e in g.edges && Mapped(e, IdTable(s.ents, g.nodes, map[]))
      && EdgeKey(e, IdTable(s.ents, g.nodes, map[])) == x;
    var a := RowOfId(s.ents, g, e.source);
    var b := RowOfId(s.ents, g, e.target);
    assert nodes[x.source].name == s.ents[x.source].base && nodes[x.target].name == s.ents[x.target].base;
    EdgeOfRowsIntro(nodes, gs, x, g, e, a, b);
  }

  /**
    Every output label is the sanitized label of some input row, and every output
    edge joins the entities of two node rows of one graph, the endpoints of one of
    its edge rows, with that row's lower-cased sanitized label.
  */
  lemma MergeUniqueSound(gs: seq<Graph>)
    ensures var (nodes, edges) := MergeUnique(gs);
      && (forall i :: 0 <= i < |nodes| ==> LabelFrom(gs, nodes[i].name))
      && (forall x :: x in edges ==> EdgeOfRows(nodes, gs, x))
  {
    var s := Fold(Empty, gs);
    var nodes := Tables(s).0;
    FoldSound(gs);
    forall i | 0 <= i < |nodes| ensures LabelFrom(gs, nodes[i].name) {
      assert nodes[i].name == s.ents[i].base;
    }
    forall x | x in s.edges ensures EdgeOfRows(nodes, gs, x) {
      EdgeOfRowsFrom(s, gs, x);
    }
  }

  // ------------------------------------------------------------ types

  /** Some node row of the list has key `key` and sanitized type `t`. */
  predicate HasKind(ns: seq<InNode>, key: string, t: string) {
    exists j :: 0 <= j < |ns| && KeyOf(ns[j]) == key && Sanitize(ns[j].kind) == t
  }

  /** Some graph has a node row with key `key` and sanitized type `t`. */
  ghost predicate KindIn(gs: seq<Graph>, key: string, t: string) {
    exists x :: 0 <= x < |gs| && HasKind(gs[x].nodes, key, t)
  }

  lemma HasKindCons(ns: seq<InNode>, key: string, t: string)
    requires ns != []
    ensures HasKind(ns, key, t) <==> (KeyOf(ns[0]) == key && Sanitize(ns[0].kind) == t) || HasKind(ns[1..], key, t)
  {
    if HasKind(ns, key, t) {
      var j :| 0 <= j < |ns| && KeyOf(ns[j]) == key && Sanitize(ns[j].kind) == t;
      if j > 0 { assert ns[1..][j - 1] == ns[j]; }
    }
    if HasKind(ns[1..], key, t) {
      var j :| 0 <= j < |ns| - 1 && KeyOf(ns[1..][j]) == key && Sanitize(ns[1..][j].kind) == t;
      assert ns[j + 1] == ns[1..][j];
    }
  }

  lemma KindInSnoc(gs: seq<Graph>, g: Graph, key: string, t: string)
    ensures KindIn(gs + [g], key, t) <==> KindIn(gs, key, t) || HasKind(g.nodes, key, t)
  {
    var has := (h: Graph) => HasKind(h.nodes, key, t);
    assert (gs + [g])[..|gs|] == gs;
    Seqs.ExistsSnoc(gs + [g], gs, has);
  }

  /** The sanitized types of the rows of `ns` with key `key`, in row order. */
  function KindsOf(ns: seq<InNode>, key: string): (r: seq<string>)
    ensures forall t :: t in r <==> HasKind(ns, key, t)
    decreases |ns|
  {
    if ns == [] then []
    else
      assert forall t :: HasKind(ns, key, t) <==> (KeyOf(ns[0]) == key && Sanitize(ns[0].kind) == t) || HasKind(ns[1..], key, t) by {
        forall t ensures HasKind(ns, key, t) <==> (KeyOf(ns[0]) == key && Sanitize(ns[0].kind) == t) || HasKind(ns[1..], key, t) {
          HasKindCons(ns, key, t);
        }
      }
      (if KeyOf(ns[0]) == key then [Sanitize(ns[0].kind)] else []) + KindsOf(ns[1..], key)
  }

  /** The sanitized types of the rows with key `key` in all the graphs, graph by graph. */
  function RowKinds(gs: seq<Graph>, key: string): (r: seq<string>)
    ensures forall t :: t in r <==> KindIn(gs, key, t)
    decreases |gs|
  {
    if gs == [] then []
    else
      var init := gs[..|gs| - 1];
      var last := gs[|gs| - 1];
      assert forall t :: KindIn(gs, key, t) <==> KindIn(init, key, t) || HasKind(last.nodes, key, t) by {
        forall t ensures KindIn(gs, key, t) <==> KindIn(init, key, t) || HasKind(last.nodes, key, t) {
          assert init + [last] == gs;
          KindInSnoc(init, last, key, t);
        }
      }
      RowKinds(init, key) + KindsOf(last.nodes, key)
  }

  /** One node row adds its sanitized type to its entity and to no other. */
  lemma AddNodeKinds(ents: seq<Entity>, n: InNode)
    requires Good(MergeState(ents, []))
    ensures var ents' := AddNode(ents, n).0;
      forall i, t :: 0 <= i < |ents'| ==>
        (t in ents'[i].kinds <==> (i < |ents| && t in ents[i].kinds) || (ents'[i].key == KeyOf(n) && t == Sanitize(n.kind)))
  {
    var ents' := AddNode(ents, n).0;
    var key := KeyOf(n);
    var k := Seqs.FindKey(ents, EntityKey, key);
    if k < |ents| {
      assert forall i :: 0 <= i < |ents| && i != k ==> ents'[i] == ents[i] && ents[i].key != key;
    } else {
      assert forall i :: 0 <= i < |ents| ==> ents'[i] == ents[i] && ents[i].key != key;
    }
  }

  /** Node rows `ns` took `ents` to `ents'`: each entity's types are its old ones plus exactly the types of the rows with its key. */
  ghost predicate KindsStep(ents: seq<Entity>, ents': seq<Entity>, ns: seq<InNode>) {
    forall i, t :: 0 <= i < |ents'| ==>
      (t in ents'[i].kinds <==> (i < |ents| && t in ents[i].kinds) || HasKind(ns, ents'[i].key, t))
  }

  /** The first row's entity keeps its key in a later state, where a new entity has another key. */
  lemma NewEntityOtherKey(ents1: seq<Entity>, ents2: seq<Entity>, n: InNode, id: nat, i: nat)
    requires Good(MergeState(ents2, [])) && Extends(MergeState(ents1, []), MergeState(ents2, []))
    requires id < |ents1| && ents1[id].key == KeyOf(n) && |ents1| <= i < |ents2|
    ensures ents2[i].key != KeyOf(n)
  {
    assert ents2[id].key == KeyOf(n);
  }

  lemma {:induction false} AddNodesKinds(ents: seq<Entity>, ns: seq<InNode>, m: map<int, nat>)
    requires Good(MergeState(ents, [])) && IdsBelow(m, |ents|)
    ensures KindsStep(ents, AddNodes(ents, ns, m).0, ns)
    decreases |ns|
  {
    if ns != [] {
      var (ents1, id) := AddNode(ents, ns[0]);
      var m1 := m[ns[0].id := id];
      var ents2 := AddNodes(ents1, ns[1..], m1).0;
      AddNodeKinds(ents, ns[0]);
      AddNodeGood(ents, ns[0]);
      AddNodesKinds(ents1, ns[1..], m1);
      AddNodesGood(ents1, ns[1..], m1);
      forall i, t | 0 <= i < |ents2|
        ensures t in ents2[i].kinds <==> (i < |ents| && t in ents[i].kinds) || HasKind(ns, ents2[i].key, t)
      {
        HasKindCons(ns, ents2[i].key, t);
        if i >= |ents1| {
          NewEntityOtherKey(ents1, ents2, ns[0], id, i);
        }
      }
    }
  }

  /** Each entity's types are exactly the sanitized types of the rows with its key. */
  ghost predicate KindsExact(ents: seq<Entity>, gs: seq<Graph>) {
    forall i, t :: 0 <= i < |ents| ==> (t in ents[i].kinds <==> KindIn(gs, ents[i].key, t))
  }

  /** A key that rows of earlier graphs have is held by an entity before the new ones. */
  lemma OldKindOldKey(s: MergeState, done: seq<Graph>, ents': seq<Entity>, i: nat, t: string)
    requires SoundState(s, done) && Good(MergeState(ents', [])) && Extends(MergeState(s.ents, []), MergeState(ents', []))
    requires |s.ents| <= i < |ents'|
    ensures !KindIn(done, ents'[i].key, t)
  {
  }

  lemma AddGraphKinds(s: MergeState, done: seq<Graph>, g: Graph)
    requires SoundState(s, done) && KindsExact(s.ents, done)
    ensures KindsExact(AddGraph(s, g).ents, done + [g])
  {
    var ents' := AddGraph(s, g).ents;
    AddNodesKinds(s.ents, g.nodes, map[]);
    AddNodesGood(s.ents, g.nodes, map[]);
    forall i, t | 0 <= i < |ents'| ensures t in ents'[i].kinds <==> KindIn(done + [g], ents'[i].key, t) {
      KindInSnoc(done, g, ents'[i].key, t);
      if i >= |s.ents| {
        OldKindOldKey(s, done, ents', i, t);
      }
    }
  }

  lemma FoldKinds(gs: seq<Graph>)
    ensures SoundState(Fold(Empty, gs), gs) && KindsExact(Fold(Empty, gs).ents, gs)
  {
    var inv := (s, d) => SoundState(s, d) && KindsExact(s.ents, d);
    forall s, d, g | inv(s, d) ensures inv(AddGraph(s, g), d + [g]) {
      AddGraphSoundState(s, d, g);
      AddGraphKinds(s, d, g);
    }
    FoldKeeps(inv, Empty, [], gs);
    assert [] + gs == gs;
  }

  /**
    A merged node's type is the `|`-joined, sorted, distinct non-empty sanitized types
    of every row, in any graph, whose lower-cased sanitized label is the node's key.
  */
  lemma MergeUniqueKinds(gs: seq<Graph>)
    ensures var nodes := MergeUnique(gs).0;
      forall i :: 0 <= i < |nodes| ==> nodes[i].kind == TypeString(RowKinds(gs, Text.Lower(nodes[i].name)))
  {
    var s := Fold(Empty, gs);
    FoldKinds(gs);
    var nodes := Tables(s).0;
    forall i | 0 <= i < |nodes| ensures nodes[i].kind == TypeString(RowKinds(gs, Text.Lower(nodes[i].name))) {
      assert nodes[i].kind == TypeString(s.ents[i].kinds);
      assert Text.Lower(nodes[i].name) == s.ents[i].key;
      TypeStringSame(s.ents[i].kinds, RowKinds(gs, s.ents[i].key));
    }
  }

  // ------------------------------------------------------------ completeness

  /** Some output node has the lower-cased label `key`. */
  predicate HasNode(nodes: seq<OutNode>, key: string) {
    exists i :: 0 <= i < |nodes| && Text.Lower(nodes[i].name) == key
  }

  /** The last node row with id `id`: a graph's edges use the id of its entity. */
  function LastRow(ns: seq<InNode>, id: int): (r: Option<InNode>)
    ensures r.Some? ==> r.value in ns && r.value.id == id
    decreases |ns|
  {
    if ns == [] then None
    else
      match LastRow(ns[1..], id)
      case Some(n) => Some(n)
      case None => if ns[0].id == id then Some(ns[0]) else None
  }

  /** A row with the id makes it defined. */
  lemma {:induction false} LastRowDefined(ns: seq<InNode>, j: nat)
    requires j < |ns|
    ensures LastRow(ns, ns[j].id).Some?
    decreases |ns|
  {
    if j > 0 {
      assert ns[1..][j - 1] == ns[j];
      LastRowDefined(ns[1..], j - 1);
    }
  }

  /** An id no row of `ns` has keeps its start value in the table. */
  lemma {:induction false} IdTableKeeps(ents: seq<Entity>, ns: seq<InNode>, m: map<int, nat>, id: int)
    requires id in m && LastRow(ns, id).None?
    ensures id in IdTable(ents, ns, m) && IdTable(ents, ns, m)[id] == m[id]
    decreases |ns|
  {
    if ns != [] {
      IdTableKeeps(ents, ns[1..], m[ns[0].id := Seqs.FindKey(ents, EntityKey, KeyOf(ns[0]))], id);
    }
  }

  /** A graph's table maps an id to the entity of the last row with that id. */
  lemma {:induction false} IdTableLast(ents: seq<Entity>, ns: seq<InNode>, m: map<int, nat>, id: int)
    requires LastRow(ns, id).Some?
    ensures id in IdTable(ents, ns, m) && IdTable(ents, ns, m)[id] == Seqs.FindKey(ents, EntityKey, KeyOf(LastRow(ns, id).value))
    decreases |ns|
  {
    var m1 := m[ns[0].id := Seqs.FindKey(ents, EntityKey, KeyOf(ns[0]))];
    assert IdTable(ents, ns, m) == IdTable(ents, ns[1..], m1);
    if LastRow(ns[1..], id).Some? {
      IdTableLast(ents, ns[1..], m1, id);
    } else {
      IdTableKeeps(ents, ns[1..], m1, id);
    }
  }

  /**
    Edge row `e` of a graph with node rows `ns`, when both its ends are ids of rows,
    is in the output: between the nodes of the last rows with those ids, under its
    lower-cased sanitized label.
  */
  ghost predicate EdgeKept(nodes: seq<OutNode>, edges: seq<OutEdge>, ns: seq<InNode>, e: InEdge) {
    LastRow(ns, e.source).Some? && LastRow(ns, e.target).Some? ==>
      exists x :: x in edges && x.source < |nodes| && x.target < |nodes|
        && Text.Lower(nodes[x.source].name) == KeyOf(LastRow(ns, e.source).value)
        && Text.Lower(nodes[x.target].name) == KeyOf(LastRow(ns, e.target).value)
        && x.relation == Text.Lower(Sanitize(e.relation))
  }

  /** In a good state that has absorbed graph `g`, each of its edge rows is kept. */
  lemma EdgeKeptIn(s: MergeState, g: Graph, e: InEdge)
    requires Good(s) && Absorbed(s, g) && e in g.edges
    ensures EdgeKept(Tables(s).0, s.edges, g.nodes, e)
  {
    var nodes := Tables(s).0;
    var m := IdTable(s.ents, g.nodes, map[]);
    if LastRow(g.nodes, e.source).Some? && LastRow(g.nodes, e.target).Some? {
      var a := LastRow(g.nodes, e.source).value;
      var b := LastRow(g.nodes, e.target).value;
      IdTableLast(s.ents, g.nodes, map[], e.source);
      IdTableLast(s.ents, g.nodes, map[], e.target);
      var ia :| 0 <= ia < |g.nodes| && g.nodes[ia] == a;
      var ib :| 0 <= ib < |g.nodes| && g.nodes[ib] == b;
      assert NodeKnown(s.ents, g.nodes[ia]) && NodeKnown(s.ents, g.nodes[ib]);
      var j :| 0 <= j < |g.edges| && g.edges[j] == e;
      var x := EdgeKey(e, m);
      assert x in s.edges;
      assert nodes[x.source].name == s.ents[x.source].base && nodes[x.target].name == s.ents[x.target].base;
    }
  }

  /**
    Nothing is lost: every node row's lower-cased sanitized label has a merged node,
    and every edge row whose ends are ids of rows of its own graph is in the output,
    between the nodes of the last rows with those ids.
  */
  lemma MergeUniqueCover(gs: seq<Graph>)
    ensures var (nodes, edges) := MergeUnique(gs);
      && (forall x, j :: 0 <= x < |gs| && 0 <= j < |gs[x].nodes| ==> HasNode(nodes, KeyOf(gs[x].nodes[j])))
      && (forall x, j :: 0 <= x < |gs| && 0 <= j < |gs[x].edges| ==> EdgeKept(nodes, edges, gs[x].nodes, gs[x].edges[j]))
  {
    var s := Fold(Empty, gs);
    var nodes := Tables(s).0;
    FoldSound(gs);
    forall x, j | 0 <= x < |gs| && 0 <= j < |gs[x].nodes| ensures HasNode(nodes, KeyOf(gs[x].nodes[j])) {
      assert gs[x] in gs;
      assert NodeKnown(s.ents, gs[x].nodes[j]);
      var k := Seqs.FindKey(s.ents, EntityKey, KeyOf(gs[x].nodes[j]));
      assert Text.Lower(nodes[k].name) == s.ents[k].key;
    }
    forall x, j | 0 <= x < |gs| && 0 <= j < |gs[x].edges| ensures EdgeKept(nodes, s.edges, gs[x].nodes, gs[x].edges[j]) {
      assert gs[x] in gs;
      FoldAbsorbs(Empty, gs, gs[x]);
      EdgeKeptIn(s, gs[x], gs[x].edges[j]);
    }
  }

  // ------------------------------------------------------------ coercion

  /** A node row as stored; `id` is `None` when it does not read as a number. */
  datatype StoredNode = StoredNode(id: Option<int>, name: string, kind: string)

  datatype StoredEdge = StoredEdge(source: Option<int>, target: Option<int>, relation: string)

  /** The node rows `merge_graphs` keeps: a numeric, non-negative id. */
  function CoerceNodes(rows: seq<StoredNode>): (r: seq<InNode>)
    ensures forall n :: n in r <==> StoredNode(Some(n.id), n.name, n.kind) in rows && n.id >= 0
    ensures |r| <= |rows|
  {
    if rows == [] then []
    else
      var rest := CoerceNodes(rows[1..]);
      assert forall x :: x in rows <==> x == rows[0] || x in rows[1..];
      var h := rows[0];
      if h.id.Some? && h.id.value >= 0 then [InNode(h.id.value, h.name, h.kind)] + rest else rest
  }

  /** The edge rows `merge_graphs` keeps: both endpoints numeric and non-negative. */
  function CoerceEdges(rows: seq<StoredEdge>): (r: seq<InEdge>)
    ensures forall e :: e in r <==>
      StoredEdge(Some(e.source), Some(e.target), e.relation) in rows && e.source >= 0 && e.target >= 0
    ensures |r| <= |rows|
  {
    if rows == [] then []
    else
      var rest := CoerceEdges(rows[1..]);
      assert forall x :: x in rows <==> x == rows[0] || x in rows[1..];
      var h := rows[0];
      if h.source.Some? && h.target.Some? && h.source.value >= 0 && h.target.value >= 0 then
        [InEdge(h.source.value, h.target.value, h.relation)] + rest
      else rest
  }

  /** One stored node row: kept with its fields when its id is numeric and not negative, dropped otherwise. */
  lemma CoerceNodesSingle(x: StoredNode)
    ensures CoerceNodes([x]) == if x.id.Some? && x.id.value >= 0 then [InNode(x.id.value, x.name, x.kind)] else []
  {
    assert [x][1..] == [];
  }

  /** Node coercion works row by row: it keeps the order and multiplicity of the kept rows. */
  lemma {:induction false} CoerceNodesAppend(a: seq<StoredNode>, b: seq<StoredNode>)
    ensures CoerceNodes(a + b) == CoerceNodes(a) + CoerceNodes(b)
  {
    if a == [] {
      assert a + b == b;
    } else {
      assert (a + b)[0] == a[0] && (a + b)[1..] == a[1..] + b;
      CoerceNodesAppend(a[1..], b);
    }
  }

  /** One stored edge row: kept when both endpoints are numeric and not negative, dropped otherwise. */
  lemma CoerceEdgesSingle(x: StoredEdge)
    ensures CoerceEdges([x]) ==
      if x.source.Some? && x.target.Some? && x.source.value >= 0 && x.target.value >= 0
      then [InEdge(x.source.value, x.target.value, x.relation)] else []
  {
    assert [x][1..] == [];
  }

  /** Edge coercion works row by row: it keeps the order and multiplicity of the kept rows. */
  lemma {:induction false} CoerceEdgesAppend(a: seq<StoredEdge>, b: seq<StoredEdge>)
    ensures CoerceEdges(a + b) == CoerceEdges(a) + CoerceEdges(b)
  {
    if a == [] {
      assert a + b == b;
    } else {
      assert (a + b)[0] == a[0] && (a + b)[1..] == a[1..] + b;
      CoerceEdgesAppend(a[1..], b);
    }
  }
}
