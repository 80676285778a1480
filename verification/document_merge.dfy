/**
  Merging the per-document graphs of a whole library into one graph whose labels
  record which documents each node and edge came from.

  Documents are numbered by their position. Within a document, every node row
  first enters the document's id table (its sanitized label, the last row with an
  id winning), then joins the library entity with its lower-cased label or
  allocates the next dense id; a node whose label sanitizes to nothing is skipped.
  Edges are looked up through the document's id table; an edge whose endpoint is a
  skipped node has no entity, which is the source's `KeyError`. Library edges are
  identified by (source, target, lower-cased label). The output label of a node or
  edge is its first-seen label followed by `|` and the ascending indices of its
  documents, themselves `|`-separated; node types are stored as given (not
  sanitized) and output sorted, distinct and non-empty.
*/
module DocumentMerge {
  import opened Wrappers
  import Text
  import Seqs
  import Sorting
  import GraphMerge

  type InNode = GraphMerge.InNode
  type InEdge = GraphMerge.InEdge
  type Graph = GraphMerge.Graph

  /** A library entity: identity key, first-seen label, types, documents. Its id is its position. */
  datatype DocEntity = DocEntity(key: string, base: string, kinds: seq<string>, docs: seq<nat>)

  /** A library edge: entity ids, lower-cased label (part of its identity), first-seen label, documents. */
  datatype DocEdge = DocEdge(source: nat, target: nat, key: string, base: string, docs: seq<nat>)

  datatype Library = Library(ents: seq<DocEntity>, edges: seq<DocEdge>)

  /** The source's `KeyError`: an edge endpoint whose label sanitized to nothing has no entity. */
  datatype MergeError = MissingEntity

  /** An entity's key, the one `Seqs.FindKey` searches by. */
  function DocKey(e: DocEntity): string {
    e.key
  }

  predicate Has(ents: seq<DocEntity>, key: string) {
    Seqs.FindKey(ents, DocKey, key) < |ents|
  }

  /** The position of the edge with the given identity, or `|edges|`. */
  function FindEdge(edges: seq<DocEdge>, s: nat, t: nat, key: string): (k: nat)
    ensures k <= |edges|
    ensures k < |edges| ==> edges[k].source == s && edges[k].target == t && edges[k].key == key
    ensures forall j :: 0 <= j < k ==> !(edges[j].source == s && edges[j].target == t && edges[j].key == key)
  {
    if edges == [] then 0
    else if edges[0].source == s && edges[0].target == t && edges[0].key == key then 0
    else 1 + FindEdge(edges[1..], s, t, key)
  }

  /** A node row that contributes to the library under `key`. */
  predicate Named(n: InNode, key: string) {
    GraphMerge.Sanitize(n.name) != [] && GraphMerge.KeyOf(n) == key
  }

  /** Some node row of a document contributes under `key`. */
  predicate Mentions(ns: seq<InNode>, key: string) {
    exists j :: 0 <= j < |ns| && Named(ns[j], key)
  }

  /** `node_id_to_label`: each id to the sanitized label of the last row with that id. */
  function LabelTable(ns: seq<InNode>): (t: map<int, string>)
    ensures forall id :: id in t <==> exists j :: 0 <= j < |ns| && ns[j].id == id
    ensures forall id :: id in t ==> exists j :: 0 <= j < |ns| && ns[j].id == id && t[id] == GraphMerge.Sanitize(ns[j].name)
    decreases |ns|
  {
    if ns == [] then map[]
    else
      var prefix := ns[..|ns| - 1];
      var last := ns[|ns| - 1];
      var t := LabelTable(prefix);
      var t' := t[last.id := GraphMerge.Sanitize(last.name)];
      forall id | id in t'
        ensures exists j :: 0 <= j < |ns| && ns[j].id == id && t'[id] == GraphMerge.Sanitize(ns[j].name)
      {
        if id != last.id {
          var j :| 0 <= j < |prefix| && prefix[j].id == id && t[id] == GraphMerge.Sanitize(prefix[j].name);
          assert ns[j] == prefix[j];
        } else {
          assert ns[|ns| - 1] == last;
        }
      }
      forall id | exists j :: 0 <= j < |ns| && ns[j].id == id
        ensures id in t'
      {
        var j :| 0 <= j < |ns| && ns[j].id == id;
        if j < |prefix| {
          assert prefix[j] == ns[j];
        }
      }
      t'
  }

  /** One node row of document `d`. */
  function AddDocNode(ents: seq<DocEntity>, n: InNode, d: nat): seq<DocEntity> {
    var name := GraphMerge.Sanitize(n.name);
    if name == [] then ents
    else
      var key := Text.Lower(name);
      var k := Seqs.FindKey(ents, DocKey, key);
      if k < |ents| then
        ents[k := ents[k].(kinds := GraphMerge.AddOnce(ents[k].kinds, n.kind), docs := GraphMerge.AddOnce(ents[k].docs, d))]
      else ents + [DocEntity(key, name, [n.kind], [d])]
  }

  /** The node loop of document `d`. */
  function AddDocNodes(ents: seq<DocEntity>, ns: seq<InNode>, d: nat): seq<DocEntity>
    decreases |ns|
  {
    if ns == [] then ents else AddDocNodes(AddDocNode(ents, ns[0], d), ns[1..], d)
  }

  /** An edge row whose endpoints the table knows but one of which has an empty label. */
  predicate Broken(e: InEdge, table: map<int, string>) {
    e.source in table && e.target in table && (table[e.source] == [] || table[e.target] == [])
  }

  /** The edge loop of document `d`, looking endpoints up through the document's id table. */
  function AddDocEdges(ents: seq<DocEntity>, edges: seq<DocEdge>, es: seq<InEdge>, table: map<int, string>, d: nat)
    : Result<seq<DocEdge>, MergeError>
    decreases |es|
  {
    if es == [] then Success(edges)
    else
      var e := es[0];
      if e.source !in table || e.target !in table then AddDocEdges(ents, edges, es[1..], table, d)
      else
        var s := Seqs.FindKey(ents, DocKey, Text.Lower(table[e.source]));
        var t := Seqs.FindKey(ents, DocKey, Text.Lower(table[e.target]));
        if s == |ents| || t == |ents| then Failure(MissingEntity)
        else
          var base := GraphMerge.Sanitize(e.relation);
          var key := Text.Lower(base);
          var k := FindEdge(edges, s, t, key);
          var edges' :=
            if k < |edges| then edges[k := edges[k].(docs := GraphMerge.AddOnce(edges[k].docs, d))]
            else edges + [DocEdge(s, t, key, base, [d])];
          AddDocEdges(ents, edges', es[1..], table, d)
  }

  /** Document `d`: its nodes, then its edges. */
  function AddDoc(lib: Library, g: Graph, d: nat): Result<Library, MergeError> {
    var ents := AddDocNodes(lib.ents, g.nodes, d);
    var edges :- AddDocEdges(ents, lib.edges, g.edges, LabelTable(g.nodes), d);
    Success(Library(ents, edges))
  }

  /** The library built from documents `0 .. |gs| - 1`, in order. */
  function MergeDocs(gs: seq<Graph>): Result<Library, MergeError>
    decreases |gs|
  {
    if gs == [] then Success(Library([], []))
    else
      var lib :- MergeDocs(gs[..|gs| - 1]);
      AddDoc(lib, gs[|gs| - 1], |gs| - 1)
  }

  // ------------------------------------------------------------ invariants

  /** The keys a document's node rows contribute. */
  function Keys(ns: seq<InNode>): set<string>
    decreases |ns|
  {
    if ns == [] then {}
    else
      var name := GraphMerge.Sanitize(ns[0].name);
      (if name == [] then {} else {Text.Lower(name)}) + Keys(ns[1..])
  }

  lemma {:induction false} KeysMentions(ns: seq<InNode>, key: string)
    ensures key in Keys(ns) <==> Mentions(ns, key)
    decreases |ns|
  {
    if ns != [] {
      KeysMentions(ns[1..], key);
      if Mentions(ns[1..], key) {
        var j :| 0 <= j < |ns| - 1 && Named(ns[1..][j], key);
        assert ns[j + 1] == ns[1..][j];
      }
      if Mentions(ns, key) {
        var j :| 0 <= j < |ns| && Named(ns[j], key);
        if j > 0 {
          assert ns[1..][j - 1] == ns[j];
        }
      }
      if key in Keys(ns) && key !in Keys(ns[1..]) {
        assert Named(ns[0], key);
      }
    }
  }

  /** Entities: unique keys, each the lower-cased form of a non-empty label without `|`. */
  predicate EntsOk(ents: seq<DocEntity>) {
    && (forall i, j :: 0 <= i < j < |ents| ==> ents[i].key != ents[j].key)
    && (forall i :: 0 <= i < |ents| ==>
          ents[i].base != [] && '|' !in ents[i].base && ents[i].key == Text.Lower(ents[i].base)
          && ents[i].docs != [])
  }

  /** `b` keeps every entity of `a` at its id with its key and label. */
  predicate Kept(a: seq<DocEntity>, b: seq<DocEntity>) {
    |a| <= |b| && forall i :: 0 <= i < |a| ==> b[i].key == a[i].key && b[i].base == a[i].base
  }

  /**
    Some node rows of document `d`, contributing the keys `ks`, took `ents` to
    `ents'`: entities keep their ids and labels, every key has an entity, and
    exactly the entities with those keys gain `d`.
  */
  ghost predicate NodesStep(ents: seq<DocEntity>, ents': seq<DocEntity>, ks: set<string>, d: nat) {
    && EntsOk(ents')
    && Kept(ents, ents')
    && (forall key :: key in ks ==> Has(ents', key))
    && (forall i, x :: 0 <= i < |ents'| ==>
          (x in ents'[i].docs <==> (i < |ents| && x in ents[i].docs) || (x == d && ents'[i].key in ks)))
  }

  /** A key a list keeps at its position is still found there or earlier. */
  lemma HasKept(a: seq<DocEntity>, b: seq<DocEntity>, key: string)
    requires Kept(a, b) && Has(a, key)
    ensures Has(b, key)
  {
    var k := Seqs.FindKey(a, DocKey, key);
    assert b[k].key == key;
  }

  lemma NewEntityStep(ents: seq<DocEntity>, name: string, kind: string, d: nat)
    requires EntsOk(ents)
    requires name != [] && '|' !in name && !Has(ents, Text.Lower(name))
    ensures NodesStep(ents, ents + [DocEntity(Text.Lower(name), name, [kind], [d])], {Text.Lower(name)}, d)
  {
    var key := Text.Lower(name);
    var e := DocEntity(key, name, [kind], [d]);
    var ents' := ents + [e];
    AppendEntityOk(ents, e);
    assert forall i :: 0 <= i < |ents| ==> ents'[i] == ents[i] && ents[i].key != key;
    assert ents'[|ents|].key == key;
    assert Seqs.FindKey(ents', DocKey, key) <= |ents|;
  }

  /** Appending a valid entity under a new key keeps the list well formed. */
  lemma AppendEntityOk(ents: seq<DocEntity>, e: DocEntity)
    requires EntsOk(ents) && !Has(ents, e.key)
    requires e.base != [] && '|' !in e.base && e.key == Text.Lower(e.base) && e.docs != []
    ensures EntsOk(ents + [e]) && Kept(ents, ents + [e])
  {
    var ents' := ents + [e];
    assert forall i :: 0 <= i < |ents| ==> ents'[i] == ents[i] && ents[i].key != e.key;
    forall i, j | 0 <= i < j < |ents'| ensures ents'[i].key != ents'[j].key {
      if j < |ents| {
        assert ents'[i].key == ents[i].key && ents'[j].key == ents[j].key;
      }
    }
  }

  lemma OldEntityStep(ents: seq<DocEntity>, key: string, kind: string, d: nat)
    requires EntsOk(ents) && Has(ents, key)
    ensures
      var k := Seqs.FindKey(ents, DocKey, key);
      NodesStep(ents, ents[k := ents[k].(kinds := GraphMerge.AddOnce(ents[k].kinds, kind), docs := GraphMerge.AddOnce(ents[k].docs, d))], {key}, d)
  {
    var k := Seqs.FindKey(ents, DocKey, key);
    UpdateEntityStep(ents, k, ents[k].(kinds := GraphMerge.AddOnce(ents[k].kinds, kind), docs := GraphMerge.AddOnce(ents[k].docs, d)), d);
  }

  /** Replacing the entity at `k` by one with the same key and label that gains exactly `d`. */
  lemma UpdateEntityStep(ents: seq<DocEntity>, k: nat, e: DocEntity, d: nat)
    requires EntsOk(ents) && k < |ents|
    requires e.key == ents[k].key && e.base == ents[k].base
    requires forall x :: x in e.docs <==> x in ents[k].docs || x == d
    ensures NodesStep(ents, ents[k := e], {e.key}, d)
  {
    assert d in e.docs;
    var ents' := ents[k := e];
    UpdateEntityOk(ents, k, e);
    assert forall i :: 0 <= i < |ents| && i != k ==> ents'[i] == ents[i] && ents[i].key != e.key;
    assert Seqs.FindKey(ents', DocKey, e.key) <= k;
  }

  /** Replacing an entity by one with the same key and label and some document keeps the list well formed. */
  lemma UpdateEntityOk(ents: seq<DocEntity>, k: nat, e: DocEntity)
    requires EntsOk(ents) && k < |ents|
    requires e.key == ents[k].key && e.base == ents[k].base && e.docs != []
    ensures EntsOk(ents[k := e]) && Kept(ents, ents[k := e])
  {
    var ents' := ents[k := e];
    assert forall i :: 0 <= i < |ents| ==> ents'[i].key == ents[i].key && ents'[i].base == ents[i].base;
  }

  lemma AddDocNodeStep(ents: seq<DocEntity>, n: InNode, d: nat)
    requires EntsOk(ents)
    ensures NodesStep(ents, AddDocNode(ents, n, d), Keys([n]), d)
  {
    var name := GraphMerge.Sanitize(n.name);
    assert [n][1..] == [];
    if name == [] {
      assert Keys([n]) == {};
      assert forall i :: 0 <= i < |ents| ==> AddDocNode(ents, n, d)[i] == ents[i];
    } else {
      assert Keys([n]) == {Text.Lower(name)};
      if Has(ents, Text.Lower(name)) {
        OldEntityStep(ents, Text.Lower(name), n.kind, d);
      } else {
        NewEntityStep(ents, name, n.kind, d);
      }
    }
  }

  lemma NodesStepCompose(a: seq<DocEntity>, b: seq<DocEntity>, c: seq<DocEntity>, ks1: set<string>, ks2: set<string>, d: nat)
    requires NodesStep(a, b, ks1, d) && NodesStep(b, c, ks2, d)
    ensures NodesStep(a, c, ks1 + ks2, d)
  {
    forall key | key in ks1 ensures Has(c, key) {
      HasKept(b, c, key);
    }
    forall i | |b| <= i < |c| ensures c[i].key !in ks1 {
      assert forall k :: 0 <= k < |b| ==> c[k].key != c[i].key;
      assert !Has(b, c[i].key);
    }
  }

  lemma {:induction false} AddDocNodesStep(ents: seq<DocEntity>, ns: seq<InNode>, d: nat)
    requires EntsOk(ents)
    ensures NodesStep(ents, AddDocNodes(ents, ns, d), Keys(ns), d)
    decreases |ns|
  {
    if ns != [] {
      var ents1 := AddDocNode(ents, ns[0], d);
      AddDocNodeStep(ents, ns[0], d);
      AddDocNodesStep(ents1, ns[1..], d);
      NodesStepCompose(ents, ents1, AddDocNodes(ents1, ns[1..], d), Keys([ns[0]]), Keys(ns[1..]), d);
      assert [ns[0]][1..] == [];
      assert Keys(ns) == Keys([ns[0]]) + Keys(ns[1..]);
    }
  }

  /** Two library edges with the same identity. */
  predicate SameEdge(a: DocEdge, b: DocEdge) {
    a.source == b.source && a.target == b.target && a.key == b.key
  }

  /** Library edges over `n` entities and documents below `k`: in range, lower-cased keys, distinct identities. */
  predicate EdgesOk(edges: seq<DocEdge>, n: nat, k: nat) {
    && (forall j :: 0 <= j < |edges| ==>
          edges[j].source < n && edges[j].target < n
          && '|' !in edges[j].base && edges[j].key == Text.Lower(edges[j].base))
    && (forall j, x :: 0 <= j < |edges| && x in edges[j].docs ==> x < k)
    && (forall i, j :: 0 <= i < j < |edges| ==> !SameEdge(edges[i], edges[j]))
  }

  lemma AddEdgeOk(edges: seq<DocEdge>, n: nat, s: nat, t: nat, base: string, d: nat)
    requires EdgesOk(edges, n, d + 1) && s < n && t < n && '|' !in base
    ensures
      var k := FindEdge(edges, s, t, Text.Lower(base));
      EdgesOk(if k < |edges| then edges[k := edges[k].(docs := GraphMerge.AddOnce(edges[k].docs, d))]
              else edges + [DocEdge(s, t, Text.Lower(base), base, [d])], n, d + 1)
  {
    var key := Text.Lower(base);
    var k := FindEdge(edges, s, t, key);
    if k < |edges| {
      TouchEdgeOk(edges, n, k, d);
    } else {
      AppendEdgeOk(edges, n, DocEdge(s, t, key, base, [d]), d);
    }
  }

  /** Recording one more document on an existing edge keeps the edge list well formed. */
  lemma TouchEdgeOk(edges: seq<DocEdge>, n: nat, k: nat, d: nat)
    requires EdgesOk(edges, n, d + 1) && k < |edges|
    ensures EdgesOk(edges[k := edges[k].(docs := GraphMerge.AddOnce(edges[k].docs, d))], n, d + 1)
  {
    var edges' := edges[k := edges[k].(docs := GraphMerge.AddOnce(edges[k].docs, d))];
    assert forall j :: 0 <= j < |edges| ==> SameEdge(edges'[j], edges[j]) && edges'[j].base == edges[j].base;
    forall i, j | 0 <= i < j < |edges'| ensures !SameEdge(edges'[i], edges'[j]) {
      assert SameEdge(edges'[i], edges[i]) && SameEdge(edges'[j], edges[j]);
    }
  }

  /** Appending an edge with a new identity keeps the edge list well formed. */
  lemma AppendEdgeOk(edges: seq<DocEdge>, n: nat, e: DocEdge, d: nat)
    requires EdgesOk(edges, n, d + 1)
    requires e.source < n && e.target < n && '|' !in e.base && e.key == Text.Lower(e.base) && e.docs == [d]
    requires forall j :: 0 <= j < |edges| ==> !SameEdge(edges[j], e)
    ensures EdgesOk(edges + [e], n, d + 1)
  {
    var edges' := edges + [e];
    assert forall j :: 0 <= j < |edges| ==> edges'[j] == edges[j];
    forall i, j | 0 <= i < j < |edges'| ensures !SameEdge(edges'[i], edges'[j]) {
      if j < |edges| {
        assert edges'[i] == edges[i] && edges'[j] == edges[j];
      }
    }
  }

  lemma {:induction false} AddDocEdgesOk(ents: seq<DocEntity>, edges: seq<DocEdge>, es: seq<InEdge>, table: map<int, string>, d: nat)
    requires EdgesOk(edges, |ents|, d + 1)
    ensures AddDocEdges(ents, edges, es, table, d).Success? ==> EdgesOk(AddDocEdges(ents, edges, es, table, d).value, |ents|, d + 1)
    decreases |es|
  {
    if es != [] {
      var e := es[0];
      if e.source !in table || e.target !in table {
        AddDocEdgesOk(ents, edges, es[1..], table, d);
      } else {
        var s := Seqs.FindKey(ents, DocKey, Text.Lower(table[e.source]));
        var t := Seqs.FindKey(ents, DocKey, Text.Lower(table[e.target]));
        if s < |ents| && t < |ents| {
          var base := GraphMerge.Sanitize(e.relation);
          var k := FindEdge(edges, s, t, Text.Lower(base));
          var edges' :=
            if k < |edges| then edges[k := edges[k].(docs := GraphMerge.AddOnce(edges[k].docs, d))]
            else edges + [DocEdge(s, t, Text.Lower(base), base, [d])];
          AddEdgeOk(edges, |ents|, s, t, base, d);
          AddDocEdgesOk(ents, edges', es[1..], table, d);
        }
      }
    }
  }

  /** Every non-empty label of the table has an entity. */
  ghost predicate TableKnown(ents: seq<DocEntity>, table: map<int, string>) {
    forall id :: id in table && table[id] != [] ==> Has(ents, Text.Lower(table[id]))
  }

  lemma NoEmptyKey(ents: seq<DocEntity>)
    requires EntsOk(ents)
    ensures !Has(ents, Text.Lower([]))
  {
    assert Text.Lower([]) == [];
    assert forall i :: 0 <= i < |ents| ==> |ents[i].key| == |ents[i].base| > 0;
  }

  /** The edge loop fails exactly when some edge reaches a node whose label sanitized to nothing. */
  lemma {:induction false} AddDocEdgesFails(ents: seq<DocEntity>, edges: seq<DocEdge>, es: seq<InEdge>, table: map<int, string>, d: nat)
    requires EntsOk(ents) && TableKnown(ents, table)
    ensures AddDocEdges(ents, edges, es, table, d).Failure? <==> exists j :: 0 <= j < |es| && Broken(es[j], table)
    decreases |es|
  {
    if es != [] {
      var e := es[0];
      NoEmptyKey(ents);
      assert (exists j :: 0 <= j < |es| && Broken(es[j], table))
        <==> Broken(e, table) || exists j :: 0 <= j < |es| - 1 && Broken(es[1..][j], table)
      by {
        forall j | 0 <= j < |es| - 1 ensures es[1..][j] == es[j + 1] { }
        if exists j :: 0 <= j < |es| && Broken(es[j], table) {
          var j :| 0 <= j < |es| && Broken(es[j], table);
          if j > 0 {
            assert Broken(es[1..][j - 1], table);
          }
        }
      }
      if e.source !in table || e.target !in table {
        AddDocEdgesFails(ents, edges, es[1..], table, d);
      } else if !Has(ents, Text.Lower(table[e.source])) || !Has(ents, Text.Lower(table[e.target])) {
        assert Broken(e, table);
      } else {
        var s := Seqs.FindKey(ents, DocKey, Text.Lower(table[e.source]));
        var t := Seqs.FindKey(ents, DocKey, Text.Lower(table[e.target]));
        assert !Broken(e, table);
        var base := GraphMerge.Sanitize(e.relation);
        var k := FindEdge(edges, s, t, Text.Lower(base));
        var edges' :=
          if k < |edges| then edges[k := edges[k].(docs := GraphMerge.AddOnce(edges[k].docs, d))]
          else edges + [DocEdge(s, t, Text.Lower(base), base, [d])];
        AddDocEdgesFails(ents, edges', es[1..], table, d);
      }
    }
  }

  /**
    `lib` is the library of documents `gs`: every labelled node row of every
    document has an entity, and each entity's documents are exactly those with a
    row contributing its key.
  */
  ghost predicate Exact(lib: Library, gs: seq<Graph>) {
    && EntsOk(lib.ents)
    && EdgesOk(lib.edges, |lib.ents|, |gs|)
    && (forall x, key :: 0 <= x < |gs| && key in Keys(gs[x].nodes) ==> Has(lib.ents, key))
    && (forall i :: 0 <= i < |lib.ents| ==> Elems(lib.ents[i].docs) == DocSet(gs, lib.ents[i].key))
  }

  function Elems<T>(xs: seq<T>): set<T> {
    set x | x in xs
  }

  /** The documents with a node row contributing `key`. */
  function DocSet(gs: seq<Graph>, key: string): set<nat> {
    set x: nat | x < |gs| && key in Keys(gs[x].nodes)
  }

  lemma ExactStep(lib: Library, ents: seq<DocEntity>, edges: seq<DocEdge>, gs: seq<Graph>)
    requires |gs| >= 1 && Exact(lib, gs[..|gs| - 1])
    requires NodesStep(lib.ents, ents, Keys(gs[|gs| - 1].nodes), |gs| - 1)
    requires EdgesOk(edges, |ents|, |gs|)
    ensures Exact(Library(ents, edges), gs)
  {
    CoverStep(lib, ents, gs);
    DocsStep(lib, ents, gs);
  }

  lemma CoverStep(lib: Library, ents: seq<DocEntity>, gs: seq<Graph>)
    requires |gs| >= 1 && Exact(lib, gs[..|gs| - 1])
    requires NodesStep(lib.ents, ents, Keys(gs[|gs| - 1].nodes), |gs| - 1)
    ensures forall x, key :: 0 <= x < |gs| && key in Keys(gs[x].nodes) ==> Has(ents, key)
  {
    var n := |gs| - 1;
    forall x, key | 0 <= x < |gs| && key in Keys(gs[x].nodes) ensures Has(ents, key) {
      if x < n {
        Seqs.TakeIndex(gs, n, x);
        HasKept(lib.ents, ents, key);
      }
    }
  }

  lemma DocsStep(lib: Library, ents: seq<DocEntity>, gs: seq<Graph>)
    requires |gs| >= 1 && Exact(lib, gs[..|gs| - 1])
    requires NodesStep(lib.ents, ents, Keys(gs[|gs| - 1].nodes), |gs| - 1)
    ensures forall i :: 0 <= i < |ents| ==> Elems(ents[i].docs) == DocSet(gs, ents[i].key)
  {
    forall i | 0 <= i < |ents| ensures Elems(ents[i].docs) == DocSet(gs, ents[i].key) {
      forall x: nat ensures x in ents[i].docs <==> x < |gs| && ents[i].key in Keys(gs[x].nodes) {
        if i < |lib.ents| {
          OldEntityDocs(lib, ents, gs, i, x);
        } else {
          NewEntityDocs(lib, ents, gs, i, x);
        }
      }
    }
  }

  lemma OldEntityDocs(lib: Library, ents: seq<DocEntity>, gs: seq<Graph>, i: nat, x: nat)
    requires |gs| >= 1 && Exact(lib, gs[..|gs| - 1])
    requires NodesStep(lib.ents, ents, Keys(gs[|gs| - 1].nodes), |gs| - 1)
    requires i < |lib.ents|
    ensures x in ents[i].docs <==> x < |gs| && ents[i].key in Keys(gs[x].nodes)
  {
    var n := |gs| - 1;
    var key := lib.ents[i].key;
    assert ents[i].key == key;
    assert x in ents[i].docs <==> x in lib.ents[i].docs || (x == n && key in Keys(gs[n].nodes));
    var p := gs[..n];
    assert Elems(lib.ents[i].docs) == DocSet(p, key);
    assert x in lib.ents[i].docs <==> x in DocSet(p, key);
    if x < n {
      Seqs.TakeIndex(gs, n, x);
    }
  }

  lemma NewEntityDocs(lib: Library, ents: seq<DocEntity>, gs: seq<Graph>, i: nat, x: nat)
    requires |gs| >= 1 && Exact(lib, gs[..|gs| - 1])
    requires NodesStep(lib.ents, ents, Keys(gs[|gs| - 1].nodes), |gs| - 1)
    requires |lib.ents| <= i < |ents|
    ensures x in ents[i].docs <==> x < |gs| && ents[i].key in Keys(gs[x].nodes)
  {
    var n := |gs| - 1;
    var key := ents[i].key;
    assert x in ents[i].docs <==> x == n && key in Keys(gs[n].nodes);
    assert forall k :: 0 <= k < |lib.ents| ==> ents[k].key == lib.ents[k].key && ents[k].key != key;
    assert !Has(lib.ents, key);
    if x < n {
      Seqs.TakeIndex(gs, n, x);
      assert key !in Keys(gs[..n][x].nodes);
    }
  }

  lemma {:induction false} MergeDocsExact(gs: seq<Graph>)
    ensures MergeDocs(gs).Success? ==> Exact(MergeDocs(gs).value, gs)
    decreases |gs|
  {
    if gs != [] {
      var n := |gs| - 1;
      var p := gs[..n];
      MergeDocsExact(p);
      if MergeDocs(p).Success? {
        AddDocExact(MergeDocs(p).value, gs);
      }
    }
  }

  /** Adding the last document to the library of the ones before it gives the library of all. */
  lemma AddDocExact(lib: Library, gs: seq<Graph>)
    requires |gs| >= 1 && Exact(lib, gs[..|gs| - 1])
    ensures AddDoc(lib, gs[|gs| - 1], |gs| - 1).Success? ==> Exact(AddDoc(lib, gs[|gs| - 1], |gs| - 1).value, gs)
  {
    var n := |gs| - 1;
    var g := gs[n];
    var ents := AddDocNodes(lib.ents, g.nodes, n);
    AddDocNodesStep(lib.ents, g.nodes, n);
    assert EdgesOk(lib.edges, |ents|, n + 1);
    AddDocEdgesOk(ents, lib.edges, g.edges, LabelTable(g.nodes), n);
    var r := AddDocEdges(ents, lib.edges, g.edges, LabelTable(g.nodes), n);
    if r.Success? {
      ExactStep(lib, ents, r.value, gs);
    }
  }

  /** Some edge of the document reaches a node whose label sanitizes to nothing. */
  predicate Crashes(g: Graph) {
    exists j :: 0 <= j < |g.edges| && Broken(g.edges[j], LabelTable(g.nodes))
  }

  lemma TableKnownAfterNodes(ents: seq<DocEntity>, ents': seq<DocEntity>, ns: seq<InNode>, d: nat)
    requires NodesStep(ents, ents', Keys(ns), d)
    ensures TableKnown(ents', LabelTable(ns))
  {
    var table := LabelTable(ns);
    forall id | id in table && table[id] != [] ensures Has(ents', Text.Lower(table[id])) {
      var j :| 0 <= j < |ns| && ns[j].id == id && table[id] == GraphMerge.Sanitize(ns[j].name);
      assert Named(ns[j], Text.Lower(table[id]));
      KeysMentions(ns, Text.Lower(table[id]));
    }
  }

  lemma MergeDocsEntsOk(gs: seq<Graph>)
    ensures MergeDocs(gs).Success? ==> EntsOk(MergeDocs(gs).value.ents)
  {
    MergeDocsExact(gs);
  }

  /** One document fails exactly when it has an edge to a node whose label sanitizes to nothing. */
  lemma AddDocFails(lib: Library, g: Graph, d: nat)
    requires EntsOk(lib.ents)
    ensures AddDoc(lib, g, d).Failure? <==> Crashes(g)
  {
    var ents := AddDocNodes(lib.ents, g.nodes, d);
    AddDocNodesStep(lib.ents, g.nodes, d);
    TableKnownAfterNodes(lib.ents, ents, g.nodes, d);
    AddDocEdgesFails(ents, lib.edges, g.edges, LabelTable(g.nodes), d);
  }

  /** Some element of `xs` satisfies `p`, checked from the back. */
  predicate Any<T>(xs: seq<T>, p: T -> bool)
    decreases |xs|
  {
    xs != [] && (Any(xs[..|xs| - 1], p) || p(xs[|xs| - 1]))
  }

  lemma {:induction false} AnyExists<T>(xs: seq<T>, p: T -> bool)
    ensures Any(xs, p) <==> exists x :: 0 <= x < |xs| && p(xs[x])
    decreases |xs|
  {
    if xs != [] {
      var n := |xs| - 1;
      var prefix := xs[..n];
      AnyExists(prefix, p);
      assert forall x :: 0 <= x < n ==> prefix[x] == xs[x];
      if exists x :: 0 <= x < |xs| && p(xs[x]) {
        var x :| 0 <= x < |xs| && p(xs[x]);
        if x < n {
          assert p(prefix[x]);
        }
      }
    }
  }

  lemma {:induction false} MergeDocsAnyCrashes(gs: seq<Graph>)
    ensures MergeDocs(gs).Failure? <==> Any(gs, Crashes)
    decreases |gs|
  {
    if gs != [] {
      var n := |gs| - 1;
      var p := gs[..n];
      MergeDocsAnyCrashes(p);
      if MergeDocs(p).Success? {
        MergeDocsEntsOk(p);
        AddDocFails(MergeDocs(p).value, gs[n], n);
      }
    }
  }

  /** Merging fails exactly when some document has an edge to a node whose label sanitizes to nothing. */
  lemma MergeDocsFails(gs: seq<Graph>)
    ensures MergeDocs(gs).Failure? <==> exists x :: 0 <= x < |gs| && Crashes(gs[x])
  {
    MergeDocsAnyCrashes(gs);
    AnyExists(gs, Crashes);
  }

  // ------------------------------------------------------------ output

  /** `sorted(doc_set)`. */
  function DocNumbers(docs: seq<nat>): (r: seq<nat>)
    ensures Sorting.StrictlySorted<int>(r, Sorting.IntLess)
    ensures forall x :: x in r <==> x in docs
  {
    var sorted := Sorting.SortedInts(docs);
    assert forall i :: 0 <= i < |sorted| ==> sorted[i] in docs;
    sorted
  }

  /** `str(d)` for each document index: non-empty digit strings that read back as the indices. */
  function Decimals(ns: seq<nat>): (r: seq<string>)
    ensures |r| == |ns|
    ensures forall i :: 0 <= i < |ns| ==> r[i] == Text.NatToString(ns[i])
    ensures forall i :: 0 <= i < |r| ==> r[i] != [] && Text.IsDigits(r[i]) && Text.DigitsValue(r[i]) == ns[i]
  {
    assert forall i :: 0 <= i < |ns| ==> Text.DigitsValue(Text.NatToString(ns[i])) == ns[i] by {
      forall i | 0 <= i < |ns| { Text.NatToStringValue(ns[i]); }
    }
    seq(|ns|, i requires 0 <= i < |ns| => Text.NatToString(ns[i]))
  }

  /** `f"{base_label}|{doc_str}"` with `doc_str = '|'.join(str(d) for d in sorted(doc_set))`. */
  function Tag(base: string, docs: seq<nat>): string {
    base + "|" + Text.Join(Decimals(DocNumbers(docs)), "|")
  }

  /** The first `|`-separated part of an output label. */
  function Head(name: string): string {
    Text.Split(name, "|")[0]
  }

  /** The positions of the elements of `xs` that satisfy `p`, ascending. */
  function Positions<T>(xs: seq<T>, p: T -> bool): (r: seq<nat>)
    ensures Sorting.StrictlySorted<int>(r, Sorting.IntLess)
    ensures forall x :: x in r ==> x < |xs|
    decreases |xs|
  {
    if xs == [] then []
    else
      var n := |xs| - 1;
      var prefix := Positions(xs[..n], p);
      if p(xs[n]) then
        var r := prefix + [n];
        assert forall i :: 0 <= i < |prefix| ==> r[i] == prefix[i] && prefix[i] in prefix;
        r
      else prefix
  }

  lemma {:induction false} PositionsMembers<T>(xs: seq<T>, p: T -> bool, x: nat)
    ensures x in Positions(xs, p) <==> x < |xs| && p(xs[x])
    decreases |xs|
  {
    if xs != [] {
      var n := |xs| - 1;
      PositionsMembers(xs[..n], p, x);
      if x < n {
        assert xs[..n][x] == xs[x];
      }
    }
  }

  /** The reference list of documents with a row contributing `key`, ascending. */
  function DocsOf(gs: seq<Graph>, key: string): seq<nat> {
    Positions(gs, (g: Graph) => key in Keys(g.nodes))
  }

  lemma DocsOfMembers(gs: seq<Graph>, key: string, x: nat)
    ensures x in DocsOf(gs, key) <==> x < |gs| && key in Keys(gs[x].nodes)
  {
    PositionsMembers(gs, (g: Graph) => key in Keys(g.nodes), x);
  }

  /** A label's parts: the first-seen label, then the document indices. */
  lemma TagSplit(base: string, docs: seq<nat>)
    requires '|' !in base && docs != []
    ensures Text.Split(Tag(base, docs), "|") == [base] + Decimals(DocNumbers(docs))
  {
    var ds := Decimals(DocNumbers(docs));
    assert docs[0] in DocNumbers(docs);
    var parts := [base] + ds;
    assert parts[1..] == ds;
    assert Text.Join(parts, "|") == Tag(base, docs);
    forall i | 0 <= i < |parts| ensures '|' !in parts[i] {
      if i > 0 {
        assert parts[i] == Text.NatToString(DocNumbers(docs)[i - 1]);
        assert Text.IsDigits(parts[i]);
      }
    }
    Text.SplitJoin(parts, "|");
  }

  /** Doc sets with the same members print the same. */
  lemma SameDocNumbers(a: seq<nat>, b: seq<nat>)
    requires forall x :: x in a <==> x in b
    ensures DocNumbers(a) == DocNumbers(b)
  {
    Sorting.IntLessTotal();
    Sorting.SortedUnique<int>(DocNumbers(a), DocNumbers(b), Sorting.IntLess);
  }

  /** The output tables of a library: ids are positions, labels carry document indices. */
  function Output(lib: Library): (seq<GraphMerge.OutNode>, seq<GraphMerge.OutEdge>) {
    (seq(|lib.ents|, i requires 0 <= i < |lib.ents| =>
        GraphMerge.OutNode(i, Tag(lib.ents[i].base, lib.ents[i].docs), GraphMerge.TypeString(lib.ents[i].kinds))),
     seq(|lib.edges|, j requires 0 <= j < |lib.edges| =>
        GraphMerge.OutEdge(lib.edges[j].source, lib.edges[j].target, Tag(lib.edges[j].base, lib.edges[j].docs))))
  }

  /** `merge_all_document_graphs`; `Failure` is the `KeyError` the source raises. */
  function MergeAll(gs: seq<Graph>): (r: Result<(seq<GraphMerge.OutNode>, seq<GraphMerge.OutEdge>), MergeError>)
    ensures r.Failure? <==> exists x :: 0 <= x < |gs| && Crashes(gs[x])
    ensures r.Success? ==> forall i :: 0 <= i < |r.value.0| ==> r.value.0[i].id == i
    ensures r.Success? ==> forall j :: 0 <= j < |r.value.1| ==>
              r.value.1[j].source < |r.value.0| && r.value.1[j].target < |r.value.0|
  {
    MergeDocsFails(gs);
    MergeDocsExact(gs);
    var lib :- MergeDocs(gs);
    Success(Output(lib))
  }

  /** A node label: a non-empty first-seen label without `|`, then exactly the documents naming it, ascending. */
  predicate Labelled(name: string, gs: seq<Graph>) {
    var b := Head(name);
    b != [] && '|' !in b && name == Tag(b, DocsOf(gs, Text.Lower(b)))
  }

  /** The label of an entity of the library of `gs`. */
  lemma EntityLabel(gs: seq<Graph>, lib: Library, i: nat)
    requires Exact(lib, gs) && i < |lib.ents|
    ensures Head(Tag(lib.ents[i].base, lib.ents[i].docs)) == lib.ents[i].base
    ensures Labelled(Tag(lib.ents[i].base, lib.ents[i].docs), gs)
  {
    var e := lib.ents[i];
    TagSplit(e.base, e.docs);
    forall x: nat ensures x in e.docs <==> x in DocsOf(gs, e.key) {
      assert x in e.docs <==> x in DocSet(gs, e.key);
      DocsOfMembers(gs, e.key, x);
    }
    SameDocNumbers(e.docs, DocsOf(gs, e.key));
  }

  /**
    The merged nodes: each label names its documents exactly, no two nodes share
    a lower-cased label, and every labelled row of every document has a node.
  */
  lemma MergeAllNodes(gs: seq<Graph>)
    requires MergeAll(gs).Success?
    ensures forall i :: 0 <= i < |MergeAll(gs).value.0| ==> Labelled(MergeAll(gs).value.0[i].name, gs)
    ensures forall i, j :: 0 <= i < j < |MergeAll(gs).value.0| ==>
              Text.Lower(Head(MergeAll(gs).value.0[i].name)) != Text.Lower(Head(MergeAll(gs).value.0[j].name))
    ensures forall x, key :: 0 <= x < |gs| && Mentions(gs[x].nodes, key) ==>
              exists i :: 0 <= i < |MergeAll(gs).value.0| && Text.Lower(Head(MergeAll(gs).value.0[i].name)) == key
  {
    MergeDocsExact(gs);
    var lib := MergeDocs(gs).value;
    var nodes := Output(lib).0;
    assert MergeAll(gs).value.0 == nodes;
    forall i | 0 <= i < |nodes|
      ensures Labelled(nodes[i].name, gs) && Text.Lower(Head(nodes[i].name)) == lib.ents[i].key
    {
      EntityLabel(gs, lib, i);
    }
    forall x, key | 0 <= x < |gs| && Mentions(gs[x].nodes, key)
      ensures exists i :: 0 <= i < |nodes| && Text.Lower(Head(nodes[i].name)) == key
    {
      KeysMentions(gs[x].nodes, key);
      assert Has(lib.ents, key);
      var i := Seqs.FindKey(lib.ents, DocKey, key);
      assert nodes[i].name == Tag(lib.ents[i].base, lib.ents[i].docs);
      EntityLabel(gs, lib, i);
      assert Text.Lower(Head(nodes[i].name)) == lib.ents[i].key;
    }
  }

  // ------------------------------------------------------------ types and labels

  /** Some node row of the list contributes under `key` with type `t`. */
  predicate HasKind(ns: seq<InNode>, key: string, t: string) {
    exists j :: 0 <= j < |ns| && Named(ns[j], key) && ns[j].kind == t
  }

  /** `name` is the sanitized label of some node row of the list. */
  predicate LabelOfRow(ns: seq<InNode>, name: string) {
    exists j :: 0 <= j < |ns| && GraphMerge.Sanitize(ns[j].name) == name
  }

  /** The entity's label is the sanitized label of some node row of the list. */
  predicate BaseFrom(ns: seq<InNode>, e: DocEntity) {
    LabelOfRow(ns, e.base)
  }

  /**
    Node rows `ns` took `ents` to `ents'`: each entity's types are its old ones plus
    exactly the types of the rows contributing its key, and every new entity's
    label is one of the rows' labels.
  */
  ghost predicate KindsStep(ents: seq<DocEntity>, ents': seq<DocEntity>, ns: seq<InNode>) {
    && (forall i, t :: 0 <= i < |ents'| ==>
          (t in ents'[i].kinds <==> (i < |ents| && t in ents[i].kinds) || HasKind(ns, ents'[i].key, t)))
    && (forall i :: |ents| <= i < |ents'| ==> BaseFrom(ns, ents'[i]))
  }

  lemma HasKindAppend(a: seq<InNode>, b: seq<InNode>, key: string, t: string)
    ensures HasKind(a + b, key, t) <==> HasKind(a, key, t) || HasKind(b, key, t)
  {
    var ab := a + b;
    if HasKind(ab, key, t) {
      var j :| 0 <= j < |ab| && Named(ab[j], key) && ab[j].kind == t;
      if j >= |a| { assert ab[j] == b[j - |a|]; }
    }
    if HasKind(a, key, t) {
      var j :| 0 <= j < |a| && Named(a[j], key) && a[j].kind == t;
      assert ab[j] == a[j];
    }
    if HasKind(b, key, t) {
      var j :| 0 <= j < |b| && Named(b[j], key) && b[j].kind == t;
      assert ab[|a| + j] == b[j];
    }
  }

  lemma AddDocNodeKinds(ents: seq<DocEntity>, n: InNode, d: nat)
    requires EntsOk(ents)
    ensures KindsStep(ents, AddDocNode(ents, n, d), [n])
  {
    var ents' := AddDocNode(ents, n, d);
    var name := GraphMerge.Sanitize(n.name);
    var key := Text.Lower(name);
    forall k, t ensures HasKind([n], k, t) <==> name != [] && k == key && t == n.kind {
      if HasKind([n], k, t) {
        var j :| 0 <= j < 1 && Named([n][j], k) && [n][j].kind == t;
      }
      if name != [] && k == key && t == n.kind {
        assert Named([n][0], k);
      }
    }
    if name != [] {
      var k := Seqs.FindKey(ents, DocKey, key);
      if k < |ents| {
        assert forall i :: 0 <= i < |ents| && i != k ==> ents'[i] == ents[i] && ents[i].key != key;
      } else {
        assert forall i :: 0 <= i < |ents| ==> ents'[i] == ents[i] && ents[i].key != key;
        assert BaseFrom([n], ents'[|ents|]) by { assert [n][0] == n; }
      }
    }
  }

  /** A key some rows of a step contribute has an entity among the earlier ones, so a later new entity has another key. */
  lemma NewKeyNotEarlier(b: seq<DocEntity>, c: seq<DocEntity>, ns: seq<InNode>, ks: set<string>, i: nat, t: string)
    requires EntsOk(c) && Kept(b, c) && |b| <= i < |c|
    requires forall key :: key in Keys(ns) ==> Has(b, key)
    ensures !HasKind(ns, c[i].key, t)
  {
    if HasKind(ns, c[i].key, t) {
      var j :| 0 <= j < |ns| && Named(ns[j], c[i].key) && ns[j].kind == t;
      KeysMentions(ns, c[i].key);
      assert false;
    }
  }

  lemma KindsCompose(a: seq<DocEntity>, b: seq<DocEntity>, c: seq<DocEntity>, ns1: seq<InNode>, ns2: seq<InNode>, d: nat)
    requires NodesStep(a, b, Keys(ns1), d) && NodesStep(b, c, Keys(ns2), d)
    requires KindsStep(a, b, ns1) && KindsStep(b, c, ns2)
    ensures KindsStep(a, c, ns1 + ns2)
  {
    forall i, t | 0 <= i < |c|
      ensures t in c[i].kinds <==> (i < |a| && t in a[i].kinds) || HasKind(ns1 + ns2, c[i].key, t)
    {
      HasKindAppend(ns1, ns2, c[i].key, t);
      if i >= |b| {
        NewKeyNotEarlier(b, c, ns1, Keys(ns1), i, t);
      }
    }
    forall i | |a| <= i < |c| ensures BaseFrom(ns1 + ns2, c[i]) {
      if i < |b| {
        var j :| 0 <= j < |ns1| && GraphMerge.Sanitize(ns1[j].name) == b[i].base;
        assert (ns1 + ns2)[j] == ns1[j];
      } else {
        var j :| 0 <= j < |ns2| && GraphMerge.Sanitize(ns2[j].name) == c[i].base;
        assert (ns1 + ns2)[|ns1| + j] == ns2[j];
      }
    }
  }

  lemma {:induction false} AddDocNodesKinds(ents: seq<DocEntity>, ns: seq<InNode>, d: nat)
    requires EntsOk(ents)
    ensures KindsStep(ents, AddDocNodes(ents, ns, d), ns)
    decreases |ns|
  {
    if ns != [] {
      var ents1 := AddDocNode(ents, ns[0], d);
      AddDocNodeStep(ents, ns[0], d);
      AddDocNodeKinds(ents, ns[0], d);
      AddDocNodesStep(ents1, ns[1..], d);
      AddDocNodesKinds(ents1, ns[1..], d);
      KindsCompose(ents, ents1, AddDocNodes(ents1, ns[1..], d), [ns[0]], ns[1..], d);
      assert [ns[0]] + ns[1..] == ns;
    }
  }

  /** Some document of `gs` has a row contributing `key` with type `t`. */
  ghost predicate KindIn(gs: seq<Graph>, key: string, t: string) {
    exists x :: 0 <= x < |gs| && HasKind(gs[x].nodes, key, t)
  }

  /** Each entity's types are exactly those of the rows contributing its key, and its label is one of those rows' labels. */
  ghost predicate KindsExact(ents: seq<DocEntity>, gs: seq<Graph>) {
    && (forall i, t :: 0 <= i < |ents| ==> (t in ents[i].kinds <==> KindIn(gs, ents[i].key, t)))
    && (forall i :: 0 <= i < |ents| ==> exists x :: 0 <= x < |gs| && BaseFrom(gs[x].nodes, ents[i]))
  }

  lemma KindInSnoc(gs: seq<Graph>, key: string, t: string)
    requires |gs| >= 1
    ensures KindIn(gs, key, t) <==> KindIn(gs[..|gs| - 1], key, t) || HasKind(gs[|gs| - 1].nodes, key, t)
  {
    var has := (g: Graph) => HasKind(g.nodes, key, t);
    Seqs.ExistsSnoc(gs, gs[..|gs| - 1], has);
  }

  /** The types and labels of the entities after the nodes of the last document, from those of the documents before. */
  lemma KindsDocStep(lib: Library, ents: seq<DocEntity>, gs: seq<Graph>)
    requires |gs| >= 1 && Exact(lib, gs[..|gs| - 1]) && KindsExact(lib.ents, gs[..|gs| - 1])
    requires NodesStep(lib.ents, ents, Keys(gs[|gs| - 1].nodes), |gs| - 1)
    requires KindsStep(lib.ents, ents, gs[|gs| - 1].nodes)
    ensures KindsExact(ents, gs)
  {
    var n := |gs| - 1;
    var p := gs[..n];
    forall i, t | 0 <= i < |ents| ensures t in ents[i].kinds <==> KindIn(gs, ents[i].key, t) {
      KindInSnoc(gs, ents[i].key, t);
      if i >= |lib.ents| && KindIn(p, ents[i].key, t) {
        var x :| 0 <= x < n && HasKind(p[x].nodes, ents[i].key, t);
        NewKeyNotEarlier(lib.ents, ents, p[x].nodes, Keys(p[x].nodes), i, t);
        assert false;
      }
    }
    forall i | 0 <= i < |ents| ensures exists x :: 0 <= x < |gs| && BaseFrom(gs[x].nodes, ents[i]) {
      if i < |lib.ents| {
        var x :| 0 <= x < n && BaseFrom(p[x].nodes, lib.ents[i]);
        Seqs.TakeIndex(gs, n, x);
        assert ents[i].base == lib.ents[i].base;
        assert BaseFrom(gs[x].nodes, ents[i]);
      } else {
        assert BaseFrom(gs[n].nodes, ents[i]);
      }
    }
  }

  /** Adding the last document keeps the types and labels exact. */
  lemma AddDocKinds(lib: Library, gs: seq<Graph>)
    requires |gs| >= 1 && Exact(lib, gs[..|gs| - 1]) && KindsExact(lib.ents, gs[..|gs| - 1])
    ensures AddDoc(lib, gs[|gs| - 1], |gs| - 1).Success? ==>
      KindsExact(AddDoc(lib, gs[|gs| - 1], |gs| - 1).value.ents, gs)
  {
    var n := |gs| - 1;
    var ents := AddDocNodes(lib.ents, gs[n].nodes, n);
    AddDocNodesStep(lib.ents, gs[n].nodes, n);
    AddDocNodesKinds(lib.ents, gs[n].nodes, n);
    KindsDocStep(lib, ents, gs);
  }

  lemma {:induction false} MergeDocsKinds(gs: seq<Graph>)
    ensures MergeDocs(gs).Success? ==> KindsExact(MergeDocs(gs).value.ents, gs)
    decreases |gs|
  {
    if gs != [] {
      var p := gs[..|gs| - 1];
      MergeDocsKinds(p);
      MergeDocsExact(p);
      if MergeDocs(p).Success? {
        AddDocKinds(MergeDocs(p).value, gs);
      }
    }
  }

  /**
    A merged node's type is the `|`-joined, sorted, distinct non-empty types of the
    rows, in any document, whose lower-cased sanitized label is the node's key; so it
    is the same whatever order the rows came in.
  */
  lemma MergeAllKinds(gs: seq<Graph>, i: nat, ks: seq<string>)
    requires MergeAll(gs).Success? && i < |MergeAll(gs).value.0|
    requires forall t :: t in ks <==> KindIn(gs, Text.Lower(Head(MergeAll(gs).value.0[i].name)), t)
    ensures MergeAll(gs).value.0[i].kind == GraphMerge.TypeString(ks)
  {
    MergeDocsExact(gs);
    MergeDocsKinds(gs);
    var lib := MergeDocs(gs).value;
    EntityLabel(gs, lib, i);
    assert MergeAll(gs).value.0[i] == Output(lib).0[i];
    GraphMerge.TypeStringSame(lib.ents[i].kinds, ks);
  }

  /** Every merged node's first-seen label is the sanitized label of some row of some document. */
  lemma MergeAllLabelsFrom(gs: seq<Graph>)
    requires MergeAll(gs).Success?
    ensures forall i :: 0 <= i < |MergeAll(gs).value.0| ==>
      exists x :: 0 <= x < |gs| && LabelOfRow(gs[x].nodes, Head(MergeAll(gs).value.0[i].name))
  {
    MergeDocsExact(gs);
    MergeDocsKinds(gs);
    var lib := MergeDocs(gs).value;
    forall i | 0 <= i < |MergeAll(gs).value.0|
      ensures exists x :: 0 <= x < |gs| && LabelOfRow(gs[x].nodes, Head(MergeAll(gs).value.0[i].name))
    {
      EntityLabel(gs, lib, i);
      assert MergeAll(gs).value.0[i] == Output(lib).0[i];
      var x :| 0 <= x < |gs| && BaseFrom(gs[x].nodes, lib.ents[i]);
    }
  }

  // ------------------------------------------------------------ edges

  /** Edge row `e`, looked up through the id table `table`, joins the keys `sk` and `tk` under the relation key `rk`. */
  predicate Reads(e: InEdge, table: map<int, string>, sk: string, tk: string, rk: string) {
    && e.source in table && e.target in table
    && Text.Lower(table[e.source]) == sk && Text.Lower(table[e.target]) == tk
    && Text.Lower(GraphMerge.Sanitize(e.relation)) == rk
  }

  /** Some edge row of the list reads as (`sk`, `tk`, `rk`). */
  predicate ReadIn(es: seq<InEdge>, table: map<int, string>, sk: string, tk: string, rk: string) {
    exists j :: 0 <= j < |es| && Reads(es[j], table, sk, tk, rk)
  }

  /** Some edge row of the list reads as (`sk`, `tk`, lower-cased `base`) with sanitized relation `base`. */
  predicate RelationOf(es: seq<InEdge>, table: map<int, string>, sk: string, tk: string, base: string) {
    exists j :: 0 <= j < |es| && Reads(es[j], table, sk, tk, Text.Lower(base)) && GraphMerge.Sanitize(es[j].relation) == base
  }

  /** Some library edge has the keys row `e` reads as. */
  predicate Covered(ents: seq<DocEntity>, edges: seq<DocEdge>, e: InEdge, table: map<int, string>) {
    exists k :: 0 <= k < |edges| && edges[k].source < |ents| && edges[k].target < |ents|
      && Reads(e, table, ents[edges[k].source].key, ents[edges[k].target].key, edges[k].key)
  }

  /**
    Edge rows `es` of document `d` took `edges` to `edges'` over the entities `ents`:
    edges keep their position, identity and label; exactly the edges some row reads
    as gain `d`; each new edge's label is the relation of such a row; and every row
    whose endpoints the table knows has an edge.
  */
  ghost predicate EdgesStep(ents: seq<DocEntity>, edges: seq<DocEdge>, edges': seq<DocEdge>, es: seq<InEdge>, table: map<int, string>, d: nat) {
    && EdgesOk(edges', |ents|, d + 1)
    && EdgesKept(edges, edges')
    && (forall k, x :: 0 <= k < |edges'| ==>
          (x in edges'[k].docs <==>
             (k < |edges| && x in edges[k].docs)
             || (x == d && ReadIn(es, table, ents[edges'[k].source].key, ents[edges'[k].target].key, edges'[k].key))))
    && (forall k :: |edges| <= k < |edges'| ==>
          RelationOf(es, table, ents[edges'[k].source].key, ents[edges'[k].target].key, edges'[k].base))
    && (forall j :: 0 <= j < |es| && es[j].source in table && es[j].target in table ==> Covered(ents, edges', es[j], table))
  }

  /** `b` keeps every edge of `a` at its position with its identity and label. */
  predicate EdgesKept(a: seq<DocEdge>, b: seq<DocEdge>) {
    |a| <= |b| && forall k :: 0 <= k < |a| ==> SameEdge(b[k], a[k]) && b[k].base == a[k].base
  }

  /** With unique keys, a key names one entity. */
  lemma KeyedSame(ents: seq<DocEntity>, a: nat, b: nat)
    requires EntsOk(ents) && a < |ents| && b < |ents| && ents[a].key == ents[b].key
    ensures a == b
  {
  }

  /** In a well-formed edge list an identity names one position. */
  lemma SameEdgeSame(edges: seq<DocEdge>, n: nat, k: nat, i: nat, j: nat)
    requires EdgesOk(edges, n, k) && i < |edges| && j < |edges| && SameEdge(edges[i], edges[j])
    ensures i == j
  {
  }

  /** A row that reads as the keys of edge `k` reads as those of no other edge. */
  lemma ReadsOne(ents: seq<DocEntity>, edges: seq<DocEdge>, n: nat, e: InEdge, table: map<int, string>, k: nat)
    requires EntsOk(ents) && EdgesOk(edges, |ents|, n) && k < |edges|
    requires Reads(e, table, ents[edges[k].source].key, ents[edges[k].target].key, edges[k].key)
    ensures forall k' :: 0 <= k' < |edges| ==>
      (ReadIn([e], table, ents[edges[k'].source].key, ents[edges[k'].target].key, edges[k'].key) <==> k' == k)
  {
    forall k' | 0 <= k' < |edges|
      ensures ReadIn([e], table, ents[edges[k'].source].key, ents[edges[k'].target].key, edges[k'].key) <==> k' == k
    {
      assert [e][0] == e;
      if Reads(e, table, ents[edges[k'].source].key, ents[edges[k'].target].key, edges[k'].key) {
        KeyedSame(ents, edges[k'].source, edges[k].source);
        KeyedSame(ents, edges[k'].target, edges[k].target);
        SameEdgeSame(edges, |ents|, n, k', k);
      }
    }
  }

  /** A row read as the keys of an existing edge records the document on it. */
  lemma TouchEdgeStep(ents: seq<DocEntity>, edges: seq<DocEdge>, e: InEdge, table: map<int, string>, d: nat, k: nat)
    requires EntsOk(ents) && EdgesOk(edges, |ents|, d + 1) && k < |edges|
    requires Reads(e, table, ents[edges[k].source].key, ents[edges[k].target].key, edges[k].key)
    ensures EdgesStep(ents, edges, edges[k := edges[k].(docs := GraphMerge.AddOnce(edges[k].docs, d))], [e], table, d)
  {
    var edges' := edges[k := edges[k].(docs := GraphMerge.AddOnce(edges[k].docs, d))];
    TouchEdgeOk(edges, |ents|, k, d);
    assert forall k' :: 0 <= k' < |edges| ==> SameEdge(edges'[k'], edges[k']) && edges'[k'].base == edges[k'].base;
    assert EdgesKept(edges, edges');
    ReadsOne(ents, edges', d + 1, e, table, k);
    forall k', x | 0 <= k' < |edges'|
      ensures x in edges'[k'].docs <==>
        (k' < |edges| && x in edges[k'].docs)
        || (x == d && ReadIn([e], table, ents[edges'[k'].source].key, ents[edges'[k'].target].key, edges'[k'].key))
    {
      if k' != k {
        assert edges'[k'] == edges[k'];
      }
    }
    assert [e][0] == e;
    assert Covered(ents, edges', e, table);
    EdgesStepIntro(ents, edges, edges', [e], table, d);
  }

  /** The parts of `EdgesStep`, gathered. */
  lemma EdgesStepIntro(ents: seq<DocEntity>, edges: seq<DocEdge>, edges': seq<DocEdge>, es: seq<InEdge>, table: map<int, string>, d: nat)
    requires EdgesOk(edges', |ents|, d + 1) && EdgesKept(edges, edges')
    requires forall k, x :: 0 <= k < |edges'| ==>
      (x in edges'[k].docs <==>
         (k < |edges| && x in edges[k].docs)
         || (x == d && ReadIn(es, table, ents[edges'[k].source].key, ents[edges'[k].target].key, edges'[k].key)))
    requires forall k :: |edges| <= k < |edges'| ==>
      RelationOf(es, table, ents[edges'[k].source].key, ents[edges'[k].target].key, edges'[k].base)
    requires forall j :: 0 <= j < |es| && es[j].source in table && es[j].target in table ==> Covered(ents, edges', es[j], table)
    ensures EdgesStep(ents, edges, edges', es, table, d)
  {
  }

  /** A row read as keys no edge has appends a new edge. */
  lemma AppendEdgeStep(ents: seq<DocEntity>, edges: seq<DocEdge>, e: InEdge, table: map<int, string>, d: nat, s: nat, t: nat)
    requires EntsOk(ents) && EdgesOk(edges, |ents|, d + 1) && s < |ents| && t < |ents|
    requires Reads(e, table, ents[s].key, ents[t].key, Text.Lower(GraphMerge.Sanitize(e.relation)))
    requires forall j :: 0 <= j < |edges| ==>
      !SameEdge(edges[j], DocEdge(s, t, Text.Lower(GraphMerge.Sanitize(e.relation)), GraphMerge.Sanitize(e.relation), [d]))
    ensures EdgesStep(ents, edges, edges + [DocEdge(s, t, Text.Lower(GraphMerge.Sanitize(e.relation)), GraphMerge.Sanitize(e.relation), [d])], [e], table, d)
  {
    var base := GraphMerge.Sanitize(e.relation);
    var edges' := edges + [DocEdge(s, t, Text.Lower(base), base, [d])];
    AppendEdgeOk(edges, |ents|, edges'[|edges|], d);
    assert forall k' :: 0 <= k' < |edges| ==> edges'[k'] == edges[k'];
    assert EdgesKept(edges, edges');
    ReadsOne(ents, edges', d + 1, e, table, |edges|);
    assert [e][0] == e;
    assert RelationOf([e], table, ents[s].key, ents[t].key, base);
    assert Covered(ents, edges', e, table);
    EdgesStepIntro(ents, edges, edges', [e], table, d);
  }

  /** One edge row whose endpoints have entities. */
  lemma AddEdgeStep(ents: seq<DocEntity>, edges: seq<DocEdge>, e: InEdge, table: map<int, string>, d: nat)
    requires EntsOk(ents) && EdgesOk(edges, |ents|, d + 1)
    requires e.source in table && e.target in table
    requires Has(ents, Text.Lower(table[e.source])) && Has(ents, Text.Lower(table[e.target]))
    ensures
      var s := Seqs.FindKey(ents, DocKey, Text.Lower(table[e.source]));
      var t := Seqs.FindKey(ents, DocKey, Text.Lower(table[e.target]));
      var base := GraphMerge.Sanitize(e.relation);
      var k := FindEdge(edges, s, t, Text.Lower(base));
      EdgesStep(ents, edges,
        if k < |edges| then edges[k := edges[k].(docs := GraphMerge.AddOnce(edges[k].docs, d))]
        else edges + [DocEdge(s, t, Text.Lower(base), base, [d])],
        [e], table, d)
  {
    var s := Seqs.FindKey(ents, DocKey, Text.Lower(table[e.source]));
    var t := Seqs.FindKey(ents, DocKey, Text.Lower(table[e.target]));
    var base := GraphMerge.Sanitize(e.relation);
    var k := FindEdge(edges, s, t, Text.Lower(base));
    if k < |edges| {
      TouchEdgeStep(ents, edges, e, table, d, k);
    } else {
      AppendEdgeStep(ents, edges, e, table, d, s, t);
    }
  }

  /** A row whose endpoints the table does not know changes nothing. */
  lemma SkipEdgeStep(ents: seq<DocEntity>, edges: seq<DocEdge>, e: InEdge, table: map<int, string>, d: nat)
    requires EdgesOk(edges, |ents|, d + 1) && !(e.source in table && e.target in table)
    ensures EdgesStep(ents, edges, edges, [e], table, d)
  {
    assert forall j :: 0 <= j < |[e]| ==> [e][j] == e;
  }

  lemma ReadInAppend(es1: seq<InEdge>, es2: seq<InEdge>, table: map<int, string>, sk: string, tk: string, rk: string)
    ensures ReadIn(es1 + es2, table, sk, tk, rk) <==> ReadIn(es1, table, sk, tk, rk) || ReadIn(es2, table, sk, tk, rk)
  {
    var es := es1 + es2;
    if ReadIn(es, table, sk, tk, rk) {
      var j :| 0 <= j < |es| && Reads(es[j], table, sk, tk, rk);
      if j >= |es1| {
        assert es2[j - |es1|] == es[j];
      }
    }
    if ReadIn(es1, table, sk, tk, rk) {
      var j :| 0 <= j < |es1| && Reads(es1[j], table, sk, tk, rk);
      assert es[j] == es1[j];
    }
    if ReadIn(es2, table, sk, tk, rk) {
      var j :| 0 <= j < |es2| && Reads(es2[j], table, sk, tk, rk);
      assert es[|es1| + j] == es2[j];
    }
  }

  lemma RelationOfAppend(es1: seq<InEdge>, es2: seq<InEdge>, table: map<int, string>, sk: string, tk: string, base: string)
    requires RelationOf(es1, table, sk, tk, base) || RelationOf(es2, table, sk, tk, base)
    ensures RelationOf(es1 + es2, table, sk, tk, base)
  {
    var es := es1 + es2;
    if RelationOf(es2, table, sk, tk, base) {
      var j :| 0 <= j < |es2| && Reads(es2[j], table, sk, tk, Text.Lower(base)) && GraphMerge.Sanitize(es2[j].relation) == base;
      assert es[|es1| + j] == es2[j];
    } else {
      var j :| 0 <= j < |es1| && Reads(es1[j], table, sk, tk, Text.Lower(base)) && GraphMerge.Sanitize(es1[j].relation) == base;
      assert es[j] == es1[j];
    }
  }

  /** The documents recorded on the edges after two runs of rows. */
  lemma ComposeDocs(ents: seq<DocEntity>, a: seq<DocEdge>, b: seq<DocEdge>, c: seq<DocEdge>, es1: seq<InEdge>, es2: seq<InEdge>, table: map<int, string>, d: nat)
    requires EdgesStep(ents, a, b, es1, table, d) && EdgesStep(ents, b, c, es2, table, d)
    ensures forall k, x :: 0 <= k < |c| ==>
      (x in c[k].docs <==>
         (k < |a| && x in a[k].docs)
         || (x == d && ReadIn(es1 + es2, table, ents[c[k].source].key, ents[c[k].target].key, c[k].key)))
  {
    forall k, x | 0 <= k < |c|
      ensures x in c[k].docs <==>
         (k < |a| && x in a[k].docs)
         || (x == d && ReadIn(es1 + es2, table, ents[c[k].source].key, ents[c[k].target].key, c[k].key))
    {
      ReadInAppend(es1, es2, table, ents[c[k].source].key, ents[c[k].target].key, c[k].key);
      if k < |b| {
        assert SameEdge(c[k], b[k]);
      }
    }
  }

  /** The labels of new edges and the rows covered after two runs of rows. */
  lemma ComposeNew(ents: seq<DocEntity>, a: seq<DocEdge>, b: seq<DocEdge>, c: seq<DocEdge>, es1: seq<InEdge>, es2: seq<InEdge>, table: map<int, string>, d: nat)
    requires EdgesStep(ents, a, b, es1, table, d) && EdgesStep(ents, b, c, es2, table, d)
    ensures forall k :: |a| <= k < |c| ==>
      RelationOf(es1 + es2, table, ents[c[k].source].key, ents[c[k].target].key, c[k].base)
    ensures forall j :: 0 <= j < |es1 + es2| && (es1 + es2)[j].source in table && (es1 + es2)[j].target in table ==>
      Covered(ents, c, (es1 + es2)[j], table)
  {
    forall k | |a| <= k < |c|
      ensures RelationOf(es1 + es2, table, ents[c[k].source].key, ents[c[k].target].key, c[k].base)
    {
      if k < |b| {
        assert SameEdge(c[k], b[k]) && c[k].base == b[k].base;
      }
      RelationOfAppend(es1, es2, table, ents[c[k].source].key, ents[c[k].target].key, c[k].base);
    }
    var es := es1 + es2;
    forall j | 0 <= j < |es| && es[j].source in table && es[j].target in table
      ensures Covered(ents, c, es[j], table)
    {
      if j < |es1| {
        assert es[j] == es1[j];
        assert Covered(ents, b, es1[j], table);
        var k :| 0 <= k < |b| && b[k].source < |ents| && b[k].target < |ents|
          && Reads(es1[j], table, ents[b[k].source].key, ents[b[k].target].key, b[k].key);
        assert SameEdge(c[k], b[k]);
      } else {
        assert es[j] == es2[j - |es1|];
      }
    }
  }

  lemma EdgesCompose(ents: seq<DocEntity>, a: seq<DocEdge>, b: seq<DocEdge>, c: seq<DocEdge>, es1: seq<InEdge>, es2: seq<InEdge>, table: map<int, string>, d: nat)
    requires EdgesStep(ents, a, b, es1, table, d) && EdgesStep(ents, b, c, es2, table, d)
    ensures EdgesStep(ents, a, c, es1 + es2, table, d)
  {
    ComposeDocs(ents, a, b, c, es1, es2, table, d);
    ComposeNew(ents, a, b, c, es1, es2, table, d);
    assert forall k :: 0 <= k < |a| ==> SameEdge(c[k], b[k]) && c[k].base == b[k].base;
  }

  /** The edge loop of a document, when it succeeds, is an edge step over all its rows. */
  lemma {:induction false} AddDocEdgesStep(ents: seq<DocEntity>, edges: seq<DocEdge>, es: seq<InEdge>, table: map<int, string>, d: nat)
    requires EntsOk(ents) && EdgesOk(edges, |ents|, d + 1)
    ensures AddDocEdges(ents, edges, es, table, d).Success? ==>
      EdgesStep(ents, edges, AddDocEdges(ents, edges, es, table, d).value, es, table, d)
    decreases |es|
  {
    if es == [] {
    } else {
      var e := es[0];
      assert es == [e] + es[1..];
      if e.source !in table || e.target !in table {
        AddDocEdgesStep(ents, edges, es[1..], table, d);
        if AddDocEdges(ents, edges, es, table, d).Success? {
          SkipEdgeStep(ents, edges, e, table, d);
          EdgesCompose(ents, edges, edges, AddDocEdges(ents, edges, es, table, d).value, [e], es[1..], table, d);
        }
      } else {
        var s := Seqs.FindKey(ents, DocKey, Text.Lower(table[e.source]));
        var t := Seqs.FindKey(ents, DocKey, Text.Lower(table[e.target]));
        if s < |ents| && t < |ents| {
          var base := GraphMerge.Sanitize(e.relation);
          var k := FindEdge(edges, s, t, Text.Lower(base));
          var edges' :=
            if k < |edges| then edges[k := edges[k].(docs := GraphMerge.AddOnce(edges[k].docs, d))]
            else edges + [DocEdge(s, t, Text.Lower(base), base, [d])];
          AddEdgeStep(ents, edges, e, table, d);
          AddDocEdgesStep(ents, edges', es[1..], table, d);
          if AddDocEdges(ents, edges, es, table, d).Success? {
            EdgesCompose(ents, edges, edges', AddDocEdges(ents, edges, es, table, d).value, [e], es[1..], table, d);
          }
        }
      }
    }
  }

  /** The documents with an edge row reading as (`sk`, `tk`, `rk`). */
  function EdgeDocSet(gs: seq<Graph>, sk: string, tk: string, rk: string): set<nat> {
    set x: nat | x < |gs| && ReadIn(gs[x].edges, LabelTable(gs[x].nodes), sk, tk, rk)
  }

  /**
    The edges of `lib` are those of documents `gs`: each records exactly the
    documents with a row reading as its keys, takes its label from such a row, and
    every row whose endpoints its document's table knows has an edge.
  */
  ghost predicate EdgesExact(lib: Library, gs: seq<Graph>) {
    && EdgesOk(lib.edges, |lib.ents|, |gs|)
    && (forall k :: 0 <= k < |lib.edges| ==>
          Elems(lib.edges[k].docs)
          == EdgeDocSet(gs, lib.ents[lib.edges[k].source].key, lib.ents[lib.edges[k].target].key, lib.edges[k].key))
    && (forall k :: 0 <= k < |lib.edges| ==>
          exists x :: 0 <= x < |gs| && RelationOf(gs[x].edges, LabelTable(gs[x].nodes),
            lib.ents[lib.edges[k].source].key, lib.ents[lib.edges[k].target].key, lib.edges[k].base))
    && (forall x, j ::
          0 <= x < |gs| && 0 <= j < |gs[x].edges| && gs[x].edges[j].source in LabelTable(gs[x].nodes)
          && gs[x].edges[j].target in LabelTable(gs[x].nodes) ==>
          Covered(lib.ents, lib.edges, gs[x].edges[j], LabelTable(gs[x].nodes)))
  }

  /** A row read as the keys of an edge added after `old` was not covered by `old`. */
  lemma NewEdgeUnread(a: seq<DocEntity>, ents: seq<DocEntity>, prior: seq<DocEdge>, edges: seq<DocEdge>, es: seq<InEdge>, table: map<int, string>, m: nat, k: nat)
    requires EntsOk(ents) && Kept(a, ents) && EdgesOk(edges, |ents|, m) && EdgesKept(prior, edges) && |prior| <= k < |edges|
    requires forall j :: 0 <= j < |es| && es[j].source in table && es[j].target in table ==> Covered(a, prior, es[j], table)
    ensures !ReadIn(es, table, ents[edges[k].source].key, ents[edges[k].target].key, edges[k].key)
  {
    var sk, tk, rk := ents[edges[k].source].key, ents[edges[k].target].key, edges[k].key;
    if ReadIn(es, table, sk, tk, rk) {
      var j :| 0 <= j < |es| && Reads(es[j], table, sk, tk, rk);
      assert Covered(a, prior, es[j], table);
      var k' :| 0 <= k' < |prior| && prior[k'].source < |a| && prior[k'].target < |a|
        && Reads(es[j], table, a[prior[k'].source].key, a[prior[k'].target].key, prior[k'].key);
      KeyedSame(ents, edges[k'].source, edges[k].source);
      KeyedSame(ents, edges[k'].target, edges[k].target);
      SameEdgeSame(edges, |ents|, m, k', k);
      assert false;
    }
  }

  /** No earlier document reads as the keys of an edge the last document added. */
  lemma NewEdgeNotEarlier(lib: Library, ents: seq<DocEntity>, edges: seq<DocEdge>, gs: seq<Graph>, k: nat)
    requires |gs| >= 1 && EdgesExact(lib, gs[..|gs| - 1])
    requires EntsOk(ents) && Kept(lib.ents, ents) && EdgesOk(edges, |ents|, |gs|) && EdgesKept(lib.edges, edges)
    requires |lib.edges| <= k < |edges|
    ensures forall x :: 0 <= x < |gs| - 1 ==>
      !ReadIn(gs[x].edges, LabelTable(gs[x].nodes), ents[edges[k].source].key, ents[edges[k].target].key, edges[k].key)
  {
    var p := gs[..|gs| - 1];
    forall x | 0 <= x < |gs| - 1
      ensures !ReadIn(gs[x].edges, LabelTable(gs[x].nodes), ents[edges[k].source].key, ents[edges[k].target].key, edges[k].key)
    {
      Seqs.TakeIndex(gs, |gs| - 1, x);
      NewEdgeUnread(lib.ents, ents, lib.edges, edges, gs[x].edges, LabelTable(gs[x].nodes), |gs|, k);
    }
  }

  /** One edge's documents after the last document, from its documents before. */
  lemma EdgeDocsOne(gs: seq<Graph>, sk: string, tk: string, rk: string, docs: seq<nat>, prev: seq<nat>, isNew: bool)
    requires |gs| >= 1
    requires forall x :: x in docs <==>
      (!isNew && x in prev) || (x == |gs| - 1 && ReadIn(gs[|gs| - 1].edges, LabelTable(gs[|gs| - 1].nodes), sk, tk, rk))
    requires !isNew ==> Elems(prev) == EdgeDocSet(gs[..|gs| - 1], sk, tk, rk)
    requires isNew ==> forall x :: 0 <= x < |gs| - 1 ==> !ReadIn(gs[x].edges, LabelTable(gs[x].nodes), sk, tk, rk)
    ensures Elems(docs) == EdgeDocSet(gs, sk, tk, rk)
  {
    var n := |gs| - 1;
    var p := gs[..n];
    forall x: nat ensures x in docs <==> x in EdgeDocSet(gs, sk, tk, rk) {
      if x < n {
        Seqs.TakeIndex(gs, n, x);
        if !isNew {
          assert x in prev <==> x in Elems(prev);
        }
      } else if x == n && !isNew {
        assert x !in EdgeDocSet(p, sk, tk, rk);
        assert x !in Elems(prev);
      } else if x > n && !isNew {
        assert x !in EdgeDocSet(p, sk, tk, rk);
        assert x !in Elems(prev);
      }
    }
  }

  /** The documents of the edges after the last document, from those of the documents before. */
  lemma EdgeDocsStep(lib: Library, ents: seq<DocEntity>, edges: seq<DocEdge>, gs: seq<Graph>)
    requires |gs| >= 1 && EdgesExact(lib, gs[..|gs| - 1])
    requires NodesStep(lib.ents, ents, Keys(gs[|gs| - 1].nodes), |gs| - 1)
    requires EdgesStep(ents, lib.edges, edges, gs[|gs| - 1].edges, LabelTable(gs[|gs| - 1].nodes), |gs| - 1)
    ensures forall k :: 0 <= k < |edges| ==>
      Elems(edges[k].docs) == EdgeDocSet(gs, ents[edges[k].source].key, ents[edges[k].target].key, edges[k].key)
  {
    forall k | 0 <= k < |edges|
      ensures Elems(edges[k].docs) == EdgeDocSet(gs, ents[edges[k].source].key, ents[edges[k].target].key, edges[k].key)
    {
      var sk, tk, rk := ents[edges[k].source].key, ents[edges[k].target].key, edges[k].key;
      if k < |lib.edges| {
        assert SameEdge(edges[k], lib.edges[k]);
        assert lib.ents[lib.edges[k].source].key == sk && lib.ents[lib.edges[k].target].key == tk;
        EdgeDocsOne(gs, sk, tk, rk, edges[k].docs, lib.edges[k].docs, false);
      } else {
        NewEdgeNotEarlier(lib, ents, edges, gs, k);
        EdgeDocsOne(gs, sk, tk, rk, edges[k].docs, [], true);
      }
    }
  }

  /** The edges after the last document take their labels from rows. */
  lemma EdgeLabelsStep(lib: Library, ents: seq<DocEntity>, edges: seq<DocEdge>, gs: seq<Graph>)
    requires |gs| >= 1 && EdgesExact(lib, gs[..|gs| - 1])
    requires Kept(lib.ents, ents)
    requires EdgesStep(ents, lib.edges, edges, gs[|gs| - 1].edges, LabelTable(gs[|gs| - 1].nodes), |gs| - 1)
    ensures forall k :: 0 <= k < |edges| ==>
      exists x :: 0 <= x < |gs| && RelationOf(gs[x].edges, LabelTable(gs[x].nodes),
        ents[edges[k].source].key, ents[edges[k].target].key, edges[k].base)
  {
    var n := |gs| - 1;
    forall k | 0 <= k < |edges|
      ensures exists x :: 0 <= x < |gs| && RelationOf(gs[x].edges, LabelTable(gs[x].nodes),
        ents[edges[k].source].key, ents[edges[k].target].key, edges[k].base)
    {
      var sk, tk := ents[edges[k].source].key, ents[edges[k].target].key;
      if k < |lib.edges| {
        assert SameEdge(edges[k], lib.edges[k]) && edges[k].base == lib.edges[k].base;
        assert lib.ents[lib.edges[k].source].key == sk && lib.ents[lib.edges[k].target].key == tk;
        EarlierRelation(gs, n, sk, tk, edges[k].base);
      } else {
        assert RelationOf(gs[n].edges, LabelTable(gs[n].nodes),
          ents[edges[k].source].key, ents[edges[k].target].key, edges[k].base);
      }
    }
  }

  /** A relation found in the first `n` documents is found among all of them. */
  lemma EarlierRelation(gs: seq<Graph>, n: nat, sk: string, tk: string, base: string)
    requires n <= |gs|
    requires exists x :: 0 <= x < n && RelationOf(gs[..n][x].edges, LabelTable(gs[..n][x].nodes), sk, tk, base)
    ensures exists x :: 0 <= x < |gs| && RelationOf(gs[x].edges, LabelTable(gs[x].nodes), sk, tk, base)
  {
    var x :| 0 <= x < n && RelationOf(gs[..n][x].edges, LabelTable(gs[..n][x].nodes), sk, tk, base);
    Seqs.TakeIndex(gs, n, x);
  }

  /** Rows covered by edges over `a` stay covered once the entities and edges are kept and extended. */
  lemma CoveredKept(a: seq<DocEntity>, ents: seq<DocEntity>, prior: seq<DocEdge>, edges: seq<DocEdge>, es: seq<InEdge>, table: map<int, string>)
    requires Kept(a, ents) && EdgesKept(prior, edges)
    requires forall j :: 0 <= j < |es| && es[j].source in table && es[j].target in table ==> Covered(a, prior, es[j], table)
    ensures forall j :: 0 <= j < |es| && es[j].source in table && es[j].target in table ==> Covered(ents, edges, es[j], table)
  {
    forall j | 0 <= j < |es| && es[j].source in table && es[j].target in table
      ensures Covered(ents, edges, es[j], table)
    {
      assert Covered(a, prior, es[j], table);
      var k :| 0 <= k < |prior| && prior[k].source < |a| && prior[k].target < |a|
        && Reads(es[j], table, a[prior[k].source].key, a[prior[k].target].key, prior[k].key);
      assert SameEdge(edges[k], prior[k]);
    }
  }

  /** Every row of every document is covered after the last document. */
  lemma EdgeCoverStep(lib: Library, ents: seq<DocEntity>, edges: seq<DocEdge>, gs: seq<Graph>)
    requires |gs| >= 1 && EdgesExact(lib, gs[..|gs| - 1])
    requires Kept(lib.ents, ents)
    requires EdgesStep(ents, lib.edges, edges, gs[|gs| - 1].edges, LabelTable(gs[|gs| - 1].nodes), |gs| - 1)
    ensures forall x, j ::
      0 <= x < |gs| && 0 <= j < |gs[x].edges| && gs[x].edges[j].source in LabelTable(gs[x].nodes)
      && gs[x].edges[j].target in LabelTable(gs[x].nodes) ==>
      Covered(ents, edges, gs[x].edges[j], LabelTable(gs[x].nodes))
  {
    var n := |gs| - 1;
    CoverPrefix(lib.ents, ents, lib.edges, edges, gs, gs[..n], n);
    CoverWith(ents, edges, gs, gs[n]);
  }

  /** Coverage of the documents before the last and of the last is coverage of all. */
  lemma CoverWith(ents: seq<DocEntity>, edges: seq<DocEdge>, gs: seq<Graph>, last: Graph)
    requires |gs| >= 1 && last == gs[|gs| - 1]
    requires forall x, j ::
      0 <= x < |gs| - 1 && 0 <= j < |gs[x].edges| && gs[x].edges[j].source in LabelTable(gs[x].nodes)
      && gs[x].edges[j].target in LabelTable(gs[x].nodes) ==>
      Covered(ents, edges, gs[x].edges[j], LabelTable(gs[x].nodes))
    requires forall j ::
      0 <= j < |last.edges| && last.edges[j].source in LabelTable(last.nodes)
      && last.edges[j].target in LabelTable(last.nodes) ==>
      Covered(ents, edges, last.edges[j], LabelTable(last.nodes))
    ensures forall x, j ::
      0 <= x < |gs| && 0 <= j < |gs[x].edges| && gs[x].edges[j].source in LabelTable(gs[x].nodes)
      && gs[x].edges[j].target in LabelTable(gs[x].nodes) ==>
      Covered(ents, edges, gs[x].edges[j], LabelTable(gs[x].nodes))
  {
    forall x | 0 <= x < |gs|
      ensures forall j ::
        0 <= j < |gs[x].edges| && gs[x].edges[j].source in LabelTable(gs[x].nodes)
        && gs[x].edges[j].target in LabelTable(gs[x].nodes) ==>
        Covered(ents, edges, gs[x].edges[j], LabelTable(gs[x].nodes))
    {
      if x == |gs| - 1 {
        assert gs[x] == last;
      }
    }
  }

  /** Coverage of the rows of the first `n` documents survives growing the entities and edges. */
  lemma CoverPrefix(a: seq<DocEntity>, ents: seq<DocEntity>, prior: seq<DocEdge>, edges: seq<DocEdge>, gs: seq<Graph>, p: seq<Graph>, n: nat)
    requires n <= |gs| && p == gs[..n]
    requires Kept(a, ents) && EdgesKept(prior, edges)
    requires forall x, j ::
      0 <= x < |p| && 0 <= j < |p[x].edges| && p[x].edges[j].source in LabelTable(p[x].nodes)
      && p[x].edges[j].target in LabelTable(p[x].nodes) ==>
      Covered(a, prior, p[x].edges[j], LabelTable(p[x].nodes))
    ensures forall x, j ::
      0 <= x < n && 0 <= j < |gs[x].edges| && gs[x].edges[j].source in LabelTable(gs[x].nodes)
      && gs[x].edges[j].target in LabelTable(gs[x].nodes) ==>
      Covered(ents, edges, gs[x].edges[j], LabelTable(gs[x].nodes))
  {
    forall x | 0 <= x < n
      ensures forall j ::
        0 <= j < |gs[x].edges| && gs[x].edges[j].source in LabelTable(gs[x].nodes)
        && gs[x].edges[j].target in LabelTable(gs[x].nodes) ==>
        Covered(ents, edges, gs[x].edges[j], LabelTable(gs[x].nodes))
    {
      Seqs.TakeIndex(gs, n, x);
      CoveredKept(a, ents, prior, edges, gs[x].edges, LabelTable(gs[x].nodes));
    }
  }

  /** Adding the last document keeps the edges exact. */
  lemma AddDocEdgesExact(lib: Library, gs: seq<Graph>)
    requires |gs| >= 1 && Exact(lib, gs[..|gs| - 1]) && EdgesExact(lib, gs[..|gs| - 1])
    ensures AddDoc(lib, gs[|gs| - 1], |gs| - 1).Success? ==> EdgesExact(AddDoc(lib, gs[|gs| - 1], |gs| - 1).value, gs)
  {
    var n := |gs| - 1;
    var g := gs[n];
    var ents := AddDocNodes(lib.ents, g.nodes, n);
    AddDocNodesStep(lib.ents, g.nodes, n);
    assert EdgesOk(lib.edges, |ents|, n + 1);
    AddDocEdgesStep(ents, lib.edges, g.edges, LabelTable(g.nodes), n);
    var r := AddDocEdges(ents, lib.edges, g.edges, LabelTable(g.nodes), n);
    if r.Success? {
      EdgeDocsStep(lib, ents, r.value, gs);
      EdgeLabelsStep(lib, ents, r.value, gs);
      EdgeCoverStep(lib, ents, r.value, gs);
    }
  }

  lemma {:induction false} MergeDocsEdges(gs: seq<Graph>)
    ensures MergeDocs(gs).Success? ==> EdgesExact(MergeDocs(gs).value, gs)
    decreases |gs|
  {
    if gs != [] {
      var p := gs[..|gs| - 1];
      MergeDocsEdges(p);
      MergeDocsExact(p);
      if MergeDocs(p).Success? {
        AddDocEdgesExact(MergeDocs(p).value, gs);
      }
    }
  }

  /** The reference list of documents with an edge row reading as (`sk`, `tk`, `rk`), ascending. */
  function EdgeDocsOf(gs: seq<Graph>, sk: string, tk: string, rk: string): seq<nat> {
    Positions(gs, (g: Graph) => ReadIn(g.edges, LabelTable(g.nodes), sk, tk, rk))
  }

  /**
    An edge label between nodes with keys `sk` and `tk`: a first-seen relation label
    without `|`, then exactly the documents with a row reading as it, ascending.
  */
  predicate EdgeLabelled(name: string, gs: seq<Graph>, sk: string, tk: string) {
    var b := Head(name);
    '|' !in b && name == Tag(b, EdgeDocsOf(gs, sk, tk, Text.Lower(b)))
  }

  /** The lower-cased first-seen label of an output node. */
  function NodeKey(nodes: seq<GraphMerge.OutNode>, i: nat): string
    requires i < |nodes|
  {
    Text.Lower(Head(nodes[i].name))
  }

  /** An edge's documents, when they are those reading as it, print as the reference list. */
  lemma EdgeDocNumbers(gs: seq<Graph>, docs: seq<nat>, sk: string, tk: string, rk: string)
    requires Elems(docs) == EdgeDocSet(gs, sk, tk, rk)
    ensures DocNumbers(docs) == DocNumbers(EdgeDocsOf(gs, sk, tk, rk))
  {
    forall y: nat ensures y in docs <==> y in EdgeDocsOf(gs, sk, tk, rk) {
      assert y in docs <==> y in EdgeDocSet(gs, sk, tk, rk);
      PositionsMembers(gs, (g: Graph) => ReadIn(g.edges, LabelTable(g.nodes), sk, tk, rk), y);
    }
    SameDocNumbers(docs, EdgeDocsOf(gs, sk, tk, rk));
  }

  /** An edge that some row reads as has a document. */
  lemma EdgeDocsNonEmpty(gs: seq<Graph>, e: DocEdge, sk: string, tk: string)
    requires e.key == Text.Lower(e.base)
    requires Elems(e.docs) == EdgeDocSet(gs, sk, tk, e.key)
    requires exists x :: 0 <= x < |gs| && RelationOf(gs[x].edges, LabelTable(gs[x].nodes), sk, tk, e.base)
    ensures e.docs != []
  {
    var x :| 0 <= x < |gs| && RelationOf(gs[x].edges, LabelTable(gs[x].nodes), sk, tk, e.base);
    var es, table := gs[x].edges, LabelTable(gs[x].nodes);
    var j :| 0 <= j < |es| && Reads(es[j], table, sk, tk, Text.Lower(e.base)) && GraphMerge.Sanitize(es[j].relation) == e.base;
    assert ReadIn(es, table, sk, tk, e.key);
    ReadDocsNonEmpty(gs, e.docs, sk, tk, e.key, x);
  }

  /** Documents equal to the set of those reading as some keys, one of which does, are not empty. */
  lemma ReadDocsNonEmpty(gs: seq<Graph>, docs: seq<nat>, sk: string, tk: string, rk: string, x: nat)
    requires x < |gs| && ReadIn(gs[x].edges, LabelTable(gs[x].nodes), sk, tk, rk)
    requires Elems(docs) == EdgeDocSet(gs, sk, tk, rk)
    ensures docs != []
  {
    assert x in EdgeDocSet(gs, sk, tk, rk);
    assert x in Elems(docs);
  }

  /** The label of an edge joining keys `sk` and `tk` whose documents are those reading as it. */
  lemma EdgeTag(gs: seq<Graph>, e: DocEdge, sk: string, tk: string)
    requires '|' !in e.base && e.key == Text.Lower(e.base)
    requires Elems(e.docs) == EdgeDocSet(gs, sk, tk, e.key)
    requires exists x :: 0 <= x < |gs| && RelationOf(gs[x].edges, LabelTable(gs[x].nodes), sk, tk, e.base)
    ensures Head(Tag(e.base, e.docs)) == e.base
    ensures EdgeLabelled(Tag(e.base, e.docs), gs, sk, tk)
  {
    EdgeDocsNonEmpty(gs, e, sk, tk);
    TagSplit(e.base, e.docs);
    EdgeDocNumbers(gs, e.docs, sk, tk, e.key);
  }

  /** Output edge `k` shows library edge `k`: its label and endpoint keys. */
  lemma OutputEdge(gs: seq<Graph>, lib: Library, k: nat)
    requires Exact(lib, gs) && EdgesExact(lib, gs) && k < |lib.edges|
    ensures Output(lib).1[k].source == lib.edges[k].source && Output(lib).1[k].target == lib.edges[k].target
    ensures Head(Output(lib).1[k].relation) == lib.edges[k].base
    ensures Text.Lower(Head(Output(lib).1[k].relation)) == lib.edges[k].key
    ensures NodeKey(Output(lib).0, lib.edges[k].source) == lib.ents[lib.edges[k].source].key
    ensures NodeKey(Output(lib).0, lib.edges[k].target) == lib.ents[lib.edges[k].target].key
    ensures EdgeLabelled(Output(lib).1[k].relation, gs,
      lib.ents[lib.edges[k].source].key, lib.ents[lib.edges[k].target].key)
  {
    var e := lib.edges[k];
    EdgeTag(gs, e, lib.ents[e.source].key, lib.ents[e.target].key);
    NodeKeyIs(gs, lib, e.source);
    NodeKeyIs(gs, lib, e.target);
  }

  /** Output node `i` has the key of entity `i`. */
  lemma NodeKeyIs(gs: seq<Graph>, lib: Library, i: nat)
    requires Exact(lib, gs) && i < |lib.ents|
    ensures NodeKey(Output(lib).0, i) == lib.ents[i].key
  {
    EntityLabel(gs, lib, i);
  }

  /**
    Each merged edge's label is a first-seen relation label followed by exactly the
    documents with a row joining the same two node keys under that relation, and that
    label is the sanitized relation of such a row.
  */
  lemma MergeAllEdgeLabels(gs: seq<Graph>)
    requires MergeAll(gs).Success?
    ensures var r := MergeAll(gs).value;
      forall j :: 0 <= j < |r.1| ==>
        EdgeLabelled(r.1[j].relation, gs, NodeKey(r.0, r.1[j].source), NodeKey(r.0, r.1[j].target))
    ensures var r := MergeAll(gs).value;
      forall j :: 0 <= j < |r.1| ==>
        exists x :: 0 <= x < |gs| && RelationOf(gs[x].edges, LabelTable(gs[x].nodes),
          NodeKey(r.0, r.1[j].source), NodeKey(r.0, r.1[j].target), Head(r.1[j].relation))
  {
    MergeDocsExact(gs);
    MergeDocsEdges(gs);
    var lib := MergeDocs(gs).value;
    var r := Output(lib);
    assert MergeAll(gs).value == r;
    OutputEdgeLabels(gs, lib);
    OutputEdgeRelations(gs, lib);
  }

  /** Output edge labels name the matching documents. */
  lemma OutputEdgeLabels(gs: seq<Graph>, lib: Library)
    requires Exact(lib, gs) && EdgesExact(lib, gs)
    ensures var r := Output(lib);
      forall j :: 0 <= j < |r.1| ==>
        EdgeLabelled(r.1[j].relation, gs, NodeKey(r.0, r.1[j].source), NodeKey(r.0, r.1[j].target))
  {
    var r := Output(lib);
    forall j | 0 <= j < |r.1|
      ensures EdgeLabelled(r.1[j].relation, gs, NodeKey(r.0, r.1[j].source), NodeKey(r.0, r.1[j].target))
    {
      OutputEdge(gs, lib, j);
    }
  }

  /** Some document has a row joining `sk` to `tk` whose sanitized relation is `base`. */
  ghost predicate FromSomeRow(gs: seq<Graph>, sk: string, tk: string, base: string) {
    exists x :: 0 <= x < |gs| && RelationOf(gs[x].edges, LabelTable(gs[x].nodes), sk, tk, base)
  }

  /** The relation of an output edge comes from a row joining its node keys. */
  lemma OutputEdgeRelations(gs: seq<Graph>, lib: Library)
    requires Exact(lib, gs) && EdgesExact(lib, gs)
    ensures var r := Output(lib);
      forall j :: 0 <= j < |r.1| ==>
        FromSomeRow(gs, NodeKey(r.0, r.1[j].source), NodeKey(r.0, r.1[j].target), Head(r.1[j].relation))
  {
    var r := Output(lib);
    forall j | 0 <= j < |r.1|
      ensures FromSomeRow(gs, NodeKey(r.0, r.1[j].source), NodeKey(r.0, r.1[j].target), Head(r.1[j].relation))
    {
      OutputEdge(gs, lib, j);
      var e := lib.edges[j];
      assert FromSomeRow(gs, lib.ents[e.source].key, lib.ents[e.target].key, e.base);
    }
  }

  /**
    Every edge row whose endpoints its document knows has a merged edge joining the
    same node keys under the same lower-cased relation.
  */
  lemma MergeAllEdgesCover(gs: seq<Graph>)
    requires MergeAll(gs).Success?
    ensures var r := MergeAll(gs).value;
      forall x, j ::
        0 <= x < |gs| && 0 <= j < |gs[x].edges| && gs[x].edges[j].source in LabelTable(gs[x].nodes)
        && gs[x].edges[j].target in LabelTable(gs[x].nodes) ==>
        exists k :: 0 <= k < |r.1| && Reads(gs[x].edges[j], LabelTable(gs[x].nodes),
          NodeKey(r.0, r.1[k].source), NodeKey(r.0, r.1[k].target), Text.Lower(Head(r.1[k].relation)))
  {
    MergeDocsExact(gs);
    MergeDocsEdges(gs);
    var lib := MergeDocs(gs).value;
    var r := Output(lib);
    assert MergeAll(gs).value == r;
    forall x, j |
      0 <= x < |gs| && 0 <= j < |gs[x].edges| && gs[x].edges[j].source in LabelTable(gs[x].nodes)
      && gs[x].edges[j].target in LabelTable(gs[x].nodes)
      ensures exists k :: 0 <= k < |r.1| && Reads(gs[x].edges[j], LabelTable(gs[x].nodes),
          NodeKey(r.0, r.1[k].source), NodeKey(r.0, r.1[k].target), Text.Lower(Head(r.1[k].relation)))
    {
      RowCovered(gs, lib, gs[x].edges[j], LabelTable(gs[x].nodes));
    }
  }

  /** A row covered by the library is covered by its output edges. */
  lemma RowCovered(gs: seq<Graph>, lib: Library, e: InEdge, table: map<int, string>)
    requires Exact(lib, gs) && EdgesExact(lib, gs) && Covered(lib.ents, lib.edges, e, table)
    ensures exists k :: 0 <= k < |Output(lib).1| && Reads(e, table,
      NodeKey(Output(lib).0, Output(lib).1[k].source), NodeKey(Output(lib).0, Output(lib).1[k].target),
      Text.Lower(Head(Output(lib).1[k].relation)))
  {
    var k :| 0 <= k < |lib.edges| && lib.edges[k].source < |lib.ents| && lib.edges[k].target < |lib.ents|
      && Reads(e, table, lib.ents[lib.edges[k].source].key, lib.ents[lib.edges[k].target].key, lib.edges[k].key);
    OutputEdge(gs, lib, k);
  }

  /** No two merged edges share source, target and lower-cased relation. */
  lemma MergeAllEdgesDistinct(gs: seq<Graph>)
    requires MergeAll(gs).Success?
    ensures var r := MergeAll(gs).value;
      forall i, j :: 0 <= i < j < |r.1| ==>
        !(r.1[i].source == r.1[j].source && r.1[i].target == r.1[j].target
          && Text.Lower(Head(r.1[i].relation)) == Text.Lower(Head(r.1[j].relation)))
  {
    MergeDocsExact(gs);
    MergeDocsEdges(gs);
    var lib := MergeDocs(gs).value;
    assert MergeAll(gs).value == Output(lib);
    OutputEdgesDistinct(gs, lib);
  }

  /** Output edges keep the library's distinct identities. */
  lemma OutputEdgesDistinct(gs: seq<Graph>, lib: Library)
    requires Exact(lib, gs) && EdgesExact(lib, gs)
    ensures var es := Output(lib).1;
      forall i, j :: 0 <= i < j < |es| ==>
        !(es[i].source == es[j].source && es[i].target == es[j].target
          && Text.Lower(Head(es[i].relation)) == Text.Lower(Head(es[j].relation)))
  {
    var es := Output(lib).1;
    forall i, j | 0 <= i < j < |es|
      ensures !(es[i].source == es[j].source && es[i].target == es[j].target
          && Text.Lower(Head(es[i].relation)) == Text.Lower(Head(es[j].relation)))
    {
      OutputEdge(gs, lib, i);
      OutputEdge(gs, lib, j);
      assert !SameEdge(lib.edges[i], lib.edges[j]);
    }
  }
}
