/**
 * The edge relabelling utilities: `extract_edge_labels`, which lists the distinct labels of a
 * stored graph in sorted order, and `apply_edge_mappings`, which renames edge labels through
 * a table of `old_type -> new_type` entries.
 *
 * Reading the file is a parameter: the model receives what `json.load` produced, or the
 * reason it produced nothing.
 */
module EdgeUtils {
  import opened Wrappers
  import Sorting

  /** An edge; `other` stands for the fields the relabelling never touches (`is_dir`, the
      category). A label can be missing from the stored JSON. */
  datatype Edge<A> = Edge(source: string, target: string, name: Option<string>, other: A)

  datatype Graph<N, A> = Graph(nodes: seq<N>, edges: seq<Edge<A>>)

  /** One entry of `old_to_new_edge_mapping`. */
  datatype Mapping = Mapping(oldType: string, newType: string)

  /** Why relabelling stopped: the edge at this position has no label (a `KeyError`). */
  datatype MappingError = MissingLabel(index: nat)

  /** What reading the graph file gave: no file, text that is not JSON, the JSON `null`, or an
      object whose `edges` entry may be absent. */
  datatype Stored<A> = NoFile | BadJson | NullJson | Object(edges: Option<seq<Edge<A>>>)

  /** The dictionary built from the entries: a later entry for the same `old_type` replaces an
      earlier one. */
  function Lookup(ms: seq<Mapping>, tag: string): (r: Option<string>)
    ensures r.None? <==> forall i :: 0 <= i < |ms| ==> ms[i].oldType != tag
  {
    if ms == [] then None
    else if ms[|ms| - 1].oldType == tag then Some(ms[|ms| - 1].newType)
    else Lookup(ms[..|ms| - 1], tag)
  }

  /** The label an edge ends up with: its mapped value when the table has one, itself otherwise. */
  function Relabel(ms: seq<Mapping>, tag: string): string {
    Lookup(ms, tag).GetOr(tag)
  }

  /** The first edge without a label, if any. */
  function FirstUnlabelled<A>(es: seq<Edge<A>>, from: nat): (r: Option<nat>)
    requires from <= |es|
    ensures r.None? <==> forall i :: from <= i < |es| ==> es[i].name.Some?
    ensures r.Some? ==> from <= r.value < |es| && es[r.value].name.None?
    ensures r.Some? ==> forall i :: from <= i < r.value ==> es[i].name.Some?
    decreases |es| - from
  {
    if from == |es| then None
    else if es[from].name.None? then Some(from)
    else FirstUnlabelled(es, from + 1)
  }

  /** `apply_edge_mappings`: every edge label found in the table is replaced by its new type;
      an edge without a label stops the pass. */
  function ApplyEdgeMappings<N, A>(g: Graph<N, A>, ms: seq<Mapping>): (r: Result<Graph<N, A>, MappingError>)
    ensures r.Failure? <==> exists i :: 0 <= i < |g.edges| && g.edges[i].name.None?
    ensures r.Failure? ==> r.error.index < |g.edges| && g.edges[r.error.index].name.None?
    ensures r.Failure? ==> forall i :: 0 <= i < r.error.index ==> g.edges[i].name.Some?
    ensures r.Success? ==> r.value.nodes == g.nodes && |r.value.edges| == |g.edges|
    ensures r.Success? ==> forall i :: 0 <= i < |g.edges| ==>
      var e, f := g.edges[i], r.value.edges[i];
      f.source == e.source && f.target == e.target && f.other == e.other && f.name.Some?
  {
    match FirstUnlabelled(g.edges, 0)
    case Some(i) => Failure(MissingLabel(i))
    case None =>
      Success(g.(edges := seq(|g.edges|, i requires 0 <= i < |g.edges| =>
        g.edges[i].(name := Some(Relabel(ms, g.edges[i].name.value))))))
  }

  /** The new label of every edge: the `new_type` of the last entry naming its old label, and
      the old label when no entry names it. */
  lemma ApplyEdgeMappingsLabels<N, A>(g: Graph<N, A>, ms: seq<Mapping>, i: nat)
    requires ApplyEdgeMappings(g, ms).Success? && i < |g.edges|
    ensures var l := g.edges[i].name.value;
      var l' := ApplyEdgeMappings(g, ms).value.edges[i].name.value;
      (l' == l && forall j :: 0 <= j < |ms| ==> ms[j].oldType != l) || LastEntry(ms, l, l')
  {
    LookupLast(ms, g.edges[i].name.value);
  }

  /** Some entry maps `tag` to `to`, and no later entry names `tag`. */
  ghost predicate LastEntry(ms: seq<Mapping>, tag: string, to: string) {
    exists j :: 0 <= j < |ms| && ms[j].oldType == tag && ms[j].newType == to && forall k :: j < k < |ms| ==> ms[k].oldType != tag
  }

  /** The value found is that of the last entry with the key. */
  lemma {:induction false} LookupLast(ms: seq<Mapping>, tag: string)
    ensures Lookup(ms, tag).Some? ==> LastEntry(ms, tag, Lookup(ms, tag).value)
  {
    if ms != [] && ms[|ms| - 1].oldType != tag {
      var init := ms[..|ms| - 1];
      LookupLast(init, tag);
      if Lookup(ms, tag).Some? {
        var j :| 0 <= j < |init| && init[j].oldType == tag && init[j].newType == Lookup(ms, tag).value
          && forall k :: j < k < |init| ==> init[k].oldType != tag;
        assert init[j] == ms[j];
        assert forall k :: j < k < |ms| ==> ms[k].oldType != tag by {
          forall k | j < k < |ms| ensures ms[k].oldType != tag {
            if k < |ms| - 1 {
              assert init[k] == ms[k];
            }
          }
        }
      }
    }
  }

  /** An entry appended later overrides every earlier entry for the same old type. */
  lemma LastWins(ms: seq<Mapping>, key: string, a: string, b: string)
    ensures Relabel(ms + [Mapping(key, a)] + [Mapping(key, b)], key) == b
    ensures Relabel([Mapping(key, a), Mapping(key, b)] + ms, key) == b || exists j :: 0 <= j < |ms| && ms[j].oldType == key
  {
    var ms2 := [Mapping(key, a), Mapping(key, b)] + ms;
    if forall j :: 0 <= j < |ms| ==> ms[j].oldType != key {
      LookupLast(ms2, key);
      var j :| 0 <= j < |ms2| && ms2[j].oldType == key && ms2[j].newType == Lookup(ms2, key).value
        && forall k :: j < k < |ms2| ==> ms2[k].oldType != key;
      assert ms2[1].oldType == key;
      assert forall k :: 2 <= k < |ms2| ==> ms2[k] == ms[k - 2];
    }
  }

  /** The table is applied once: a new type that is itself an old type is not mapped again. */
  lemma NotChained(a: string, b: string, c: string)
    requires a != b
    ensures Relabel([Mapping(a, b), Mapping(b, c)], a) == b
    ensures Relabel([Mapping(a, b), Mapping(b, c)], b) == c
  {
    var ms := [Mapping(a, b), Mapping(b, c)];
    assert ms[..|ms| - 1] == [Mapping(a, b)];
    assert Lookup(ms, a) == Lookup([Mapping(a, b)], a) == Some(b);
  }

  /** When no new type is also an old type, relabelling a second time changes nothing. */
  lemma ApplyTwice<N, A>(g: Graph<N, A>, ms: seq<Mapping>)
    requires forall i, j :: 0 <= i < |ms| && 0 <= j < |ms| ==> ms[i].newType != ms[j].oldType
    requires ApplyEdgeMappings(g, ms).Success?
    ensures ApplyEdgeMappings(ApplyEdgeMappings(g, ms).value, ms) == ApplyEdgeMappings(g, ms)
  {
    var r := ApplyEdgeMappings(g, ms).value;
    forall i | 0 <= i < |r.edges|
      ensures Relabel(ms, r.edges[i].name.value) == r.edges[i].name.value
    {
      ApplyEdgeMappingsLabels(g, ms, i);
    }
    assert ApplyEdgeMappings(r, ms).value.edges == r.edges;
  }

  /** The labels an edge list carries, in order. */
  function Labels<A>(es: seq<Edge<A>>): (ls: seq<string>)
    requires forall i :: 0 <= i < |es| ==> es[i].name.Some?
    ensures |ls| == |es| && forall i :: 0 <= i < |es| ==> ls[i] == es[i].name.value
  {
    seq(|es|, i requires 0 <= i < |es| => es[i].name.value)
  }

  /** Some edge of `es` is labelled `l`. */
  ghost predicate Carries<A>(es: seq<Edge<A>>, l: string) {
    exists i :: 0 <= i < |es| && es[i].name == Some(l)
  }

  /** `extract_edge_labels`: the distinct edge labels in sorted order; nothing when the file is
      absent, unreadable, `null`, or an edge has no label. */
  function ExtractEdgeLabels<A>(stored: Stored<A>): (r: Option<seq<string>>)
    ensures r.Some? <==> stored.Object? && (stored.edges.Some? ==> forall i :: 0 <= i < |stored.edges.value| ==> stored.edges.value[i].name.Some?)
    ensures r.Some? ==> Sorting.StrictlySorted(r.value, Sorting.StrLess)
    ensures r.Some? ==> forall l :: l in r.value <==> Carries(stored.edges.GetOr([]), l)
  {
    match stored
    case Object(None) => Some([])
    case Object(Some(es)) =>
      if FirstUnlabelled(es, 0).Some? then None
      else
        var r := Sorting.SortedStrings(Labels(es));
        assert forall l :: l in Labels(es) <==> Carries(es, l) by {
          forall l ensures l in Labels(es) <==> Carries(es, l) {
            if l in Labels(es) {
              var i :| 0 <= i < |es| && Labels(es)[i] == l;
            }
            if Carries(es, l) {
              var i :| 0 <= i < |es| && es[i].name == Some(l);
              assert Labels(es)[i] == l;
            }
          }
        }
        Some(r)
    case _ => None
  }

  /** After relabelling, the extracted labels are exactly the images of the labels before. */
  lemma ExtractAfterMapping<N, A>(g: Graph<N, A>, ms: seq<Mapping>)
    requires ApplyEdgeMappings(g, ms).Success?
    ensures var before := ExtractEdgeLabels(Object(Some(g.edges)));
      var after := ExtractEdgeLabels(Object(Some(ApplyEdgeMappings(g, ms).value.edges)));
      before.Some? && after.Some? && forall y :: y in after.value <==> exists l :: l in before.value && Relabel(ms, l) == y
  {
    var r := ApplyEdgeMappings(g, ms).value;
    var before := ExtractEdgeLabels(Object(Some(g.edges)));
    var after := ExtractEdgeLabels(Object(Some(r.edges)));
    forall y ensures y in after.value <==> exists l :: l in before.value && Relabel(ms, l) == y {
      if y in after.value {
        var i :| 0 <= i < |r.edges| && r.edges[i].name == Some(y);
        assert g.edges[i].name.value in before.value;
      }
      if exists l :: l in before.value && Relabel(ms, l) == y {
        var l :| l in before.value && Relabel(ms, l) == y;
        var i :| 0 <= i < |g.edges| && g.edges[i].name == Some(l);
        assert r.edges[i].name == Some(y);
      }
    }
  }
}
