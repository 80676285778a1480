/**
 * Breadth-first distances over a finite set of nodes and a list of directed arcs, as the viewer
 * computes them from its selected nodes: every start node is at distance 0, and a node first reached
 * while expanding the nodes at distance `d` is at distance `d + 1`.
 *
 * The search is stated level by level. A first-in-first-out queue that starts with the start nodes
 * visits the nodes in order of distance, so it labels every node with the same number. The proved
 * characterization is that a node has a distance exactly when a walk from a start node reaches it,
 * and that the distance is the length of the shortest such walk.
 */
module Reach {

  /** The nodes one arc away from `frontier` that have no distance yet. */
  function Layer<T(!new)>(nodes: set<T>, arcs: seq<(T, T)>, dist: map<T, nat>, frontier: set<T>): (r: set<T>)
    ensures r <= nodes && r !! dist.Keys
    ensures forall a :: a in arcs && a.0 in frontier && a.1 in nodes && a.1 !in dist ==> a.1 in r
    ensures forall v :: v in r ==> exists a :: a in arcs && a.0 in frontier && a.1 == v
  {
    set a | a in arcs && a.0 in frontier && a.1 in nodes && a.1 !in dist :: a.1
  }

  /** Labelling a non-empty set of fresh nodes leaves fewer unlabelled ones. */
  lemma Shrinks<T(!new)>(nodes: set<T>, done: set<T>, next: set<T>)
    requires next != {} && next <= nodes && next !! done
    ensures |nodes - (done + next)| < |nodes - done|
  {
    var x :| x in next;
    var big := nodes - done;
    var rest := nodes - (done + next);
    assert x in big - rest;
    assert big == rest + (big - rest);
    assert rest * (big - rest) == {};
  }

  /** `dist` with every node of `next` labelled `d`. */
  function Label<T(!new)>(dist: map<T, nat>, next: set<T>, d: nat): (r: map<T, nat>)
    ensures r.Keys == dist.Keys + next
    ensures forall v :: v in r ==> r[v] == if v in next then d else dist[v]
  {
    dist + map v | v in next :: d
  }

  /** The distances the search assigns after the level `d` whose nodes are `frontier`. */
  function Expand<T(!new)>(nodes: set<T>, arcs: seq<(T, T)>, dist: map<T, nat>, frontier: set<T>, d: nat): map<T, nat>
    decreases |nodes - dist.Keys|
  {
    var next := Layer(nodes, arcs, dist, frontier);
    if next == {} then dist
    else
      Shrinks(nodes, dist.Keys, next);
      Expand(nodes, arcs, Label(dist, next, d + 1), next, d + 1)
  }

  /** Every node reachable from `roots` with its number of steps from the nearest root. */
  function Distances<T(!new)>(nodes: set<T>, arcs: seq<(T, T)>, roots: set<T>): map<T, nat> {
    Expand(nodes, arcs, map v | v in roots :: 0, roots, 0)
  }

  /** Exactly the roots are at distance 0. */
  ghost predicate Rooted<T(!new)>(roots: set<T>, r: map<T, nat>) {
    && (forall v :: v in roots ==> v in r && r[v] == 0)
    && (forall v :: v in r && r[v] == 0 ==> v in roots)
  }

  /** Every other labelled node is one arc after a node one step nearer. */
  ghost predicate Supported<T(!new)>(nodes: set<T>, arcs: seq<(T, T)>, r: map<T, nat>) {
    forall v :: v in r && r[v] > 0 ==>
      v in nodes && exists a :: a in arcs && a.1 == v && a.0 in r && r[a.0] == r[v] - 1
  }

  /** No arc leads from a labelled node to a node that is unlabelled or more than one step further. */
  ghost predicate Closed<T(!new)>(nodes: set<T>, arcs: seq<(T, T)>, r: map<T, nat>) {
    forall a :: a in arcs && a.0 in r && a.1 in nodes ==> a.1 in r && r[a.1] <= r[a.0] + 1
  }

  /** The search's state after level `d`: the arcs out of every node nearer than `d` are settled. */
  ghost predicate Inv<T(!new)>(nodes: set<T>, arcs: seq<(T, T)>, roots: set<T>, dist: map<T, nat>, frontier: set<T>, d: nat) {
    && Rooted(roots, dist)
    && dist.Keys <= roots + nodes
    && (forall v :: v in dist ==> dist[v] <= d)
    && (forall v :: v in frontier ==> v in dist && dist[v] == d)
    && (forall v :: v in dist && dist[v] == d ==> v in frontier)
    && Supported(nodes, arcs, dist)
    && (forall a :: a in arcs && a.0 in dist && dist[a.0] < d && a.1 in nodes ==>
          a.1 in dist && dist[a.1] <= dist[a.0] + 1)
  }

  lemma InvStart<T(!new)>(nodes: set<T>, arcs: seq<(T, T)>, roots: set<T>)
    ensures Inv(nodes, arcs, roots, map v | v in roots :: 0, roots, 0)
  {
  }

  /** Labelling the next level keeps the invariant, one level further. */
  lemma InvStep<T(!new)>(nodes: set<T>, arcs: seq<(T, T)>, roots: set<T>, dist: map<T, nat>, frontier: set<T>, d: nat)
    requires Inv(nodes, arcs, roots, dist, frontier, d)
    ensures var next := Layer(nodes, arcs, dist, frontier);
      var dist' := Label(dist, next, d + 1);
      && Rooted(roots, dist')
      && dist'.Keys <= roots + nodes
      && (forall v :: v in dist' ==> dist'[v] <= d + 1)
      && (forall v :: v in next ==> v in dist' && dist'[v] == d + 1)
      && (forall v :: v in dist' && dist'[v] == d + 1 ==> v in next)
      && Supported(nodes, arcs, dist')
      && (forall a :: a in arcs && a.0 in dist' && dist'[a.0] < d + 1 && a.1 in nodes ==>
            a.1 in dist' && dist'[a.1] <= dist'[a.0] + 1)
  {
    StepShape(nodes, arcs, roots, dist, frontier, d);
    StepSupported(nodes, arcs, roots, dist, frontier, d);
    StepSettled(nodes, arcs, roots, dist, frontier, d);
  }

  /** The new level is labelled `d + 1` and nothing else changes. */
  lemma StepShape<T(!new)>(nodes: set<T>, arcs: seq<(T, T)>, roots: set<T>, dist: map<T, nat>, frontier: set<T>, d: nat)
    requires Inv(nodes, arcs, roots, dist, frontier, d)
    ensures var next := Layer(nodes, arcs, dist, frontier);
      var dist' := Label(dist, next, d + 1);
      && Rooted(roots, dist')
      && dist'.Keys <= roots + nodes
      && (forall v :: v in dist' ==> dist'[v] <= d + 1)
      && (forall v :: v in next <==> v in dist' && dist'[v] == d + 1)
  {
  }

  /** A node of the new level is one arc after a node of the current one. */
  lemma StepSupported<T(!new)>(nodes: set<T>, arcs: seq<(T, T)>, roots: set<T>, dist: map<T, nat>, frontier: set<T>, d: nat)
    requires Inv(nodes, arcs, roots, dist, frontier, d)
    ensures Supported(nodes, arcs, Label(dist, Layer(nodes, arcs, dist, frontier), d + 1))
  {
    var next := Layer(nodes, arcs, dist, frontier);
    var dist' := Label(dist, next, d + 1);
    forall v | v in dist' && dist'[v] > 0
      ensures v in nodes && exists a :: a in arcs && a.1 == v && a.0 in dist' && dist'[a.0] == dist'[v] - 1
    {
      if v in next {
        var a :| a in arcs && a.0 in frontier && a.1 == v;
        assert a.0 in dist' && dist'[a.0] == d;
      } else {
        var a :| a in arcs && a.1 == v && a.0 in dist && dist[a.0] == dist[v] - 1;
        assert a.0 in dist';
      }
    }
  }

  /** The arcs out of the current level now lead to labelled nodes at most one step further. */
  lemma StepSettled<T(!new)>(nodes: set<T>, arcs: seq<(T, T)>, roots: set<T>, dist: map<T, nat>, frontier: set<T>, d: nat)
    requires Inv(nodes, arcs, roots, dist, frontier, d)
    ensures var dist' := Label(dist, Layer(nodes, arcs, dist, frontier), d + 1);
      forall a :: a in arcs && a.0 in dist' && dist'[a.0] < d + 1 && a.1 in nodes ==>
        a.1 in dist' && dist'[a.1] <= dist'[a.0] + 1
  {
    var next := Layer(nodes, arcs, dist, frontier);
    var dist' := Label(dist, next, d + 1);
    forall a | a in arcs && a.0 in dist' && dist'[a.0] < d + 1 && a.1 in nodes
      ensures a.1 in dist' && dist'[a.1] <= dist'[a.0] + 1
    {
      assert a.0 in dist;
      if dist[a.0] == d && a.1 !in dist {
        assert a.1 in next;
      }
    }
  }

  /** With no new level, the arcs out of the last level are settled too. */
  lemma InvDone<T(!new)>(nodes: set<T>, arcs: seq<(T, T)>, roots: set<T>, dist: map<T, nat>, frontier: set<T>, d: nat)
    requires Inv(nodes, arcs, roots, dist, frontier, d)
    requires Layer(nodes, arcs, dist, frontier) == {}
    ensures Closed(nodes, arcs, dist)
  {
    forall a | a in arcs && a.0 in dist && a.1 in nodes
      ensures a.1 in dist && dist[a.1] <= dist[a.0] + 1
    {
    }
  }

  lemma {:induction false} ExpandSpec<T(!new)>(nodes: set<T>, arcs: seq<(T, T)>, roots: set<T>, dist: map<T, nat>, frontier: set<T>, d: nat)
    requires Inv(nodes, arcs, roots, dist, frontier, d)
    ensures var r := Expand(nodes, arcs, dist, frontier, d);
      Rooted(roots, r) && r.Keys <= roots + nodes && Supported(nodes, arcs, r) && Closed(nodes, arcs, r)
    decreases |nodes - dist.Keys|
  {
    var next := Layer(nodes, arcs, dist, frontier);
    if next == {} {
      InvDone(nodes, arcs, roots, dist, frontier, d);
    } else {
      Shrinks(nodes, dist.Keys, next);
      var dist' := Label(dist, next, d + 1);
      InvStep(nodes, arcs, roots, dist, frontier, d);
      ExpandSpec(nodes, arcs, roots, dist', next, d + 1);
    }
  }

  /** The distances start at the roots, only label nodes, and are consistent along every arc. */
  lemma DistancesSpec<T(!new)>(nodes: set<T>, arcs: seq<(T, T)>, roots: set<T>)
    ensures var r := Distances(nodes, arcs, roots);
      Rooted(roots, r) && r.Keys <= roots + nodes && Supported(nodes, arcs, r) && Closed(nodes, arcs, r)
  {
    InvStart(nodes, arcs, roots);
    ExpandSpec(nodes, arcs, roots, map v | v in roots :: 0, roots, 0);
  }

  /** A walk from a root: every later node is a node, one arc after its predecessor. */
  ghost predicate Walk<T(!new)>(nodes: set<T>, arcs: seq<(T, T)>, roots: set<T>, w: seq<T>) {
    && |w| >= 1
    && w[0] in roots
    && forall i :: 1 <= i < |w| ==> w[i] in nodes && (w[i - 1], w[i]) in arcs
  }

  lemma WalkSnoc<T(!new)>(nodes: set<T>, arcs: seq<(T, T)>, roots: set<T>, w: seq<T>, v: T)
    requires Walk(nodes, arcs, roots, w)
    requires v in nodes && (w[|w| - 1], v) in arcs
    ensures Walk(nodes, arcs, roots, w + [v])
  {
    var w' := w + [v];
    forall i | 1 <= i < |w'| ensures w'[i] in nodes && (w'[i - 1], w'[i]) in arcs {
      if i < |w| {
        assert w'[i] == w[i] && w'[i - 1] == w[i - 1];
      }
    }
  }

  /** Consistent distances never exceed the length of a walk. */
  lemma {:induction false} WalkBound<T(!new)>(nodes: set<T>, arcs: seq<(T, T)>, roots: set<T>, r: map<T, nat>, w: seq<T>)
    requires Rooted(roots, r) && Closed(nodes, arcs, r)
    requires Walk(nodes, arcs, roots, w)
    ensures w[|w| - 1] in r && r[w[|w| - 1]] <= |w| - 1
  {
    if |w| > 1 {
      var u := w[..|w| - 1];
      assert Walk(nodes, arcs, roots, u);
      WalkBound(nodes, arcs, roots, r, u);
      assert (w[|w| - 2], w[|w| - 1]) in arcs;
    }
  }

  /** Supported distances come with a walk of exactly that length. */
  lemma {:induction false} WalkTo<T(!new)>(nodes: set<T>, arcs: seq<(T, T)>, roots: set<T>, r: map<T, nat>, v: T)
    returns (w: seq<T>)
    requires Rooted(roots, r) && Supported(nodes, arcs, r)
    requires v in r
    ensures Walk(nodes, arcs, roots, w) && |w| == r[v] + 1 && w[|w| - 1] == v
    decreases r[v]
  {
    if r[v] == 0 {
      w := [v];
    } else {
      var a :| a in arcs && a.1 == v && a.0 in r && r[a.0] == r[v] - 1;
      var u := WalkTo(nodes, arcs, roots, r, a.0);
      WalkSnoc(nodes, arcs, roots, u, v);
      w := u + [v];
    }
  }

  /** A node gets a distance exactly when a walk from a root reaches it, and the distance is the
      length of the shortest such walk. */
  lemma DistancesShortest<T(!new)>(nodes: set<T>, arcs: seq<(T, T)>, roots: set<T>, v: T)
    ensures var r := Distances(nodes, arcs, roots);
      && (v in r <==> exists w :: Walk(nodes, arcs, roots, w) && w[|w| - 1] == v)
      && (v in r ==> exists w :: Walk(nodes, arcs, roots, w) && w[|w| - 1] == v && |w| == r[v] + 1)
      && (forall w :: Walk(nodes, arcs, roots, w) && w[|w| - 1] == v ==> v in r && r[v] <= |w| - 1)
  {
    var r := Distances(nodes, arcs, roots);
    DistancesSpec(nodes, arcs, roots);
    if v in r {
      var w := WalkTo(nodes, arcs, roots, r, v);
    }
    forall w | Walk(nodes, arcs, roots, w) && w[|w| - 1] == v ensures v in r && r[v] <= |w| - 1 {
      WalkBound(nodes, arcs, roots, r, w);
    }
  }
}
