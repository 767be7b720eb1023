/** Undirected blocking graphs: walks, reachability, components and degrees. No code of the
    repository is modelled here; this is the vocabulary the graph modules are specified with. */
module Graph {

  type Id = string

  datatype GraphEdge = GraphEdge(source: Id, target: Id)

  predicate Links(e: GraphEdge, a: Id, b: Id)
  {
    || (e.source == a && e.target == b)
    || (e.source == b && e.target == a)
  }

  predicate Adjacent(edges: seq<GraphEdge>, a: Id, b: Id)
  {
    exists e :: e in edges && Links(e, a, b)
  }

  /** Only listed nodes have an adjacency list, so a traversal never leaves an unlisted node. */
  predicate Step(nodes: set<Id>, edges: seq<GraphEdge>, a: Id, b: Id)
  {
    a in nodes && Adjacent(edges, a, b)
  }

  /** Every edge joins two listed nodes. */
  predicate Known(nodes: set<Id>, edges: seq<GraphEdge>)
  {
    forall e :: e in edges ==> e.source in nodes && e.target in nodes
  }

  // ----- Walks and reachability

  ghost predicate IsWalk(nodes: set<Id>, edges: seq<GraphEdge>, p: seq<Id>, a: Id, b: Id)
  {
    && |p| > 0
    && p[0] == a
    && p[|p| - 1] == b
    && forall k :: 0 <= k < |p| - 1 ==> Step(nodes, edges, p[k], p[k + 1])
  }

  ghost predicate Reaches(nodes: set<Id>, edges: seq<GraphEdge>, a: Id, b: Id)
  {
    exists p :: IsWalk(nodes, edges, p, a, b)
  }

  lemma ReachesItself(nodes: set<Id>, edges: seq<GraphEdge>, a: Id)
    ensures Reaches(nodes, edges, a, a)
  {
    assert IsWalk(nodes, edges, [a], a, a);
  }

  lemma ReachesTransitive(nodes: set<Id>, edges: seq<GraphEdge>, a: Id, b: Id, c: Id)
    requires Reaches(nodes, edges, a, b) && Reaches(nodes, edges, b, c)
    ensures Reaches(nodes, edges, a, c)
  {
    var p :| IsWalk(nodes, edges, p, a, b);
    var q :| IsWalk(nodes, edges, q, b, c);
    var r := p + q[1..];
    forall k | 0 <= k < |r| - 1
      ensures Step(nodes, edges, r[k], r[k + 1])
    {
      if k >= |p| - 1 {
        assert r[k] == q[k - (|p| - 1)] && r[k + 1] == q[k + 1 - (|p| - 1)];
      }
    }
    assert IsWalk(nodes, edges, r, a, c);
  }

  lemma ReachesStep(nodes: set<Id>, edges: seq<GraphEdge>, a: Id, b: Id, c: Id)
    requires Reaches(nodes, edges, a, b) && Step(nodes, edges, b, c)
    ensures Reaches(nodes, edges, a, c)
  {
    assert IsWalk(nodes, edges, [b, c], b, c);
    ReachesTransitive(nodes, edges, a, b, c);
  }

  lemma ReachesSymmetric(nodes: set<Id>, edges: seq<GraphEdge>, a: Id, b: Id)
    requires Known(nodes, edges) && Reaches(nodes, edges, a, b)
    ensures Reaches(nodes, edges, b, a)
  {
    var p :| IsWalk(nodes, edges, p, a, b);
    var q := seq(|p|, i requires 0 <= i < |p| => p[|p| - 1 - i]);
    forall k | 0 <= k < |q| - 1
      ensures Step(nodes, edges, q[k], q[k + 1])
    {
      var m := |p| - 2 - k;
      assert Step(nodes, edges, p[m], p[m + 1]);
      var e :| e in edges && Links(e, p[m], p[m + 1]);
      assert Links(e, q[k], q[k + 1]);
    }
    assert IsWalk(nodes, edges, q, b, a);
  }

  /** More edges reach more. */
  lemma ReachesMonotone(nodes: set<Id>, few: seq<GraphEdge>, many: seq<GraphEdge>, a: Id, b: Id)
    requires forall e :: e in few ==> e in many
    requires Reaches(nodes, few, a, b)
    ensures Reaches(nodes, many, a, b)
  {
    var p :| IsWalk(nodes, few, p, a, b);
    forall k | 0 <= k < |p| - 1
      ensures Step(nodes, many, p[k], p[k + 1])
    {
      assert Step(nodes, few, p[k], p[k + 1]);
    }
    assert IsWalk(nodes, many, p, a, b);
  }

  ghost predicate ClosedUnderSteps(nodes: set<Id>, edges: seq<GraphEdge>, s: set<Id>)
  {
    forall a, b :: a in s && Step(nodes, edges, a, b) ==> b in s
  }

  /** A walk cannot leave a closed set: the proof principle behind every traversal below. */
  lemma ClosedSetTrapsWalks(nodes: set<Id>, edges: seq<GraphEdge>, s: set<Id>, a: Id, b: Id)
    requires ClosedUnderSteps(nodes, edges, s) && a in s
    requires Reaches(nodes, edges, a, b)
    ensures b in s
  {
    var p :| IsWalk(nodes, edges, p, a, b);
    for k := 0 to |p| - 1
      invariant p[k] in s
    {
      assert Step(nodes, edges, p[k], p[k + 1]);
    }
  }

  // ----- Components

  ghost function Endpoints(edges: seq<GraphEdge>): set<Id>
  {
    (set e | e in edges :: e.source) + (set e | e in edges :: e.target)
  }

  ghost function Component(nodes: set<Id>, edges: seq<GraphEdge>, a: Id): set<Id>
  {
    set v | v in Endpoints(edges) + {a} && Reaches(nodes, edges, a, v)
  }

  lemma EndpointsAreClosed(nodes: set<Id>, edges: seq<GraphEdge>, a: Id)
    ensures ClosedUnderSteps(nodes, edges, Endpoints(edges) + {a})
  {
  }

  lemma InComponent(nodes: set<Id>, edges: seq<GraphEdge>, a: Id, b: Id)
    ensures b in Component(nodes, edges, a) <==> Reaches(nodes, edges, a, b)
  {
    EndpointsAreClosed(nodes, edges, a);
    if Reaches(nodes, edges, a, b) {
      ClosedSetTrapsWalks(nodes, edges, Endpoints(edges) + {a}, a, b);
    }
  }

  lemma ComponentIsClosed(nodes: set<Id>, edges: seq<GraphEdge>, a: Id)
    ensures a in Component(nodes, edges, a)
    ensures ClosedUnderSteps(nodes, edges, Component(nodes, edges, a))
  {
    ReachesItself(nodes, edges, a);
    forall b, c | b in Component(nodes, edges, a) && Step(nodes, edges, b, c)
      ensures c in Component(nodes, edges, a)
    {
      ReachesStep(nodes, edges, a, b, c);
      InComponent(nodes, edges, a, c);
    }
  }

  /** Components of a known graph are the classes of an equivalence: sharing one node means being equal. */
  lemma ComponentsMeetOnlyIfEqual(nodes: set<Id>, edges: seq<GraphEdge>, a: Id, b: Id, v: Id)
    requires Known(nodes, edges)
    requires v in Component(nodes, edges, a) && v in Component(nodes, edges, b)
    ensures Component(nodes, edges, a) == Component(nodes, edges, b)
  {
    ReachesSymmetric(nodes, edges, a, v);
    ReachesSymmetric(nodes, edges, b, v);
    ReachesTransitive(nodes, edges, a, v, b);
    ReachesTransitive(nodes, edges, b, v, a);
    forall x
      ensures x in Component(nodes, edges, a) <==> x in Component(nodes, edges, b)
    {
      InComponent(nodes, edges, a, x);
      InComponent(nodes, edges, b, x);
      if Reaches(nodes, edges, a, x) {
        ReachesTransitive(nodes, edges, b, a, x);
      }
      if Reaches(nodes, edges, b, x) {
        ReachesTransitive(nodes, edges, a, b, x);
      }
    }
  }

  /** The set of clusters a graph falls into. */
  ghost function Clusters(nodes: set<Id>, edges: seq<GraphEdge>): set<set<Id>>
  {
    set a | a in nodes :: Component(nodes, edges, a)
  }

  // ----- Degrees

  /** How many edge ends with both ends inside `side` touch v; a self-loop touches v twice. */
  ghost function DegreeWithin(side: set<Id>, edges: seq<GraphEdge>, v: Id): nat
  {
    if edges == [] then 0
    else
      var e := edges[|edges| - 1];
      DegreeWithin(side, edges[..|edges| - 1], v)
      + if e.source in side && e.target in side
        then (if e.source == v then 1 else 0) + (if e.target == v then 1 else 0)
        else 0
  }
}
