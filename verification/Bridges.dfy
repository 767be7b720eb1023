/** findBridges (web/src/shared/utils/graph/edges.ts) and what cutting every bridge at once does to the clusters. */
module Bridges {
  import opened Graph
  import opened BlockingEdges
  import opened Sublists
  import opened Sets

  const HUB_DEGREE_THRESHOLD := 3

  function Without(edges: seq<GraphEdge>, i: nat): seq<GraphEdge>
    requires i < |edges|
  {
    edges[..i] + edges[i + 1..]
  }

  /** One edge is missing, the others keep their order. */
  lemma WithoutLosesOne(edges: seq<GraphEdge>, i: nat)
    requires i < |edges|
    ensures |Without(edges, i)| == |edges| - 1
    ensures forall j :: 0 <= j < i ==> Without(edges, i)[j] == edges[j]
    ensures forall j :: i <= j < |edges| - 1 ==> Without(edges, i)[j] == edges[j + 1]
  {
  }

  // ----- Hubs

  ghost predicate HubInside(side: set<Id>, edges: seq<GraphEdge>)
  {
    exists v :: v in side && DegreeWithin(side, edges, v) >= 3
  }

  function Bump(degree: map<Id, nat>, v: Id): map<Id, nat>
  {
    degree[v := (if v in degree then degree[v] else 0) + 1]
  }

  ghost function Count(degree: map<Id, nat>, v: Id): nat
  {
    if v in degree then degree[v] else 0
  }

  /** hasHub: some node has three or more edge ends inside the component. */
  method HasHub(component: set<Id>, edges: seq<GraphEdge>) returns (found: bool)
    ensures found <==> HubInside(component, edges)
  {
    var degree: map<Id, nat> := map[];
    for i := 0 to |edges|
      invariant degree.Keys <= component
      invariant forall v :: v in component ==> Count(degree, v) == DegreeWithin(component, edges[..i], v)
    {
      var edge := edges[i];
      assert edges[..i + 1][..i] == edges[..i];
      if edge.source !in component || edge.target !in component {
        continue;
      }
      degree := Bump(degree, edge.source);
      degree := Bump(degree, edge.target);
    }
    assert edges[..|edges|] == edges;
    found := exists v :: v in degree && degree[v] >= HUB_DEGREE_THRESHOLD;
    if v :| v in component && DegreeWithin(component, edges, v) >= 3 {
      assert Count(degree, v) >= HUB_DEGREE_THRESHOLD;
    }
  }

  // ----- Bridges

  /** Removing edge i disconnects its ends. */
  ghost predicate Separates(nodes: set<Id>, edges: seq<GraphEdge>, i: nat)
    requires i < |edges|
  {
    !Reaches(nodes, Without(edges, i), edges[i].source, edges[i].target)
  }

  ghost predicate RealGroup(nodes: set<Id>, edges: seq<GraphEdge>, v: Id)
  {
    && |Component(nodes, edges, v)| >= 2
    && HubInside(Component(nodes, edges, v), edges)
  }

  /** A bridge separates two groups of two or more nodes, each with a hub of its own. */
  ghost predicate IsBridge(nodes: set<Id>, edges: seq<GraphEdge>, i: nat)
    requires i < |edges|
  {
    && Separates(nodes, edges, i)
    && RealGroup(nodes, Without(edges, i), edges[i].source)
    && RealGroup(nodes, Without(edges, i), edges[i].target)
  }

  /** The marked edges, or the unmarked ones, among the first n edges, in order. */
  function Pick(edges: seq<GraphEdge>, marks: seq<bool>, n: nat, wanted: bool): seq<GraphEdge>
    requires n <= |edges| == |marks|
  {
    if n == 0 then []
    else Pick(edges, marks, n - 1, wanted) + if marks[n - 1] == wanted then [edges[n - 1]] else []
  }

  ghost function BridgeMarks(nodes: set<Id>, edges: seq<GraphEdge>): (marks: seq<bool>)
    ensures |marks| == |edges| && forall i :: 0 <= i < |edges| ==> marks[i] == IsBridge(nodes, edges, i)
  {
    seq(|edges|, i requires 0 <= i < |edges| => IsBridge(nodes, edges, i))
  }

  ghost function BridgesOf(nodes: set<Id>, edges: seq<GraphEdge>): seq<GraphEdge>
  {
    Pick(edges, BridgeMarks(nodes, edges), |edges|, true)
  }

  ghost function ClusterEdgesOf(nodes: set<Id>, edges: seq<GraphEdge>): seq<GraphEdge>
  {
    Pick(edges, BridgeMarks(nodes, edges), |edges|, false)
  }

  /** findBridges is exact: it returns, in order, the edges that are bridges and no others. */
  method FindBridges(nodeIds: seq<Id>, edges: seq<GraphEdge>) returns (bridges: seq<GraphEdge>)
    ensures bridges == BridgesOf(ToSet(nodeIds), edges)
  {
    ghost var marks := BridgeMarks(ToSet(nodeIds), edges);
    bridges := [];
    for i := 0 to |edges|
      invariant bridges == Pick(edges, marks, i, true)
    {
      var isBridge := QualifiesAsBridge(nodeIds, edges, i);
      if isBridge {
        bridges := bridges + [edges[i]];
      }
    }
  }

  /** The filter callback of findBridges. */
  method QualifiesAsBridge(nodeIds: seq<Id>, edges: seq<GraphEdge>, i: nat) returns (isBridge: bool)
    requires i < |edges|
    ensures isBridge <==> IsBridge(ToSet(nodeIds), edges, i)
  {
    var candidate, remaining := edges[i], Without(edges, i);
    ghost var nodes := ToSet(nodeIds);
    var sourceComponent := ComponentContaining(candidate.source, nodeIds, remaining);
    InComponent(nodes, remaining, candidate.source, candidate.target);
    if candidate.target in sourceComponent {
      return false;
    }
    var targetComponent := ComponentContaining(candidate.target, nodeIds, remaining);
    if |sourceComponent| < 2 || |targetComponent| < 2 {
      return false;
    }
    var sourceHub := HasHub(sourceComponent, remaining);
    var targetHub := HasHub(targetComponent, remaining);
    return sourceHub && targetHub;
  }

  /** The positions of the picked edges. */
  ghost predicate ArePositions(
    at: seq<int>, picked: seq<GraphEdge>, edges: seq<GraphEdge>, marks: seq<bool>, n: nat, wanted: bool)
    requires n <= |edges| == |marks|
  {
    && |at| == |picked| && Increasing(at)
    && (forall k :: 0 <= k < |at| ==> 0 <= at[k] < n && marks[at[k]] == wanted && picked[k] == edges[at[k]])
    && (forall i :: 0 <= i < n && marks[i] == wanted ==> i in at)
  }

  /** The picked edges are those at the marked positions, in edge order. */
  lemma {:induction false} PickedPositions(edges: seq<GraphEdge>, marks: seq<bool>, n: nat, wanted: bool)
    returns (at: seq<int>)
    requires n <= |edges| == |marks|
    ensures ArePositions(at, Pick(edges, marks, n, wanted), edges, marks, n, wanted)
  {
    at := [];
    if n > 0 {
      hide ArePositions;
      at := PickedPositions(edges, marks, n - 1, wanted);
      OneMorePosition(at, Pick(edges, marks, n - 1, wanted), edges, marks, n - 1, wanted);
      if marks[n - 1] == wanted {
        at := at + [n - 1];
      }
    }
  }

  lemma OneMorePosition(
    at: seq<int>, picked: seq<GraphEdge>, edges: seq<GraphEdge>, marks: seq<bool>, n: nat, wanted: bool)
    requires n < |edges| == |marks| && ArePositions(at, picked, edges, marks, n, wanted)
    ensures marks[n] == wanted ==> ArePositions(at + [n], picked + [edges[n]], edges, marks, n + 1, wanted)
    ensures marks[n] != wanted ==> ArePositions(at, picked + [], edges, marks, n + 1, wanted)
  {
    PositionAdded(at, n);
    assert picked + [] == picked;
  }

  lemma PositionAdded(at: seq<int>, n: nat)
    requires Increasing(at) && forall k :: 0 <= k < |at| ==> at[k] < n
    ensures Increasing(at + [n]) && n in at + [n] && forall i :: i in at ==> i in at + [n]
  {
    assert (at + [n])[|at|] == n;
  }

  /** findBridges returns, in edge order, each edge that is a bridge, and no other. */
  lemma BridgesInEdgeOrder(nodes: set<Id>, edges: seq<GraphEdge>) returns (at: seq<int>)
    ensures |at| == |BridgesOf(nodes, edges)| && Increasing(at)
    ensures forall k :: 0 <= k < |at| ==>
              0 <= at[k] < |edges| && IsBridge(nodes, edges, at[k]) && BridgesOf(nodes, edges)[k] == edges[at[k]]
    ensures forall i :: 0 <= i < |edges| && IsBridge(nodes, edges, i) ==> i in at
  {
    hide IsBridge;
    at := PickedPositions(edges, BridgeMarks(nodes, edges), |edges|, true);
  }

  lemma {:induction false} PickIsSound(edges: seq<GraphEdge>, marks: seq<bool>, n: nat, wanted: bool, e: GraphEdge)
    requires n <= |edges| == |marks|
    ensures e in Pick(edges, marks, n, wanted) <==> exists i :: 0 <= i < n && edges[i] == e && marks[i] == wanted
  {
    if n > 0 {
      PickIsSound(edges, marks, n - 1, wanted, e);
    }
  }

  // ----- Cutting one separating edge

  /** Cutting edge i of a known graph splits exactly one cluster into exactly two. */
  lemma CutSplitsOneCluster(nodes: set<Id>, edges: seq<GraphEdge>, i: nat)
    requires Known(nodes, edges) && i < |edges| && Separates(nodes, edges, i)
    ensures |Clusters(nodes, Without(edges, i))| == |Clusters(nodes, edges)| + 1
  {
    var cu := Component(nodes, Without(edges, i), edges[i].source);
    var cv := Component(nodes, Without(edges, i), edges[i].target);
    var whole, split := Clusters(nodes, edges), Clusters(nodes, Without(edges, i));
    ClustersAfterCut(nodes, edges, i);
    assert |split| == |split - {cu, cv}| + |{cu, cv}|;
    assert |whole| == |whole - {cu + cv}| + |{cu + cv}|;
  }

  lemma ClustersAfterCut(nodes: set<Id>, edges: seq<GraphEdge>, i: nat)
    requires Known(nodes, edges) && i < |edges| && Separates(nodes, edges, i)
    ensures var cu := Component(nodes, Without(edges, i), edges[i].source);
            var cv := Component(nodes, Without(edges, i), edges[i].target);
            var whole, split := Clusters(nodes, edges), Clusters(nodes, Without(edges, i));
            && {cu, cv} <= split && {cu + cv} <= whole && cu != cv
            && whole - {cu + cv} == split - {cu, cv}
  {
    var rest, u, v := Without(edges, i), edges[i].source, edges[i].target;
    assert edges[i] in edges;
    var cu, cv := Component(nodes, rest, u), Component(nodes, rest, v);
    var whole, split := Clusters(nodes, edges), Clusters(nodes, rest);
    InComponent(nodes, rest, u, v);
    ComponentIsClosed(nodes, rest, u);
    ComponentIsClosed(nodes, rest, v);
    ComponentAfterCut(nodes, edges, i, u);
    assert cu + cv == Component(nodes, edges, u) && v !in cu;
    forall c
      ensures c in whole - {cu + cv} <==> c in split - {cu, cv}
    {
      if w :| w in nodes && c == Component(nodes, edges, w) {
        ClusterAfterCut(nodes, edges, i, w);
      }
      if w :| w in nodes && c == Component(nodes, rest, w) {
        ClusterAfterCut(nodes, edges, i, w);
      }
    }
  }

  /** A node's cluster either is one of the two halves, or is the same before and after the cut. */
  lemma ClusterAfterCut(nodes: set<Id>, edges: seq<GraphEdge>, i: nat, w: Id)
    requires Known(nodes, edges) && i < |edges| && w in nodes
    ensures var cu := Component(nodes, Without(edges, i), edges[i].source);
            var cv := Component(nodes, Without(edges, i), edges[i].target);
            var before, after := Component(nodes, edges, w), Component(nodes, Without(edges, i), w);
            if w in cu + cv then before == cu + cv && after in {cu, cv}
            else before == after && after !in {cu, cv, cu + cv}
  {
    var rest, u, v := Without(edges, i), edges[i].source, edges[i].target;
    ComponentAfterCut(nodes, edges, i, w);
    ComponentIsClosed(nodes, rest, w);
    if w in Component(nodes, rest, u) { ComponentsMeetOnlyIfEqual(nodes, rest, w, u, w); }
    if w in Component(nodes, rest, v) { ComponentsMeetOnlyIfEqual(nodes, rest, w, v, w); }
  }

  lemma ComponentAfterCut(nodes: set<Id>, edges: seq<GraphEdge>, i: nat, w: Id)
    requires Known(nodes, edges) && i < |edges|
    ensures var rest := Without(edges, i);
            var joined := Component(nodes, rest, edges[i].source) + Component(nodes, rest, edges[i].target);
            Component(nodes, edges, w) == if w in joined then joined else Component(nodes, rest, w)
  {
    var rest, e := Without(edges, i), edges[i];
    var joined := Component(nodes, rest, e.source) + Component(nodes, rest, e.target);
    forall x
      ensures x in Component(nodes, edges, w) <==> x in if w in joined then joined else Component(nodes, rest, w)
    {
      InComponent(nodes, edges, w, x);
      InComponent(nodes, rest, w, x);
      if w in joined {
        JoinedIsClosed(nodes, edges, i);
        if Reaches(nodes, edges, w, x) { ClosedSetTrapsWalks(nodes, edges, joined, w, x); }
        if x in joined { JoinedIsConnected(nodes, edges, i, w, x); }
      } else {
        OthersAreClosed(nodes, edges, i, w);
        ComponentIsClosed(nodes, rest, w);
        if Reaches(nodes, edges, w, x) { ClosedSetTrapsWalks(nodes, edges, Component(nodes, rest, w), w, x); }
        if Reaches(nodes, rest, w, x) { ReachesMonotone(nodes, rest, edges, w, x); }
      }
    }
  }

  lemma StepWithout(nodes: set<Id>, edges: seq<GraphEdge>, i: nat, a: Id, b: Id)
    requires i < |edges|
    ensures Step(nodes, edges, a, b) <==> a in nodes && (Step(nodes, Without(edges, i), a, b) || Links(edges[i], a, b))
  {
    if e :| e in edges && Links(e, a, b) {
      assert e in Without(edges, i) || e == edges[i];
    }
  }

  lemma JoinedIsClosed(nodes: set<Id>, edges: seq<GraphEdge>, i: nat)
    requires i < |edges|
    ensures ClosedUnderSteps(nodes, edges,
              Component(nodes, Without(edges, i), edges[i].source)
              + Component(nodes, Without(edges, i), edges[i].target))
  {
    var rest, e := Without(edges, i), edges[i];
    ComponentIsClosed(nodes, rest, e.source);
    ComponentIsClosed(nodes, rest, e.target);
    forall a, b {
      StepWithout(nodes, edges, i, a, b);
    }
  }

  lemma OthersAreClosed(nodes: set<Id>, edges: seq<GraphEdge>, i: nat, w: Id)
    requires Known(nodes, edges) && i < |edges|
    requires w !in Component(nodes, Without(edges, i), edges[i].source)
    requires w !in Component(nodes, Without(edges, i), edges[i].target)
    ensures ClosedUnderSteps(nodes, edges, Component(nodes, Without(edges, i), w))
  {
    var rest, e := Without(edges, i), edges[i];
    var c := Component(nodes, rest, w);
    ComponentIsClosed(nodes, rest, w);
    ComponentIsClosed(nodes, rest, e.source);
    ComponentIsClosed(nodes, rest, e.target);
    if e.source in c { ComponentsMeetOnlyIfEqual(nodes, rest, w, e.source, e.source); }
    if e.target in c { ComponentsMeetOnlyIfEqual(nodes, rest, w, e.target, e.target); }
    forall a, b {
      StepWithout(nodes, edges, i, a, b);
    }
  }

  lemma JoinedIsConnected(nodes: set<Id>, edges: seq<GraphEdge>, i: nat, w: Id, x: Id)
    requires Known(nodes, edges) && i < |edges|
    requires var rest := Without(edges, i);
             var joined := Component(nodes, rest, edges[i].source) + Component(nodes, rest, edges[i].target);
             w in joined && x in joined
    ensures Reaches(nodes, edges, w, x)
  {
    var e := edges[i];
    ReachesEnd(nodes, edges, i, w);
    ReachesEnd(nodes, edges, i, x);
    ReachesSymmetric(nodes, edges, e.source, w);
    ReachesTransitive(nodes, edges, w, e.source, x);
  }

  lemma ReachesEnd(nodes: set<Id>, edges: seq<GraphEdge>, i: nat, x: Id)
    requires Known(nodes, edges) && i < |edges|
    requires x in Component(nodes, Without(edges, i), edges[i].source)
                + Component(nodes, Without(edges, i), edges[i].target)
    ensures Reaches(nodes, edges, edges[i].source, x)
  {
    var rest, e := Without(edges, i), edges[i];
    assert e in edges;
    if x in Component(nodes, rest, e.source) {
      ReachesMonotone(nodes, rest, edges, e.source, x);
    } else {
      ReachesMonotone(nodes, rest, edges, e.target, x);
      ReachesItself(nodes, edges, e.source);
      assert Links(e, e.source, e.target);
      ReachesStep(nodes, edges, e.source, e.source, e.target);
      ReachesTransitive(nodes, edges, e.source, e.target, x);
    }
  }

  // ----- Cutting every bridge at once

  /** The marked ones of the first n edges already cut, the others still in place. */
  function CutUpTo(edges: seq<GraphEdge>, marks: seq<bool>, n: nat): seq<GraphEdge>
    requires n <= |edges| == |marks|
  {
    Pick(edges, marks, n, false) + edges[n..]
  }

  /** Cutting any set of separating edges adds one cluster for each of them. */
  lemma {:induction false} CutCount(nodes: set<Id>, edges: seq<GraphEdge>, marks: seq<bool>, n: nat)
    requires Known(nodes, edges) && n <= |edges| == |marks|
    requires forall i :: 0 <= i < |edges| && marks[i] ==> Separates(nodes, edges, i)
    ensures |Clusters(nodes, CutUpTo(edges, marks, n))| == |Clusters(nodes, edges)| + |Pick(edges, marks, n, true)|
  {
    hide Clusters, Known, Separates;
    if n == 0 {
      assert CutUpTo(edges, marks, 0) == edges;
    } else {
      CutCount(nodes, edges, marks, n - 1);
      var before, after := CutUpTo(edges, marks, n - 1), CutUpTo(edges, marks, n);
      var k := |Pick(edges, marks, n - 1, false)|;
      assert edges[n - 1..] == [edges[n - 1]] + edges[n..];
      if marks[n - 1] {
        assert Without(before, k) == after;
        CutStaysSeparating(nodes, edges, marks, n - 1);
        CutSplitsOneCluster(nodes, before, k);
      } else {
        assert after == before;
      }
    }
  }

  /** Edges cut so far only help: an edge that separates the whole graph separates what is left of it. */
  lemma CutStaysSeparating(nodes: set<Id>, edges: seq<GraphEdge>, marks: seq<bool>, n: nat)
    requires Known(nodes, edges) && n < |edges| == |marks| && Separates(nodes, edges, n)
    ensures var before, k := CutUpTo(edges, marks, n), |Pick(edges, marks, n, false)|;
            before[k] == edges[n] && Known(nodes, before) && Separates(nodes, before, k)
  {
    var before, k := CutUpTo(edges, marks, n), |Pick(edges, marks, n, false)|;
    forall e | e in before
      ensures e in edges && (e in Without(before, k) ==> e in Without(edges, n))
    {
      PickIsSound(edges, marks, n, false, e);
      if i :| 0 <= i < n && edges[i] == e {
        assert Without(edges, n)[i] == e;
      }
    }
    if Reaches(nodes, Without(before, k), edges[n].source, edges[n].target) {
      ReachesMonotone(nodes, Without(before, k), Without(edges, n), edges[n].source, edges[n].target);
    }
  }

  /** Removing all bridges at once adds exactly one cluster per bridge. */
  lemma BridgesCountClusters(nodes: set<Id>, edges: seq<GraphEdge>)
    requires Known(nodes, edges)
    ensures |Clusters(nodes, ClusterEdgesOf(nodes, edges))| == |Clusters(nodes, edges)| + |BridgesOf(nodes, edges)|
  {
    var marks := BridgeMarks(nodes, edges);
    CutCount(nodes, edges, marks, |edges|);
    assert CutUpTo(edges, marks, |edges|) == ClusterEdgesOf(nodes, edges);
  }

  lemma InWithout(edges: seq<GraphEdge>, i: nat, k: nat)
    requires i < |edges| && k < |edges| && i != k
    ensures edges[k] in Without(edges, i)
  {
    assert Without(edges, i)[if k < i then k else k - 1] == edges[k];
  }

  /** Clusters hang together without any one bridge. */
  lemma ClustersAvoidBridge(nodes: set<Id>, edges: seq<GraphEdge>, i: nat, a: Id, b: Id)
    requires i < |edges| && IsBridge(nodes, edges, i)
    requires Reaches(nodes, ClusterEdgesOf(nodes, edges), a, b)
    ensures Reaches(nodes, Without(edges, i), a, b)
  {
    var marks := BridgeMarks(nodes, edges);
    assert marks[i];
    PickAvoids(edges, marks, i);
    ReachesMonotone(nodes, ClusterEdgesOf(nodes, edges), Without(edges, i), a, b);
  }

  lemma PickAvoids(edges: seq<GraphEdge>, marks: seq<bool>, i: nat)
    requires i < |edges| == |marks| && marks[i]
    ensures forall e :: e in Pick(edges, marks, |edges|, false) ==> e in Without(edges, i)
  {
    forall e | e in Pick(edges, marks, |edges|, false)
      ensures e in Without(edges, i)
    {
      PickIsSound(edges, marks, |edges|, false, e);
      var k :| 0 <= k < |edges| && edges[k] == e && !marks[k];
      InWithout(edges, i, k);
    }
  }

  /** The two ends of every bridge land in different clusters. */
  lemma BridgeEndsInDifferentClusters(nodes: set<Id>, edges: seq<GraphEdge>, i: nat)
    requires i < |edges| && IsBridge(nodes, edges, i)
    ensures !Reaches(nodes, ClusterEdgesOf(nodes, edges), edges[i].source, edges[i].target)
  {
    if Reaches(nodes, ClusterEdgesOf(nodes, edges), edges[i].source, edges[i].target) {
      ClustersAvoidBridge(nodes, edges, i, edges[i].source, edges[i].target);
    }
  }

  /** Two different bridges never join the same two clusters, whichever way round they point. */
  lemma AtMostOneBridgeBetweenClusters(nodes: set<Id>, edges: seq<GraphEdge>, i: nat, j: nat, a: Id, b: Id)
    requires Known(nodes, edges)
    requires i < |edges| && j < |edges| && i != j && IsBridge(nodes, edges, i)
    requires Links(edges[j], a, b)
    ensures !(Reaches(nodes, ClusterEdgesOf(nodes, edges), edges[i].source, a)
           && Reaches(nodes, ClusterEdgesOf(nodes, edges), b, edges[i].target))
  {
    var kept, rest, e := ClusterEdgesOf(nodes, edges), Without(edges, i), edges[i];
    if Reaches(nodes, kept, e.source, a) && Reaches(nodes, kept, b, e.target) {
      ClustersAvoidBridge(nodes, edges, i, e.source, a);
      ClustersAvoidBridge(nodes, edges, i, b, e.target);
      InWithout(edges, i, j);
      assert edges[j] in edges;
      JoinedThrough(nodes, rest, e.source, edges[j], a, b, e.target);
    }
  }

  lemma JoinedThrough(nodes: set<Id>, edges: seq<GraphEdge>, s: Id, e: GraphEdge, a: Id, b: Id, t: Id)
    requires e in edges && Links(e, a, b) && a in nodes
    requires Reaches(nodes, edges, s, a) && Reaches(nodes, edges, b, t)
    ensures Reaches(nodes, edges, s, t)
  {
    ReachesStep(nodes, edges, s, a, b);
    ReachesTransitive(nodes, edges, s, b, t);
  }

  // ----- Degrees as numbers of edge ends

  ghost predicate WithinSide(side: set<Id>, e: GraphEdge)
  {
    e.source in side && e.target in side
  }

  ghost function EdgesFrom(side: set<Id>, edges: seq<GraphEdge>, v: Id): set<int>
  {
    set i | 0 <= i < |edges| && WithinSide(side, edges[i]) && edges[i].source == v
  }

  ghost function EdgesTo(side: set<Id>, edges: seq<GraphEdge>, v: Id): set<int>
  {
    set i | 0 <= i < |edges| && WithinSide(side, edges[i]) && edges[i].target == v
  }

  /** A node's degree inside a group is the number of edges inside it that begin there and that end there. */
  lemma {:induction false} DegreeCountsEnds(side: set<Id>, edges: seq<GraphEdge>, v: Id)
    ensures DegreeWithin(side, edges, v) == |EdgesFrom(side, edges, v)| + |EdgesTo(side, edges, v)|
  {
    if edges != [] {
      hide EdgesFrom, EdgesTo;
      DegreeCountsEnds(side, edges[..|edges| - 1], v);
      OneMoreFrom(side, edges, v);
      OneMoreTo(side, edges, v);
    }
  }

  lemma OneMoreFrom(side: set<Id>, edges: seq<GraphEdge>, v: Id)
    requires edges != []
    ensures var init, last := edges[..|edges| - 1], edges[|edges| - 1];
            |EdgesFrom(side, edges, v)| ==
              |EdgesFrom(side, init, v)| + if WithinSide(side, last) && last.source == v then 1 else 0
  {
    var init, n := edges[..|edges| - 1], |edges| - 1;
    assert EdgesFrom(side, edges, v) == EdgesFrom(side, init, v)
      + if WithinSide(side, edges[n]) && edges[n].source == v then {n} else {};
  }

  lemma OneMoreTo(side: set<Id>, edges: seq<GraphEdge>, v: Id)
    requires edges != []
    ensures var init, last := edges[..|edges| - 1], edges[|edges| - 1];
            |EdgesTo(side, edges, v)| ==
              |EdgesTo(side, init, v)| + if WithinSide(side, last) && last.target == v then 1 else 0
  {
    var init, n := edges[..|edges| - 1], |edges| - 1;
    assert EdgesTo(side, edges, v) == EdgesTo(side, init, v)
      + if WithinSide(side, edges[n]) && edges[n].target == v then {n} else {};
  }

  // ----- What a bridge is, in walks and edge ends

  /** A walk over listed nodes that uses no edge at position i. */
  ghost predicate WalksAround(nodes: set<Id>, edges: seq<GraphEdge>, i: nat, p: seq<Id>, a: Id, b: Id)
  {
    && |p| > 0 && p[0] == a && p[|p| - 1] == b
    && forall k :: 0 <= k < |p| - 1 ==>
         p[k] in nodes && JoinedAround(edges, i, p[k], p[k + 1])
  }

  predicate JoinedAround(edges: seq<GraphEdge>, i: nat, a: Id, b: Id)
  {
    exists j :: 0 <= j < |edges| && j != i && Links(edges[j], a, b)
  }

  ghost predicate ReachesAround(nodes: set<Id>, edges: seq<GraphEdge>, i: nat, a: Id, b: Id)
  {
    exists p :: WalksAround(nodes, edges, i, p, a, b)
  }

  /** Three edge ends other than those of edge i meet in v. */
  ghost predicate ThreeEndsMeet(edges: seq<GraphEdge>, i: nat, v: Id)
  {
    |set j | 0 <= j < |edges| && j != i && edges[j].source == v|
    + |set j | 0 <= j < |edges| && j != i && edges[j].target == v| >= 3
  }

  /** Around edge i, a reaches another node, and a node in which three edge ends meet. */
  ghost predicate GroupAround(nodes: set<Id>, edges: seq<GraphEdge>, i: nat, a: Id)
  {
    && (exists v :: v != a && ReachesAround(nodes, edges, i, a, v))
    && (exists v :: ReachesAround(nodes, edges, i, a, v) && ThreeEndsMeet(edges, i, v))
  }

  lemma OtherEdges(edges: seq<GraphEdge>, i: nat, e: GraphEdge)
    requires i < |edges|
    ensures e in Without(edges, i) <==> exists j :: 0 <= j < |edges| && j != i && edges[j] == e
  {
    var rest := Without(edges, i);
    if j :| 0 <= j < |edges| && j != i && edges[j] == e {
      assert rest[if j < i then j else j - 1] == e;
    }
    if k :| 0 <= k < |rest| && rest[k] == e {
      assert edges[if k < i then k else k + 1] == e;
    }
  }

  lemma StepAround(nodes: set<Id>, edges: seq<GraphEdge>, i: nat, a: Id, b: Id)
    requires i < |edges|
    ensures Step(nodes, Without(edges, i), a, b) <==>
      a in nodes && JoinedAround(edges, i, a, b)
  {
    if e :| e in Without(edges, i) && Links(e, a, b) {
      OtherEdges(edges, i, e);
    }
    if j :| 0 <= j < |edges| && j != i && Links(edges[j], a, b) {
      OtherEdges(edges, i, edges[j]);
    }
  }

  lemma ReachesAroundIff(nodes: set<Id>, edges: seq<GraphEdge>, i: nat, a: Id, b: Id)
    requires i < |edges|
    ensures Reaches(nodes, Without(edges, i), a, b) <==> ReachesAround(nodes, edges, i, a, b)
  {
    hide Without, Step, JoinedAround;
    if p :| IsWalk(nodes, Without(edges, i), p, a, b) {
      forall k | 0 <= k < |p| - 1
        ensures p[k] in nodes && JoinedAround(edges, i, p[k], p[k + 1])
      {
        StepAround(nodes, edges, i, p[k], p[k + 1]);
      }
      assert WalksAround(nodes, edges, i, p, a, b);
    }
    if p :| WalksAround(nodes, edges, i, p, a, b) {
      forall k | 0 <= k < |p| - 1
        ensures Step(nodes, Without(edges, i), p[k], p[k + 1])
      {
        StepAround(nodes, edges, i, p[k], p[k + 1]);
      }
      assert IsWalk(nodes, Without(edges, i), p, a, b);
    }
  }

  /** The degree of a node over the other edges, inside its own group. */
  lemma DegreeAround(nodes: set<Id>, edges: seq<GraphEdge>, i: nat, side: set<Id>, v: Id)
    requires i < |edges| && v in side && Known(nodes, edges) && side <= nodes
    requires ClosedUnderSteps(nodes, Without(edges, i), side)
    ensures DegreeWithin(side, Without(edges, i), v) >= 3 <==> ThreeEndsMeet(edges, i, v)
  {
    hide Without, EdgesFrom, EdgesTo, ClosedUnderSteps, Known;
    KnownWithout(nodes, edges, i);
    ClosedSideKeepsDegree(nodes, Without(edges, i), side, v);
    DegreeWithoutOne(nodes, edges, i, v);
    DegreeCountsEnds(nodes, edges, v);
    OthersFrom(nodes, edges, i, v);
    OthersTo(nodes, edges, i, v);
  }

  lemma OthersFrom(nodes: set<Id>, edges: seq<GraphEdge>, i: nat, v: Id)
    requires i < |edges| && Known(nodes, edges)
    ensures |EdgesFrom(nodes, edges, v)| == |set j | 0 <= j < |edges| && j != i && edges[j].source == v|
                                           + if edges[i].source == v then 1 else 0
  {
    var from := EdgesFrom(nodes, edges, v);
    assert forall j :: 0 <= j < |edges| ==> edges[j] in edges;
    assert from - {i} == set j | 0 <= j < |edges| && j != i && edges[j].source == v;
  }

  lemma OthersTo(nodes: set<Id>, edges: seq<GraphEdge>, i: nat, v: Id)
    requires i < |edges| && Known(nodes, edges)
    ensures |EdgesTo(nodes, edges, v)| == |set j | 0 <= j < |edges| && j != i && edges[j].target == v|
                                         + if edges[i].target == v then 1 else 0
  {
    var to := EdgesTo(nodes, edges, v);
    assert forall j :: 0 <= j < |edges| ==> edges[j] in edges;
    assert to - {i} == set j | 0 <= j < |edges| && j != i && edges[j].target == v;
  }

  lemma KnownWithout(nodes: set<Id>, edges: seq<GraphEdge>, i: nat)
    requires Known(nodes, edges) && i < |edges|
    ensures Known(nodes, Without(edges, i))
  {
    forall e {
      OtherEdges(edges, i, e);
    }
  }

  lemma {:induction false} DegreeOfConcatenation(side: set<Id>, a: seq<GraphEdge>, b: seq<GraphEdge>, v: Id)
    ensures DegreeWithin(side, a + b, v) == DegreeWithin(side, a, v) + DegreeWithin(side, b, v)
  {
    if b == [] {
      assert a + b == a;
    } else {
      var init := b[..|b| - 1];
      assert (a + b)[..|a + b| - 1] == a + init;
      DegreeOfConcatenation(side, a, init, v);
    }
  }

  lemma DegreeWithoutOne(nodes: set<Id>, edges: seq<GraphEdge>, i: nat, v: Id)
    requires Known(nodes, edges) && i < |edges|
    ensures var e := edges[i];
            DegreeWithin(nodes, edges, v) == DegreeWithin(nodes, Without(edges, i), v)
              + (if e.source == v then 1 else 0) + (if e.target == v then 1 else 0)
  {
    assert edges[i] in edges;
    DegreeOfConcatenation(nodes, edges[..i], edges[i + 1..], v);
    DegreeOfConcatenation(nodes, edges[..i], [edges[i]], v);
    assert edges[..i] + [edges[i]] == edges[..i + 1];
    DegreeOfConcatenation(nodes, edges[..i + 1], edges[i + 1..], v);
    assert edges[..i + 1] + edges[i + 1..] == edges;
  }

  /** No edge leaves a closed side, so all the edge ends in its nodes are inside it. */
  lemma {:induction false} ClosedSideKeepsDegree(nodes: set<Id>, edges: seq<GraphEdge>, side: set<Id>, v: Id)
    requires Known(nodes, edges) && v in side && side <= nodes && ClosedUnderSteps(nodes, edges, side)
    ensures DegreeWithin(side, edges, v) == DegreeWithin(nodes, edges, v)
  {
    if edges != [] {
      var init, e := edges[..|edges| - 1], edges[|edges| - 1];
      assert e in edges;
      if e.source == v || e.target == v {
        assert Links(e, e.source, e.target) && Links(e, e.target, e.source);
        assert Step(nodes, edges, v, if e.source == v then e.target else e.source);
      }
      forall a, b | a in side && Step(nodes, init, a, b)
        ensures Step(nodes, edges, a, b)
      {
      }
      ClosedSideKeepsDegree(nodes, init, side, v);
    }
  }

  lemma RealGroupIff(nodes: set<Id>, edges: seq<GraphEdge>, i: nat, a: Id)
    requires Known(nodes, edges) && i < |edges| && a in nodes
    ensures RealGroup(nodes, Without(edges, i), a) <==> GroupAround(nodes, edges, i, a)
  {
    hide Without, ThreeEndsMeet, ReachesAround;
    var rest := Without(edges, i);
    var side := Component(nodes, rest, a);
    KnownWithout(nodes, edges, i);
    ComponentStaysListed(nodes, rest, a);
    ComponentIsClosed(nodes, rest, a);
    forall v
      ensures v in side <==> ReachesAround(nodes, edges, i, a, v)
    {
      InComponent(nodes, rest, a, v);
      ReachesAroundIff(nodes, edges, i, a, v);
    }
    forall v | v in side
      ensures DegreeWithin(side, rest, v) >= 3 <==> ThreeEndsMeet(edges, i, v)
    {
      DegreeAround(nodes, edges, i, side, v);
    }
    TwoOrMore(side, a);
  }

  lemma TwoOrMore(s: set<Id>, a: Id)
    requires a in s
    ensures |s| >= 2 <==> exists v :: v != a && v in s
  {
    if v :| v != a && v in s {
      SubsetIsNotLarger({a, v}, s);
    } else {
      assert s == {a};
    }
  }

  /** In a graph of listed nodes an edge is a bridge if and only if no walk around it joins its ends, and each end
      reaches around it another node and a node in which three ends of other edges meet. */
  lemma BridgeIff(nodes: set<Id>, edges: seq<GraphEdge>, i: nat)
    requires Known(nodes, edges) && i < |edges|
    ensures IsBridge(nodes, edges, i) <==>
      && !ReachesAround(nodes, edges, i, edges[i].source, edges[i].target)
      && GroupAround(nodes, edges, i, edges[i].source) && GroupAround(nodes, edges, i, edges[i].target)
  {
    hide RealGroup, GroupAround, ReachesAround;
    assert edges[i] in edges;
    ReachesAroundIff(nodes, edges, i, edges[i].source, edges[i].target);
    RealGroupIff(nodes, edges, i, edges[i].source);
    RealGroupIff(nodes, edges, i, edges[i].target);
  }

  // ----- Where bridges cannot be

  ghost predicate Hub(nodes: set<Id>, edges: seq<GraphEdge>, v: Id)
  {
    v in nodes && DegreeWithin(nodes, edges, v) >= 3
  }

  lemma {:induction false} DegreeGrowsWithSide(side: set<Id>, nodes: set<Id>, edges: seq<GraphEdge>, v: Id)
    requires Known(nodes, edges)
    ensures DegreeWithin(side, edges, v) <= DegreeWithin(nodes, edges, v)
  {
    if edges != [] {
      assert edges[|edges| - 1] in edges;
      DegreeGrowsWithSide(side, nodes, edges[..|edges| - 1], v);
    }
  }

  /** A hub of one side of a cut is a hub of the whole graph. */
  lemma SideHubIsHub(nodes: set<Id>, edges: seq<GraphEdge>, i: nat, side: set<Id>, v: Id)
    requires Known(nodes, edges) && i < |edges|
    requires v in nodes && DegreeWithin(side, Without(edges, i), v) >= 3
    ensures Hub(nodes, edges, v)
  {
    DegreeGrowsWithSide(side, nodes, Without(edges, i), v);
    DegreeWithoutOne(nodes, edges, i, v);
  }

  /** A bridge needs two different hubs, one on each side of it. */
  lemma BridgeNeedsTwoHubs(nodes: set<Id>, edges: seq<GraphEdge>, i: nat) returns (v: Id, w: Id)
    requires Known(nodes, edges) && i < |edges| && IsBridge(nodes, edges, i)
    ensures v != w && Hub(nodes, edges, v) && Hub(nodes, edges, w)
  {
    var rest, e := Without(edges, i), edges[i];
    assert e in edges;
    var left, right := Component(nodes, rest, e.source), Component(nodes, rest, e.target);
    v :| v in left && DegreeWithin(left, rest, v) >= 3;
    w :| w in right && DegreeWithin(right, rest, w) >= 3;
    ComponentStaysListed(nodes, rest, e.source);
    ComponentStaysListed(nodes, rest, e.target);
    SideHubIsHub(nodes, edges, i, left, v);
    SideHubIsHub(nodes, edges, i, right, w);
    if v == w {
      ComponentsMeetOnlyIfEqual(nodes, rest, e.source, e.target, v);
      ComponentIsClosed(nodes, rest, e.target);
    }
  }

  lemma ComponentStaysListed(nodes: set<Id>, edges: seq<GraphEdge>, a: Id)
    requires Known(nodes, edges) && a in nodes
    ensures Component(nodes, edges, a) <= nodes
  {
  }

  /** Where at most two edge ends meet in every node there are no bridges. */
  lemma NoBridgesWithoutHubs(nodes: set<Id>, edges: seq<GraphEdge>)
    requires Known(nodes, edges)
    requires forall v :: v in nodes ==> |EdgesFrom(nodes, edges, v)| + |EdgesTo(nodes, edges, v)| <= 2
    ensures BridgesOf(nodes, edges) == []
  {
    forall v | v in nodes
      ensures !Hub(nodes, edges, v)
    {
      DegreeCountsEnds(nodes, edges, v);
    }
    NoBridgesWithoutTwoHubs(nodes, edges);
  }

  /** So a plain chain of different nodes has none, however long it is and whichever way its edges point. */
  lemma PlainChainHasNoBridges(chain: seq<Id>, edges: seq<GraphEdge>)
    requires NoRepeats(chain) && |edges| + 1 == |chain|
    requires forall i :: 0 <= i < |edges| ==> Links(edges[i], chain[i], chain[i + 1])
    ensures BridgesOf(ToSet(chain), edges) == []
  {
    var nodes := ToSet(chain);
    forall e | e in edges
      ensures e.source in nodes && e.target in nodes
    {
      var i :| 0 <= i < |edges| && edges[i] == e;
      assert Links(e, chain[i], chain[i + 1]);
    }
    forall v | v in nodes
      ensures |EdgesFrom(nodes, edges, v)| + |EdgesTo(nodes, edges, v)| <= 2
    {
      var m :| 0 <= m < |chain| && chain[m] == v;
      ChainEndsMeet(chain, edges, nodes, m);
    }
    NoBridgesWithoutHubs(nodes, edges);
  }

  lemma ChainEndsMeet(chain: seq<Id>, edges: seq<GraphEdge>, nodes: set<Id>, m: nat)
    requires NoRepeats(chain) && |edges| + 1 == |chain| && m < |chain|
    requires forall i :: 0 <= i < |edges| ==> Links(edges[i], chain[i], chain[i + 1])
    ensures |EdgesFrom(nodes, edges, chain[m])| + |EdgesTo(nodes, edges, chain[m])| <= 2
  {
    var from, to := EdgesFrom(nodes, edges, chain[m]), EdgesTo(nodes, edges, chain[m]);
    forall i | i in from + to
      ensures i == m - 1 || i == m
    {
      assert Links(edges[i], chain[i], chain[i + 1]);
    }
    forall i | i in from
      ensures i !in to
    {
      assert Links(edges[i], chain[i], chain[i + 1]) && chain[i] != chain[i + 1];
    }
    SubsetIsNotLarger(from + to, {m - 1, m});
    assert |from + to| == |from| + |to|;
  }

  /** With fewer than two hubs, whatever the size of the graph, findBridges returns nothing. */
  lemma NoBridgesWithoutTwoHubs(nodes: set<Id>, edges: seq<GraphEdge>)
    requires Known(nodes, edges)
    requires forall v, w :: Hub(nodes, edges, v) && Hub(nodes, edges, w) ==> v == w
    ensures BridgesOf(nodes, edges) == []
  {
    if BridgesOf(nodes, edges) != [] {
      var e, marks := BridgesOf(nodes, edges)[0], BridgeMarks(nodes, edges);
      PickIsSound(edges, marks, |edges|, true, e);
      var i :| 0 <= i < |edges| && marks[i];
      var v, w := BridgeNeedsTwoHubs(nodes, edges, i);
    }
  }

  // ----- The clusters themselves

  /** The list holds one node's whole component. */
  ghost predicate Whole(nodes: set<Id>, edges: seq<GraphEdge>, component: seq<Id>)
  {
    component != [] && component[0] in nodes && ToSet(component) == Component(nodes, edges, component[0])
  }

  ghost predicate AllWhole(nodes: set<Id>, edges: seq<GraphEdge>, components: seq<seq<Id>>)
  {
    forall k :: 0 <= k < |components| ==> Whole(nodes, edges, components[k])
  }

  ghost predicate PairwiseDisjoint(components: seq<seq<Id>>)
  {
    forall j, k :: 0 <= j < k < |components| ==> ToSet(components[j]) !! ToSet(components[k])
  }

  lemma WholeOfMember(nodes: set<Id>, edges: seq<GraphEdge>, component: seq<Id>, v: Id)
    requires Known(nodes, edges) && Whole(nodes, edges, component) && v in component
    ensures ToSet(component) == Component(nodes, edges, v) && v in nodes
  {
    assert v in ToSet(component);
    ComponentStaysListed(nodes, edges, component[0]);
    ComponentIsClosed(nodes, edges, v);
    ComponentsMeetOnlyIfEqual(nodes, edges, component[0], v, v);
  }

  lemma EarlierWouldHoldRoot(nodes: set<Id>, edges: seq<GraphEdge>, earlier: seq<seq<Id>>, root: Id, v: Id)
    requires Known(nodes, edges) && AllWhole(nodes, edges, earlier)
    requires v in Covered(earlier) && v in Component(nodes, edges, root)
    ensures root in Covered(earlier)
  {
    var c :| c in earlier && v in c;
    WholeOfMember(nodes, edges, c, v);
    ComponentIsClosed(nodes, edges, v);
    ComponentsMeetOnlyIfEqual(nodes, edges, v, root, v);
    ComponentIsClosed(nodes, edges, root);
    assert root in ToSet(c);
  }

  /** In a known graph no component is cut short by an earlier one. */
  lemma NextIsWhole(nodes: set<Id>, edges: seq<GraphEdge>, earlier: seq<seq<Id>>, component: seq<Id>)
    requires Known(nodes, edges) && AllWhole(nodes, edges, earlier)
    requires component != [] && component[0] in nodes
    requires ToSet(component) == Component(nodes, edges, component[0]) - Covered(earlier)
    ensures Whole(nodes, edges, component)
  {
    assert component[0] in ToSet(component);
    forall v | v in Component(nodes, edges, component[0])
      ensures v in ToSet(component)
    {
      if v in Covered(earlier) {
        EarlierWouldHoldRoot(nodes, edges, earlier, component[0], v);
      }
    }
  }

  lemma {:induction false} ComponentsAreWhole(nodes: set<Id>, edges: seq<GraphEdge>, components: seq<seq<Id>>, n: nat)
    requires Known(nodes, edges) && AreComponents(nodes, edges, components) && n <= |components|
    ensures AllWhole(nodes, edges, components[..n])
  {
    if n > 0 {
      ComponentsAreWhole(nodes, edges, components, n - 1);
      assert IsNextComponent(nodes, edges, components[..n - 1], components[n - 1]);
      NextIsWhole(nodes, edges, components[..n - 1], components[n - 1]);
      assert components[..n] == components[..n - 1] + [components[n - 1]];
    }
  }

  lemma ComponentsAreDisjoint(nodes: set<Id>, edges: seq<GraphEdge>, components: seq<seq<Id>>)
    requires AreComponents(nodes, edges, components)
    ensures PairwiseDisjoint(components)
  {
    forall j, k, v | 0 <= j < k < |components| && v in components[j]
      ensures v !in ToSet(components[k])
    {
      assert IsNextComponent(nodes, edges, components[..k], components[k]);
      assert components[..k][j] == components[j];
      assert v in Covered(components[..k]);
    }
  }

  /** Components of a known graph partition the nodes by reachability: each node lies in exactly one of them,
      with everything it reaches and nothing else. */
  lemma ComponentsPartitionNodes(nodes: set<Id>, edges: seq<GraphEdge>, components: seq<seq<Id>>)
    requires Known(nodes, edges) && AreComponents(nodes, edges, components) && nodes <= Covered(components)
    ensures Covered(components) == nodes && PairwiseDisjoint(components)
    ensures forall c, v :: c in components && v in c ==> ToSet(c) == Component(nodes, edges, v)
    ensures |components| == |Clusters(nodes, edges)|
  {
    ComponentsAreWhole(nodes, edges, components, |components|);
    ComponentsAreDisjoint(nodes, edges, components);
    assert components[..|components|] == components;
    ComponentsCountClusters(nodes, edges, components);
    forall c, v | c in components && v in c
      ensures ToSet(c) == Component(nodes, edges, v) && v in nodes
    {
      WholeOfMember(nodes, edges, c, v);
    }
  }

  function SidesOf(components: seq<seq<Id>>): seq<set<Id>>
  {
    seq(|components|, k requires 0 <= k < |components| => ToSet(components[k]))
  }

  lemma SidesAreClusters(nodes: set<Id>, edges: seq<GraphEdge>, components: seq<seq<Id>>, c: set<Id>)
    requires Known(nodes, edges) && AllWhole(nodes, edges, components) && nodes <= Covered(components)
    ensures c in SidesOf(components) <==> c in Clusters(nodes, edges)
  {
    if c in SidesOf(components) {
      var k :| 0 <= k < |components| && SidesOf(components)[k] == c;
      assert Whole(nodes, edges, components[k]);
    }
    if v :| v in nodes && c == Component(nodes, edges, v) {
      var component :| component in components && v in component;
      var k :| 0 <= k < |components| && components[k] == component;
      WholeOfMember(nodes, edges, component, v);
      assert SidesOf(components)[k] == c;
    }
  }

  lemma ComponentsCountClusters(nodes: set<Id>, edges: seq<GraphEdge>, components: seq<seq<Id>>)
    requires Known(nodes, edges) && AllWhole(nodes, edges, components) && PairwiseDisjoint(components)
    requires nodes <= Covered(components)
    ensures |components| == |Clusters(nodes, edges)|
  {
    var sides := SidesOf(components);
    forall j, k | 0 <= j < k < |sides|
      ensures sides[j] != sides[k]
    {
      assert Whole(nodes, edges, components[j]);
      assert components[j][0] in sides[j];
    }
    ListSize(sides);
    forall c {
      SidesAreClusters(nodes, edges, components, c);
    }
    assert ToSet(sides) == Clusters(nodes, edges);
  }
}
