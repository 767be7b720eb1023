/** web/src/shared/utils/graph/index.ts: from a session list to positions, cluster edges and bridges. */
module ClusteredLayout {
  import opened Graph
  import opened BlockingEdges
  import opened Bridges
  import opened Packing
  import opened Snapshots
  import opened Sublists

  datatype ClusteredLayout = ClusteredLayout(
    positions: Layout, clusterEdges: seq<GraphEdge>, bridgeEdges: seq<GraphEdge>)

  /** The simulations: any positions at all, one for each id they are given. */
  type ComponentSimulation = (seq<Id>, seq<GraphEdge>) -> Layout
  type SingletonSimulation = seq<Id> -> Layout

  // ----- Splitting the edges

  function KeysOf(edges: seq<GraphEdge>): set<string>
  {
    set e | e in edges :: EdgeKey(e)
  }

  function WithoutKeys(edges: seq<GraphEdge>, keys: set<string>): seq<GraphEdge>
  {
    if edges == [] then []
    else
      var last := edges[|edges| - 1];
      WithoutKeys(edges[..|edges| - 1], keys) + if EdgeKey(last) in keys then [] else [last]
  }

  lemma SameKeySameMark(edges: seq<GraphEdge>, marks: seq<bool>, i: nat, e: GraphEdge)
    requires DistinctKeys(edges) && i < |edges| == |marks|
    requires e in Pick(edges, marks, |edges|, true) && EdgeKey(e) == EdgeKey(edges[i])
    ensures marks[i]
  {
    PickIsSound(edges, marks, |edges|, true, e);
    var k :| 0 <= k < |edges| && edges[k] == e && marks[k];
    assert k == i;
  }

  lemma KeyIsMarkedKey(edges: seq<GraphEdge>, marks: seq<bool>, i: nat)
    requires DistinctKeys(edges) && i < |edges| == |marks|
    ensures EdgeKey(edges[i]) in KeysOf(Pick(edges, marks, |edges|, true)) <==> marks[i]
  {
    if marks[i] {
      PickIsSound(edges, marks, |edges|, true, edges[i]);
    } else if e :| e in Pick(edges, marks, |edges|, true) && EdgeKey(e) == EdgeKey(edges[i]) {
      SameKeySameMark(edges, marks, i, e);
    }
  }

  lemma {:induction false} FilterIsPick(edges: seq<GraphEdge>, marks: seq<bool>, n: nat, keys: set<string>)
    requires n <= |edges| == |marks| && forall i :: 0 <= i < n ==> (EdgeKey(edges[i]) in keys <==> marks[i])
    ensures WithoutKeys(edges[..n], keys) == Pick(edges, marks, n, false)
  {
    hide EdgeKey;
    if n > 0 {
      FilterIsPick(edges, marks, n - 1, keys);
      assert edges[..n][..n - 1] == edges[..n - 1];
    }
  }

  /** Filtering by key removes the marked edges and nothing else, whatever the ids look like: no two listed edges share
      a key. */
  lemma KeyFilterKeepsUnmarked(edges: seq<GraphEdge>, marks: seq<bool>)
    requires DistinctKeys(edges) && |edges| == |marks|
    ensures WithoutKeys(edges, KeysOf(Pick(edges, marks, |edges|, true))) == Pick(edges, marks, |edges|, false)
  {
    hide *;
    var keys := KeysOf(Pick(edges, marks, |edges|, true));
    forall i | 0 <= i < |edges|
      ensures EdgeKey(edges[i]) in keys <==> marks[i]
    {
      KeyIsMarkedKey(edges, marks, i);
    }
    FilterIsPick(edges, marks, |edges|, keys);
    assert edges[..|edges|] == edges;
  }

  lemma {:induction false} PickCount(edges: seq<GraphEdge>, marks: seq<bool>, n: nat)
    requires n <= |edges| == |marks|
    ensures |Pick(edges, marks, n, true)| + |Pick(edges, marks, n, false)| == n
  {
    if n > 0 {
      PickCount(edges, marks, n - 1);
    }
  }

  lemma PickSplits(edges: seq<GraphEdge>, marks: seq<bool>, e: GraphEdge)
    requires NoRepeats(edges) && |edges| == |marks|
    ensures e in Pick(edges, marks, |edges|, true) || e in Pick(edges, marks, |edges|, false) <==> e in edges
    ensures !(e in Pick(edges, marks, |edges|, true) && e in Pick(edges, marks, |edges|, false))
  {
    hide Pick, EdgeKey;
    PickIsSound(edges, marks, |edges|, true, e);
    PickIsSound(edges, marks, |edges|, false, e);
    if k :| 0 <= k < |edges| && edges[k] == e {
      assert marks[k] == true || marks[k] == false;
    }
  }

  lemma DistinctKeysMeanNoRepeats(edges: seq<GraphEdge>)
    requires DistinctKeys(edges)
    ensures NoRepeats(edges)
  {
  }

  /** Cluster edges and bridges split the edge list: nothing is lost, nothing is shared, nothing is repeated. */
  lemma EdgesAreSplit(sessions: seq<Session>)
    ensures var edges, kept, bridges :=
              EdgeListOf(sessions), ClusterEdges(sessions), BridgesOf(IdsOf(sessions), EdgeListOf(sessions));
            && |bridges| + |kept| == |edges|
            && forall e :: (e in edges <==> e in bridges || e in kept) && !(e in bridges && e in kept)
  {
    var edges, marks := EdgeListOf(sessions), BridgeMarks(IdsOf(sessions), EdgeListOf(sessions));
    EdgeListIsSound(sessions);
    DistinctKeysMeanNoRepeats(edges);
    PickCount(edges, marks, |edges|);
    forall e {
      PickSplits(edges, marks, e);
    }
  }

  // ----- Splitting the components

  function MultiNode(components: seq<seq<Id>>): seq<seq<Id>>
  {
    if components == [] then []
    else
      var last := components[|components| - 1];
      MultiNode(components[..|components| - 1]) + if |last| > 1 then [last] else []
  }

  function SingletonIds(components: seq<seq<Id>>): seq<Id>
  {
    if components == [] then []
    else
      var last := components[|components| - 1];
      SingletonIds(components[..|components| - 1]) + if |last| == 1 then [last[0]] else []
  }

  function EdgesWithin(nodeIds: seq<Id>, edges: seq<GraphEdge>): seq<GraphEdge>
  {
    if edges == [] then []
    else
      var last := edges[|edges| - 1];
      EdgesWithin(nodeIds, edges[..|edges| - 1])
      + if last.source in nodeIds && last.target in nodeIds then [last] else []
  }

  function LayoutAll(components: seq<seq<Id>>, edges: seq<GraphEdge>, simulate: ComponentSimulation)
    : (layouts: seq<Layout>)
    ensures |layouts| == |components|
  {
    seq(|components|, k requires 0 <= k < |components| => simulate(components[k], EdgesWithin(components[k], edges)))
  }

  predicate HasSeveral(component: seq<Id>)
  {
    |component| > 1
  }

  predicate HasOne(component: seq<Id>)
  {
    |component| == 1
  }

  function BothEndsIn(ids: seq<Id>): GraphEdge -> bool
  {
    (e: GraphEdge) => e.source in ids && e.target in ids
  }

  lemma {:induction false} EdgesWithinIsFilter(ids: seq<Id>, edges: seq<GraphEdge>)
    ensures IsFilter(EdgesWithin(ids, edges), edges, BothEndsIn(ids))
  {
    hide IsFilter;
    if edges == [] {
      NothingFromNothing(BothEndsIn(ids));
    } else {
      var init := edges[..|edges| - 1];
      EdgesWithinIsFilter(ids, init);
      FilterOfLonger(EdgesWithin(ids, init), edges, BothEndsIn(ids));
    }
  }

  lemma {:induction false} MultiNodeIsFilter(components: seq<seq<Id>>)
    ensures IsFilter(MultiNode(components), components, HasSeveral)
  {
    hide IsFilter;
    if components == [] {
      NothingFromNothing(HasSeveral);
    } else {
      var init := components[..|components| - 1];
      MultiNodeIsFilter(init);
      FilterOfLonger(MultiNode(init), components, HasSeveral);
    }
  }

  function OneByOne(ids: seq<Id>): (components: seq<seq<Id>>)
    ensures |components| == |ids| && forall k :: 0 <= k < |ids| ==> components[k] == [ids[k]]
  {
    seq(|ids|, k requires 0 <= k < |ids| => [ids[k]])
  }

  lemma OneMore(ids: seq<Id>, last: seq<Id>)
    ensures OneByOne(ids + if |last| == 1 then [last[0]] else []) == OneByOne(ids) + if |last| == 1 then [last] else []
  {
    assert |last| == 1 ==> [last[0]] == last;
  }

  lemma {:induction false} SingletonsAreFilter(components: seq<seq<Id>>)
    ensures IsFilter(OneByOne(SingletonIds(components)), components, HasOne)
  {
    hide IsFilter;
    if components == [] {
      NothingFromNothing(HasOne);
      assert OneByOne([]) == [];
    } else {
      var init, last := components[..|components| - 1], components[|components| - 1];
      SingletonsAreFilter(init);
      FilterOfLonger(OneByOne(SingletonIds(init)), components, HasOne);
      OneMore(SingletonIds(init), last);
    }
  }

  lemma {:induction false} MultiNodeMember(components: seq<seq<Id>>, c: seq<Id>)
    ensures c in MultiNode(components) <==> c in components && |c| > 1
  {
    if components != [] {
      var init, last := components[..|components| - 1], components[|components| - 1];
      MultiNodeMember(init, c);
      assert components == init + [last];
    }
  }

  lemma {:induction false} MultiNodeStaysDisjoint(components: seq<seq<Id>>)
    requires PairwiseDisjoint(components)
    ensures PairwiseDisjoint(MultiNode(components))
  {
    if components != [] {
      var init, last := components[..|components| - 1], components[|components| - 1];
      MultiNodeStaysDisjoint(init);
      forall c | c in MultiNode(init)
        ensures ToSet(c) !! ToSet(last)
      {
        MultiNodeMember(init, c);
        var j :| 0 <= j < |init| && init[j] == c;
        assert components[j] == c;
      }
    }
  }

  lemma {:induction false} SingletonMembers(components: seq<seq<Id>>, v: Id)
    ensures v in SingletonIds(components) <==> [v] in components
  {
    if components != [] {
      var init, last := components[..|components| - 1], components[|components| - 1];
      SingletonMembers(init, v);
      assert components == init + [last];
      assert |last| == 1 ==> last == [last[0]];
    }
  }

  // ----- Which components are laid out where

  /** Each node's cluster. */
  type Clustering = map<Id, set<Id>>

  ghost function ClusteringOf(nodes: set<Id>, edges: seq<GraphEdge>): Clustering
  {
    map v | v in nodes :: Component(nodes, edges, v)
  }

  /** The components are the clusters, each node of a cluster listed once. */
  ghost predicate ListsClusters(components: seq<seq<Id>>, clusters: Clustering)
  {
    && PairwiseDisjoint(components)
    && (forall c, v :: c in components && v in c ==> v in clusters && clusters[v] == ToSet(c) && |clusters[v]| == |c|)
    && (forall v :: v in clusters ==> exists c :: c in components && v in c)
  }

  lemma ComponentsListClusters(nodes: set<Id>, edges: seq<GraphEdge>, components: seq<seq<Id>>)
    requires Known(nodes, edges) && AreComponents(nodes, edges, components) && nodes <= Covered(components)
    ensures ListsClusters(components, ClusteringOf(nodes, edges))
  {
    hide Component, PairwiseDisjoint, Covered, AreComponents, ToSet;
    var clusters := ClusteringOf(nodes, edges);
    ComponentsPartitionNodes(nodes, edges, components);
    forall c, v | c in components && v in c
      ensures v in clusters && clusters[v] == ToSet(c) && |clusters[v]| == |c|
    {
      InCovered(components, c, v);
      ComponentSize(nodes, edges, components, c);
    }
    forall v | v in clusters
      ensures exists c :: c in components && v in c
    {
      CoveredBySome(components, v);
    }
  }

  lemma InCovered(components: seq<seq<Id>>, c: seq<Id>, v: Id)
    requires c in components && v in c
    ensures v in Covered(components)
  {
  }

  lemma CoveredBySome(components: seq<seq<Id>>, v: Id)
    requires v in Covered(components)
    ensures exists c :: c in components && v in c
  {
  }

  lemma ComponentSize(nodes: set<Id>, edges: seq<GraphEdge>, components: seq<seq<Id>>, c: seq<Id>)
    requires AreComponents(nodes, edges, components) && c in components
    ensures |ToSet(c)| == |c|
  {
    hide Component, DiscoveryOrder;
    var k :| 0 <= k < |components| && components[k] == c;
    assert IsNextComponent(nodes, edges, components[..k], components[k]);
    ListSize(c);
  }

  lemma ComponentHolding(components: seq<seq<Id>>, clusters: Clustering, v: Id) returns (c: seq<Id>)
    requires ListsClusters(components, clusters) && v in clusters
    ensures c in components && v in c && |c| == |clusters[v]| && ToSet(c) == clusters[v]
  {
    c :| c in components && v in c;
  }

  /** Multi-node components hold exactly the nodes of clusters of two or more. */
  lemma InMultiNode(components: seq<seq<Id>>, clusters: Clustering, v: Id)
    requires ListsClusters(components, clusters)
    ensures (exists c :: c in MultiNode(components) && v in c) <==> v in clusters && |clusters[v]| > 1
  {
    if c :| c in MultiNode(components) && v in c {
      MultiNodeMember(components, c);
      assert v in clusters && |clusters[v]| == |c|;
    } else if v in clusters {
      var c := ComponentHolding(components, clusters, v);
      MultiNodeMember(components, c);
    }
  }

  lemma ListedInCluster(components: seq<seq<Id>>, clusters: Clustering, c: seq<Id>, v: Id)
    requires ListsClusters(components, clusters) && c in components && v in c
    ensures v in clusters && |clusters[v]| == |c|
  {
    hide PairwiseDisjoint;
  }

  /** The singletons are exactly the nodes of clusters of one. */
  lemma InSingletons(components: seq<seq<Id>>, clusters: Clustering, v: Id)
    requires ListsClusters(components, clusters)
    ensures v in SingletonIds(components) <==> v in clusters && |clusters[v]| == 1
  {
    hide *;
    SingletonMembers(components, v);
    if [v] in components {
      ListedInCluster(components, clusters, [v], v);
    } else if v in clusters {
      var c := ComponentHolding(components, clusters, v);
      assert |c| == 1 ==> c == [v];
    }
  }

  /** layouts[k] positions the nodes of the k-th multi-node component. */
  ghost predicate LaysOut(layouts: seq<Layout>, components: seq<seq<Id>>)
  {
    |layouts| == |components| && forall k :: 0 <= k < |layouts| ==> layouts[k].Keys == ToSet(components[k])
  }

  lemma LayoutAllLaysOut(components: seq<seq<Id>>, edges: seq<GraphEdge>, simulate: ComponentSimulation)
    requires forall ids, es :: simulate(ids, es).Keys == ToSet(ids)
    ensures LaysOut(LayoutAll(components, edges, simulate), components)
  {
    forall k | 0 <= k < |components|
      ensures LayoutAll(components, edges, simulate)[k].Keys == ToSet(components[k])
    {
      assert simulate(components[k], EdgesWithin(components[k], edges)).Keys == ToSet(components[k]);
    }
  }

  lemma PackedNodes(components: seq<seq<Id>>, clusters: Clustering, layouts: seq<Layout>, v: Id)
    requires ListsClusters(components, clusters) && LaysOut(layouts, MultiNode(components))
    ensures v in Packed(layouts, BoxesOf(layouts), |layouts|) <==> v in clusters && |clusters[v]| > 1
  {
    PackedIds(layouts, BoxesOf(layouts), |layouts|, v);
    InMultiNode(components, clusters, v);
    InSomeLayout(layouts, MultiNode(components), v);
  }

  lemma InSomeLayout(layouts: seq<Layout>, components: seq<seq<Id>>, v: Id)
    requires LaysOut(layouts, components)
    ensures (exists k :: 0 <= k < |layouts| && v in layouts[k]) <==> exists c :: c in components && v in c
  {
    if k :| 0 <= k < |layouts| && v in layouts[k] {
      assert v in layouts[k].Keys;
      assert components[k] in components && v in components[k];
    }
    if c :| c in components && v in c {
      var k :| 0 <= k < |components| && components[k] == c;
      assert v in layouts[k].Keys;
    }
  }

  lemma LayoutHolding(components: seq<seq<Id>>, clusters: Clustering, layouts: seq<Layout>, v: Id) returns (k: nat)
    requires ListsClusters(components, clusters) && LaysOut(layouts, MultiNode(components))
    requires v in clusters && |clusters[v]| > 1
    ensures k < |layouts| && v in layouts[k] && layouts[k].Keys == clusters[v]
  {
    var c := ComponentHolding(components, clusters, v);
    MultiNodeMember(components, c);
    k :| 0 <= k < |layouts| && MultiNode(components)[k] == c;
    assert v in layouts[k].Keys;
  }

  lemma LayoutsAreDisjoint(components: seq<seq<Id>>, clusters: Clustering, layouts: seq<Layout>)
    requires ListsClusters(components, clusters) && LaysOut(layouts, MultiNode(components))
    ensures DisjointIds(layouts)
  {
    MultiNodeStaysDisjoint(components);
  }

  lemma ClustersFarApart(components: seq<seq<Id>>, clusters: Clustering, layouts: seq<Layout>, a: Id, b: Id)
    requires ListsClusters(components, clusters) && LaysOut(layouts, MultiNode(components))
    requires a in clusters && |clusters[a]| > 1 && b in clusters && |clusters[b]| > 1 && b !in clusters[a]
    ensures a in Packed(layouts, BoxesOf(layouts), |layouts|) && b in Packed(layouts, BoxesOf(layouts), |layouts|)
    ensures FarApart(Packed(layouts, BoxesOf(layouts), |layouts|)[a], Packed(layouts, BoxesOf(layouts), |layouts|)[b])
  {
    var i := LayoutHolding(components, clusters, layouts, a);
    var j := LayoutHolding(components, clusters, layouts, b);
    LayoutsAreDisjoint(components, clusters, layouts);
    PackedComponentsAreFarApart(layouts, i, j, a, b);
  }

  ghost predicate IsLowest(v: Id, nodes: set<Id>, positions: Layout)
    requires v in positions && nodes <= positions.Keys
  {
    v in nodes && forall w :: w in nodes ==> positions[w].y <= positions[v].y
  }

  ghost predicate IsTopmost(v: Id, nodes: set<Id>, positions: Layout)
    requires v in positions && nodes <= positions.Keys
  {
    v in nodes && forall w :: w in nodes ==> positions[v].y <= positions[w].y
  }

  /** The topmost of some nodes lies exactly the padding below the lowest of some others, or at 0 if there are none. */
  ghost predicate StartRightBelow(alone: set<Id>, together: set<Id>, positions: Layout)
    requires alone <= positions.Keys && together <= positions.Keys
  {
    && (alone != {} && together == {} ==>
          exists top :: top in alone && IsTopmost(top, alone, positions) && positions[top].y == 0.0)
    && (alone != {} && together != {} ==>
          exists top, low :: top in alone && IsTopmost(top, alone, positions)
                          && low in together && IsLowest(low, together, positions)
                          && positions[top].y == positions[low].y + 140.0)
  }

  function Alone(clusters: Clustering): set<Id>
  {
    set v | v in clusters && |clusters[v]| == 1
  }

  function Together(clusters: Clustering): set<Id>
  {
    set v | v in clusters && |clusters[v]| > 1
  }

  /** Each node has exactly one position; nodes of different multi-node clusters keep the padding between them;
      nodes on their own lie below every cluster, the topmost exactly the padding below the lowest. */
  ghost predicate WellPlaced(positions: Layout, clusters: Clustering)
  {
    && positions.Keys == clusters.Keys
    && (forall a, b :: a in clusters && b in clusters && b !in clusters[a] && |clusters[a]| > 1 && |clusters[b]| > 1
          ==> FarApart(positions[a], positions[b]))
    && (forall a, b :: a in clusters && b in clusters && |clusters[a]| > 1 && |clusters[b]| == 1
          ==> positions[b].y >= positions[a].y + 140.0)
    && StartRightBelow(Alone(clusters), Together(clusters), positions)
  }

  /** Where the nodes of a clustering are: the packed ones in clusters of two or more, the others alone. */
  ghost predicate Sorted(packed: Layout, alone: Layout, clusters: Clustering)
  {
    && (forall v :: v in packed <==> v in clusters && |clusters[v]| > 1)
    && (forall v :: v in alone <==> v in clusters && |clusters[v]| == 1)
  }

  lemma ArrangementIsSorted(components: seq<seq<Id>>, clusters: Clustering, layouts: seq<Layout>, scattered: Layout)
    requires ListsClusters(components, clusters) && LaysOut(layouts, MultiNode(components))
    requires scattered.Keys == ToSet(SingletonIds(components))
    ensures Sorted(Packed(layouts, BoxesOf(layouts), |layouts|), scattered, clusters)
  {
    forall v
      ensures v in Packed(layouts, BoxesOf(layouts), |layouts|) <==> v in clusters && |clusters[v]| > 1
      ensures v in scattered <==> v in clusters && |clusters[v]| == 1
    {
      PackedNodes(components, clusters, layouts, v);
      InSingletons(components, clusters, v);
      assert v in scattered.Keys <==> v in SingletonIds(components);
    }
  }

  ghost predicate ClustersAreApart(packed: Layout, clusters: Clustering)
    requires forall v :: v in packed ==> v in clusters
  {
    forall a, b :: a in packed && b in packed && b !in clusters[a] ==> FarApart(packed[a], packed[b])
  }

  lemma ArrangementIsApart(components: seq<seq<Id>>, clusters: Clustering, layouts: seq<Layout>, packed: Layout)
    requires ListsClusters(components, clusters) && LaysOut(layouts, MultiNode(components))
    requires packed == Packed(layouts, BoxesOf(layouts), |layouts|)
    requires forall v :: v in packed ==> v in clusters && |clusters[v]| > 1
    ensures ClustersAreApart(packed, clusters)
  {
    forall a, b | a in packed && b in packed && b !in clusters[a]
      ensures FarApart(packed[a], packed[b])
    {
      ClustersFarApart(components, clusters, layouts, a, b);
    }
  }

  ghost function StartY(packed: Layout): real
  {
    if packed == map[] then 0.0 else BoxOf(packed).maxY + COMPONENT_PADDING
  }

  lemma SortedAndApartIsWellPlaced(clusters: Clustering, packed: Layout, scattered: Layout)
    requires forall v :: v in clusters ==> |clusters[v]| >= 1
    requires Sorted(packed, scattered, clusters) && ClustersAreApart(packed, clusters)
    ensures WellPlaced(packed + Lowered(scattered, StartY(packed)), clusters)
  {
    var lowered := Lowered(scattered, StartY(packed));
    assert lowered.Keys == scattered.Keys;
    forall a, b | a in packed && b in lowered
      ensures lowered[b].y >= packed[a].y + 140.0
    {
      SingletonsLieBelow(packed, scattered, a, b);
    }
    hide StartRightBelow;
    SortedTouch(clusters, packed, scattered);
  }

  lemma SortedTouch(clusters: Clustering, packed: Layout, scattered: Layout)
    requires Sorted(packed, scattered, clusters)
    ensures Alone(clusters) == scattered.Keys && Together(clusters) == packed.Keys
    ensures StartRightBelow(Alone(clusters), Together(clusters), packed + Lowered(scattered, StartY(packed)))
  {
    hide StartRightBelow;
    assert packed.Keys == Together(clusters) && scattered.Keys == Alone(clusters);
    SingletonsTouch(packed, scattered);
  }

  lemma SingletonsTouch(packed: Layout, scattered: Layout)
    requires packed.Keys !! scattered.Keys
    ensures StartRightBelow(scattered.Keys, packed.Keys, packed + Lowered(scattered, StartY(packed)))
  {
    var startY := StartY(packed);
    var positions := packed + Lowered(scattered, startY);
    if scattered != map[] {
      SingletonsStartAt(scattered, startY);
      var top :| top in scattered && Lowered(scattered, startY)[top].y == startY;
      assert IsTopmost(top, scattered.Keys, positions);
      if packed != map[] {
        BoxOfIsBoundingBox(packed);
        var low :| low in packed && packed[low].y == BoxOf(packed).maxY;
        assert forall v :: v in packed ==> Inside(packed[v], BoxOf(packed));
        assert low in packed.Keys && IsLowest(low, packed.Keys, positions);
      }
    }
  }

  lemma SingletonsLieBelow(packed: Layout, scattered: Layout, a: Id, b: Id)
    requires a in packed && b in scattered
    ensures Lowered(scattered, StartY(packed))[b].y >= packed[a].y + 140.0
  {
    BoxOfIsBoundingBox(packed);
    assert Inside(packed[a], BoxOf(packed));
    SingletonsStartAt(scattered, StartY(packed));
  }

  /** The positions of one simulated layout, all moved by (dx, dy). */
  ghost predicate IsShifted(positions: Layout, layout: Layout, dx: real, dy: real)
  {
    forall id :: id in layout ==> id in positions && positions[id] == Position(layout[id].x + dx, layout[id].y + dy)
  }

  /** What the simulation makes of a component when it is given the edges inside it, each once and in edge-list order,
      and no others. */
  ghost predicate IsSimulated(
    layout: Layout, component: seq<Id>, edges: seq<GraphEdge>, simulate: ComponentSimulation)
  {
    exists inside :: IsFilter(inside, edges, BothEndsIn(component)) && layout == simulate(component, inside)
  }

  /** The component is drawn the way the simulation placed it, up to a shift. */
  ghost predicate DrawnAsSimulated(
    positions: Layout, component: seq<Id>, edges: seq<GraphEdge>, simulate: ComponentSimulation)
  {
    exists layout, dx, dy :: IsSimulated(layout, component, edges, simulate) && IsShifted(positions, layout, dx, dy)
  }

  ghost predicate ClustersDrawnAsSimulated(positions: Layout, components: seq<seq<Id>>, edges: seq<GraphEdge>,
                                           simulate: ComponentSimulation)
  {
    forall c :: c in components && |c| > 1 ==> DrawnAsSimulated(positions, c, edges, simulate)
  }

  /** The simulated layouts of the components of several nodes are tiled in the order of the components. */
  ghost predicate TiledInOrder(positions: Layout, components: seq<seq<Id>>, edges: seq<GraphEdge>,
                               simulate: ComponentSimulation)
  {
    exists several, layouts :: AreLayouts(layouts, several, components, edges, simulate)
                            && Packed(layouts, BoxesOf(layouts), |layouts|).Items <= positions.Items
  }

  ghost predicate AreLayouts(layouts: seq<Layout>, several: seq<seq<Id>>, components: seq<seq<Id>>,
                             edges: seq<GraphEdge>, simulate: ComponentSimulation)
  {
    && IsFilter(several, components, HasSeveral) && |layouts| == |several|
    && forall k :: 0 <= k < |several| ==> IsSimulated(layouts[k], several[k], edges, simulate)
  }

  lemma LayoutAllAreLayouts(components: seq<seq<Id>>, edges: seq<GraphEdge>, simulate: ComponentSimulation)
    ensures AreLayouts(LayoutAll(MultiNode(components), edges, simulate), MultiNode(components), components, edges,
                       simulate)
  {
    hide IsFilter, EdgesWithin, MultiNode;
    var several := MultiNode(components);
    MultiNodeIsFilter(components);
    forall k | 0 <= k < |several|
      ensures IsSimulated(LayoutAll(several, edges, simulate)[k], several[k], edges, simulate)
    {
      EdgesWithinIsFilter(several[k], edges);
    }
  }

  lemma PackedIsShifted(layouts: seq<Layout>, boxes: seq<Box>, packed: Layout, k: nat) returns (dx: real, dy: real)
    requires DisjointIds(layouts) && k < |layouts| == |boxes|
    requires packed == Packed(layouts, boxes, |layouts|)
    ensures IsShifted(packed, layouts[k], dx, dy)
  {
    dx, dy := Placed(boxes, k).minX - boxes[k].minX, Placed(boxes, k).minY - boxes[k].minY;
    forall id | id in layouts[k]
      ensures id in packed && packed[id] == Position(layouts[k][id].x + dx, layouts[k][id].y + dy)
    {
      PackedMovesRigidly(layouts, boxes, |layouts|, k, id);
    }
  }

  lemma ComponentIsDrawn(components: seq<seq<Id>>, clusters: Clustering, edges: seq<GraphEdge>,
                         simulate: ComponentSimulation, layouts: seq<Layout>, packed: Layout, alone: Layout, c: seq<Id>)
    requires ListsClusters(components, clusters) && c in components && |c| > 1
    requires AreLayouts(layouts, MultiNode(components), components, edges, simulate)
    requires LaysOut(layouts, MultiNode(components))
    requires packed == Packed(layouts, BoxesOf(layouts), |layouts|) && Sorted(packed, alone, clusters)
    ensures DrawnAsSimulated(packed + alone, c, edges, simulate)
  {
    hide IsFilter, IsSimulated, Packed, IsShifted;
    MultiNodeMember(components, c);
    var k :| 0 <= k < |layouts| && MultiNode(components)[k] == c;
    LayoutsAreDisjoint(components, clusters, layouts);
    var dx, dy := PackedIsShifted(layouts, BoxesOf(layouts), packed, k);
    ShiftSurvives(packed, alone, layouts[k], clusters, dx, dy);
    assert IsSimulated(layouts[k], c, edges, simulate);
  }

  lemma SortedAlsoLowered(packed: Layout, scattered: Layout, startY: real, clusters: Clustering)
    requires Sorted(packed, scattered, clusters)
    ensures Sorted(packed, Lowered(scattered, startY), clusters)
  {
    assert Lowered(scattered, startY).Keys == scattered.Keys;
  }

  lemma ShiftSurvives(packed: Layout, alone: Layout, layout: Layout, clusters: Clustering, dx: real, dy: real)
    requires Sorted(packed, alone, clusters) && IsShifted(packed, layout, dx, dy)
    ensures IsShifted(packed + alone, layout, dx, dy)
  {
    forall id | id in layout
      ensures id in packed && id !in alone
    {
      assert id in packed;
    }
  }

  lemma ClustersAreDrawn(components: seq<seq<Id>>, clusters: Clustering, edges: seq<GraphEdge>,
                         simulate: ComponentSimulation, layouts: seq<Layout>, packed: Layout, alone: Layout)
    requires ListsClusters(components, clusters)
    requires AreLayouts(layouts, MultiNode(components), components, edges, simulate)
    requires LaysOut(layouts, MultiNode(components))
    requires packed == Packed(layouts, BoxesOf(layouts), |layouts|) && Sorted(packed, alone, clusters)
    ensures ClustersDrawnAsSimulated(packed + alone, components, edges, simulate)
    ensures TiledInOrder(packed + alone, components, edges, simulate)
  {
    hide IsFilter, IsSimulated, Packed, LaysOut, AreLayouts, DrawnAsSimulated, Sorted, ListsClusters;
    forall c | c in components && |c| > 1
      ensures DrawnAsSimulated(packed + alone, c, edges, simulate)
    {
      ComponentIsDrawn(components, clusters, edges, simulate, layouts, packed, alone, c);
    }
    ItemsSurvive(packed, alone, clusters);
  }

  lemma ItemsSurvive(packed: Layout, alone: Layout, clusters: Clustering)
    requires Sorted(packed, alone, clusters)
    ensures packed.Items <= (packed + alone).Items
  {
    assert forall v :: v in packed ==> v !in alone;
  }

  /** The nodes on their own, handed over in component order, keep the arrangement they were scattered in, moved up or
      down only. */
  ghost predicate AloneDrawnAsScattered(positions: Layout, components: seq<seq<Id>>, scatter: SingletonSimulation)
  {
    exists ids, dy :: IsFilter(OneByOne(ids), components, HasOne) && IsShifted(positions, scatter(ids), 0.0, dy)
  }

  lemma AloneAreDrawn(components: seq<seq<Id>>, scatter: SingletonSimulation, packed: Layout, startY: real)
    ensures AloneDrawnAsScattered(packed + Lowered(scatter(SingletonIds(components)), startY), components, scatter)
  {
    hide IsFilter, SingletonIds;
    var ids := SingletonIds(components);
    SingletonsAreFilter(components);
    var dy := startY - BoxOf(scatter(ids)).minY;
    assert IsShifted(packed + Lowered(scatter(ids), startY), scatter(ids), 0.0, dy);
  }

  lemma NothingToDraw(edges: seq<GraphEdge>, simulate: ComponentSimulation, scatter: SingletonSimulation)
    requires scatter([]).Keys == ToSet([])
    ensures AloneDrawnAsScattered(map[], [], scatter) && TiledInOrder(map[], [], edges, simulate)
  {
    NothingFromNothing(HasOne);
    NothingFromNothing(HasSeveral);
    assert OneByOne([]) == [] && scatter([]).Keys == {};
    assert IsShifted(map[], scatter([]), 0.0, 0.0);
    assert AreLayouts([], [], [], edges, simulate);
  }

  // ----- The composition

  method Arrange(components: seq<seq<Id>>, edges: seq<GraphEdge>, simulate: ComponentSimulation,
                 scatter: SingletonSimulation, ghost clusters: Clustering)
    returns (positions: Layout)
    requires ListsClusters(components, clusters) && forall v :: v in clusters ==> |clusters[v]| >= 1
    requires forall ids, es :: simulate(ids, es).Keys == ToSet(ids)
    requires forall ids :: scatter(ids).Keys == ToSet(ids)
    ensures WellPlaced(positions, clusters)
    ensures ClustersDrawnAsSimulated(positions, components, edges, simulate)
    ensures TiledInOrder(positions, components, edges, simulate)
    ensures AloneDrawnAsScattered(positions, components, scatter)
  {
    var multiNodeComponents := MultiNode(components);
    var singletonIds := SingletonIds(components);
    var componentLayouts := LayoutAll(multiNodeComponents, edges, simulate);
    var packedPositions := PackComponents(componentLayouts);
    var singletonStartY := SingletonStartY(packedPositions);
    var scattered := scatter(singletonIds);
    var singletonPositions := LayoutSingletons(scattered, singletonStartY);
    LayoutAllLaysOut(multiNodeComponents, edges, simulate);
    LayoutAllAreLayouts(components, edges, simulate);
    ArrangementIsSorted(components, clusters, componentLayouts, scattered);
    ArrangementIsApart(components, clusters, componentLayouts, packedPositions);
    SortedAndApartIsWellPlaced(clusters, packedPositions, scattered);
    SortedAlsoLowered(packedPositions, scattered, StartY(packedPositions), clusters);
    ClustersAreDrawn(components, clusters, edges, simulate, componentLayouts, packedPositions, singletonPositions);
    AloneAreDrawn(components, scatter, packedPositions, singletonStartY);
    positions := packedPositions + singletonPositions;
  }

  method SingletonStartY(packed: Layout) returns (startY: real)
    ensures startY == StartY(packed)
  {
    if packed == map[] {
      return 0.0;
    }
    var box := BoundingBoxOf(packed);
    return box.maxY + COMPONENT_PADDING;
  }

  /** Every cluster edge reaches exactly one component, one of several nodes unless a session blocks itself. */
  lemma EdgeReachesOneComponent(sessions: seq<Session>, components: seq<seq<Id>>, e: GraphEdge) returns (k: nat)
    requires AreComponents(IdsOf(sessions), ClusterEdges(sessions), components)
    requires IdsOf(sessions) <= Covered(components) && e in ClusterEdges(sessions)
    ensures k < |components| && BothEndsIn(components[k])(e) && (e.source != e.target ==> |components[k]| > 1)
    ensures forall j :: 0 <= j < |components| && j != k ==> !BothEndsIn(components[j])(e)
  {
    hide AreComponents, Component, ClusterEdges, Covered;
    var nodes, edges := IdsOf(sessions), ClusterEdges(sessions);
    ClusterEdgesAreKnown(sessions);
    ComponentsListClusters(nodes, edges, components);
    var clusters := ClusteringOf(nodes, edges);
    var c := ComponentHolding(components, clusters, e.source);
    k :| 0 <= k < |components| && components[k] == c;
    EndsMeet(nodes, edges, e);
    assert e.target in ToSet(c);
    TwoNodes(c, e.source, e.target);
    forall j | 0 <= j < |components| && j != k
      ensures !BothEndsIn(components[j])(e)
    {
      InOneOnly(components, j, k, e.source);
    }
  }

  lemma InOneOnly(components: seq<seq<Id>>, j: nat, k: nat, v: Id)
    requires PairwiseDisjoint(components) && j < |components| && k < |components| && v in components[k] && j != k
    ensures v !in components[j]
  {
    assert v in ToSet(components[k]);
    assert v in components[j] ==> v in ToSet(components[j]);
  }

  lemma EndsMeet(nodes: set<Id>, edges: seq<GraphEdge>, e: GraphEdge)
    requires Known(nodes, edges) && e in edges
    ensures e.target in Component(nodes, edges, e.source)
  {
    ComponentIsClosed(nodes, edges, e.source);
    assert Links(e, e.source, e.target);
  }

  lemma TwoNodes(c: seq<Id>, v: Id, w: Id)
    requires v in c && w in c
    ensures v != w ==> |c| > 1
  {
  }

  ghost function ClusterEdges(sessions: seq<Session>): seq<GraphEdge>
  {
    ClusterEdgesOf(IdsOf(sessions), EdgeListOf(sessions))
  }

  lemma ClusterEdgesAreKnown(sessions: seq<Session>)
    ensures Known(IdsOf(sessions), ClusterEdges(sessions))
  {
    var nodes, edges := IdsOf(sessions), EdgeListOf(sessions);
    EdgeListIsSound(sessions);
    forall e | e in ClusterEdges(sessions)
      ensures e in edges
    {
      PickIsSound(edges, BridgeMarks(nodes, edges), |edges|, false, e);
    }
  }

  method ComputeClusteredLayout(sessions: seq<Session>, simulate: ComponentSimulation, scatter: SingletonSimulation)
    returns (layout: ClusteredLayout, ghost components: seq<seq<Id>>)
    requires forall ids, edges :: simulate(ids, edges).Keys == ToSet(ids)
    requires forall ids :: scatter(ids).Keys == ToSet(ids)
    ensures layout.clusterEdges == ClusterEdges(sessions)
    ensures layout.bridgeEdges == BridgesOf(IdsOf(sessions), EdgeListOf(sessions))
    ensures WellPlaced(layout.positions, ClusteringOf(IdsOf(sessions), layout.clusterEdges))
    ensures AreComponents(IdsOf(sessions), layout.clusterEdges, components)
    ensures StartInListOrder(NodeIds(sessions), components) && IdsOf(sessions) <= Covered(components)
    ensures ClustersDrawnAsSimulated(layout.positions, components, layout.clusterEdges, simulate)
    ensures TiledInOrder(layout.positions, components, layout.clusterEdges, simulate)
    ensures AloneDrawnAsScattered(layout.positions, components, scatter)
  {
    var nodeIds := NodeIds(sessions);
    ghost var nodes := IdsOf(sessions);
    var allEdges := BuildEdges(sessions);
    if |nodeIds| == 0 {
      NothingToDraw([], simulate, scatter);
      return ClusteredLayout(map[], [], []), [];
    }
    var bridges := FindBridges(nodeIds, allEdges);
    var clusterEdges := WithoutKeys(allEdges, KeysOf(bridges));
    EdgeListIsSound(sessions);
    KeyFilterKeepsUnmarked(allEdges, BridgeMarks(nodes, allEdges));
    var found := FindConnectedComponents(nodeIds, clusterEdges);
    components := found;
    ClusterEdgesAreKnown(sessions);
    ComponentsListClusters(nodes, clusterEdges, found);
    ClustersAreNotEmpty(nodes, clusterEdges);
    var positions := Arrange(found, clusterEdges, simulate, scatter, ClusteringOf(nodes, clusterEdges));
    layout := ClusteredLayout(positions, clusterEdges, bridges);
  }

  function NodeIds(sessions: seq<Session>): (ids: seq<Id>)
    ensures ToSet(ids) == IdsOf(sessions)
  {
    var ids := seq(|sessions|, i requires 0 <= i < |sessions| => sessions[i].id);
    assert forall i :: 0 <= i < |sessions| ==> ids[i] == sessions[i].id;
    ids
  }

  lemma ClustersAreNotEmpty(nodes: set<Id>, edges: seq<GraphEdge>)
    ensures forall v :: v in ClusteringOf(nodes, edges) ==> |ClusteringOf(nodes, edges)[v]| >= 1
  {
    forall v | v in nodes
      ensures |Component(nodes, edges, v)| >= 1
    {
      ComponentIsClosed(nodes, edges, v);
    }
  }
}
