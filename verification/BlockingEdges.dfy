/** web/src/shared/utils/graph/edges.ts: the edges of the blocking graph, their keys, and the
    breadth-first searches over it. An edge list is a sequence; an edge's identity is its position. */
module BlockingEdges {
  import opened Text
  import opened Graph
  import opened Snapshots

  function IdsOf(sessions: seq<Session>): set<Id>
  {
    set s | s in sessions :: s.id
  }

  // ----- Edge keys

  function EdgeKey(e: GraphEdge): string
  {
    if Less(e.target, e.source) then e.target + "::" + e.source else e.source + "::" + e.target
  }

  /** The key forgets the direction, for all ids. */
  lemma EdgeKeyIgnoresDirection(e: GraphEdge, f: GraphEdge)
    requires Links(e, f.source, f.target)
    ensures EdgeKey(e) == EdgeKey(f)
  {
    LessIsTotal(f.source, f.target);
    if Less(f.source, f.target) {
      LessIsAsymmetric(f.source, f.target);
    }
    if Less(f.target, f.source) {
      LessIsAsymmetric(f.target, f.source);
    }
  }

  predicate ColonFree(id: Id)
  {
    ':' !in id
  }

  lemma JoinIsInjective(a: string, b: string, c: string, d: string)
    requires ColonFree(a) && ColonFree(c)
    requires a + "::" + b == c + "::" + d
    ensures a == c && b == d
  {
    var s, t := a + "::" + b, c + "::" + d;
    assert s[|a|] == t[|a|] == ':' && s[|c|] == t[|c|] == ':';
    assert |a| == |c|;
    assert a == s[..|a|] && c == t[..|c|] && b == s[|a| + 2..] && d == t[|c| + 2..];
  }

  /** On ids without a colon (process ids, say) equal keys mean the same pair. */
  lemma EdgeKeyIdentifiesPair(e: GraphEdge, f: GraphEdge)
    requires ColonFree(e.source) && ColonFree(e.target) && ColonFree(f.source) && ColonFree(f.target)
    requires EdgeKey(e) == EdgeKey(f)
    ensures Links(e, f.source, f.target)
  {
    var (a, b) := if Less(e.target, e.source) then (e.target, e.source) else (e.source, e.target);
    var (c, d) := if Less(f.target, f.source) then (f.target, f.source) else (f.source, f.target);
    JoinIsInjective(a, b, c, d);
  }

  /** With colons in the ids the key can confuse two pairs. */
  lemma EdgeKeyCanCollide()
    ensures EdgeKey(GraphEdge("1", ":2")) == EdgeKey(GraphEdge("1:", "2"))
    ensures !Links(GraphEdge("1", ":2"), "1:", "2")
  {
    assert !Less(":2", "1") && !Less("2", "1:");
    assert "1" + "::" + ":2" == "1:::2" == "1:" + "::" + "2";
  }

  // ----- buildEdges

  /** The edge reports a known session `e.source` blocking the session `e.target`. */
  predicate Blocking(sessions: seq<Session>, e: GraphEdge)
  {
    && e.source in IdsOf(sessions)
    && exists s :: s in sessions && s.id == e.target && e.source in s.blockedBy
  }

  predicate DistinctKeys(edges: seq<GraphEdge>)
  {
    forall i, j :: 0 <= i < j < |edges| ==> EdgeKey(edges[i]) != EdgeKey(edges[j])
  }

  predicate HasKey(edges: seq<GraphEdge>, key: string)
  {
    exists e :: e in edges && EdgeKey(e) == key
  }

  /** One blocker: skipped when unknown or when its key has been seen. */
  function WithPair(edges: seq<GraphEdge>, known: set<Id>, pair: GraphEdge): seq<GraphEdge>
  {
    if pair.source !in known || HasKey(edges, EdgeKey(pair)) then edges else edges + [pair]
  }

  /** The edges after the first j blockers of a session. */
  function WithBlockers(edges: seq<GraphEdge>, session: Session, known: set<Id>, j: nat): seq<GraphEdge>
    requires j <= |session.blockedBy|
  {
    if j == 0 then edges
    else WithPair(WithBlockers(edges, session, known, j - 1), known, GraphEdge(session.blockedBy[j - 1], session.id))
  }

  /** The edges after the first i sessions. */
  function EdgesAfter(sessions: seq<Session>, known: set<Id>, i: nat): seq<GraphEdge>
    requires i <= |sessions|
  {
    if i == 0 then []
    else WithBlockers(EdgesAfter(sessions, known, i - 1), sessions[i - 1], known, |sessions[i - 1].blockedBy|)
  }

  function EdgeListOf(sessions: seq<Session>): seq<GraphEdge>
  {
    EdgesAfter(sessions, IdsOf(sessions), |sessions|)
  }

  lemma KeysOfLonger(edges: seq<GraphEdge>, edge: GraphEdge, key: string)
    ensures HasKey(edges + [edge], key) <==> HasKey(edges, key) || key == EdgeKey(edge)
  {
    var longer := edges + [edge];
    if HasKey(edges, key) {
      var e :| e in edges && EdgeKey(e) == key;
      assert e in longer;
    }
    assert edge in longer;
  }

  lemma SeenKeysOfLonger(edges: seq<GraphEdge>, edge: GraphEdge, seen: set<string>)
    requires forall key :: key in seen <==> HasKey(edges, key)
    ensures forall key :: key in seen + {EdgeKey(edge)} <==> HasKey(edges + [edge], key)
  {
    forall key
      ensures key in seen + {EdgeKey(edge)} <==> HasKey(edges + [edge], key)
    {
      KeysOfLonger(edges, edge, key);
    }
  }

  method BuildEdges(sessions: seq<Session>) returns (edges: seq<GraphEdge>)
    ensures edges == EdgeListOf(sessions)
  {
    var knownIds := IdsOf(sessions);
    var seen: set<string> := {};
    edges := [];
    for i := 0 to |sessions|
      invariant edges == EdgesAfter(sessions, knownIds, i)
      invariant forall key :: key in seen <==> HasKey(edges, key)
    {
      var session := sessions[i];
      ghost var before := edges;
      for j := 0 to |session.blockedBy|
        invariant edges == WithBlockers(before, session, knownIds, j)
        invariant forall key :: key in seen <==> HasKey(edges, key)
      {
        var edge := GraphEdge(session.blockedBy[j], session.id);
        if edge.source !in knownIds {
          continue;
        }
        var key := EdgeKey(edge);
        if key in seen {
          continue;
        }
        SeenKeysOfLonger(edges, edge, seen);
        seen := seen + {key};
        edges := edges + [edge];
      }
    }
  }

  lemma PairIsAdded(edges: seq<GraphEdge>, known: set<Id>, pair: GraphEdge)
    requires DistinctKeys(edges)
    ensures edges <= WithPair(edges, known, pair) && DistinctKeys(WithPair(edges, known, pair))
    ensures forall key :: HasKey(edges, key) ==> HasKey(WithPair(edges, known, pair), key)
    ensures pair.source in known ==> HasKey(WithPair(edges, known, pair), EdgeKey(pair))
  {
    forall key {
      KeysOfLonger(edges, pair, key);
    }
  }

  lemma {:induction false} BlockersAreAdded(edges: seq<GraphEdge>, session: Session, known: set<Id>, j: nat)
    requires j <= |session.blockedBy| && DistinctKeys(edges)
    ensures var more := WithBlockers(edges, session, known, j);
            && edges <= more && DistinctKeys(more)
            && (forall e :: e in more && e !in edges ==>
                  e.target == session.id && e.source in known && e.source in session.blockedBy)
  {
    if j > 0 {
      BlockersAreAdded(edges, session, known, j - 1);
      PairIsAdded(WithBlockers(edges, session, known, j - 1), known, GraphEdge(session.blockedBy[j - 1], session.id));
    }
  }

  lemma {:induction false} BlockerHasKey(edges: seq<GraphEdge>, session: Session, known: set<Id>, j: nat, m: nat)
    requires m < j <= |session.blockedBy| && DistinctKeys(edges) && session.blockedBy[m] in known
    ensures HasKey(WithBlockers(edges, session, known, j), EdgeKey(GraphEdge(session.blockedBy[m], session.id)))
  {
    BlockersAreAdded(edges, session, known, j - 1);
    PairIsAdded(WithBlockers(edges, session, known, j - 1), known, GraphEdge(session.blockedBy[j - 1], session.id));
    if m < j - 1 {
      BlockerHasKey(edges, session, known, j - 1, m);
    }
  }

  lemma {:induction false} SessionsAreAdded(sessions: seq<Session>, i: nat)
    requires i <= |sessions|
    ensures var edges := EdgesAfter(sessions, IdsOf(sessions), i);
            && DistinctKeys(edges)
            && (forall e :: e in edges ==> Blocking(sessions, e))
  {
    if i > 0 {
      SessionsAreAdded(sessions, i - 1);
      assert sessions[i - 1] in sessions;
      BlockersAreAdded(EdgesAfter(sessions, IdsOf(sessions), i - 1), sessions[i - 1], IdsOf(sessions),
                       |sessions[i - 1].blockedBy|);
    }
  }

  lemma {:induction false} EdgesArePrefixed(sessions: seq<Session>, k: nat, i: nat)
    requires k <= i <= |sessions|
    ensures EdgesAfter(sessions, IdsOf(sessions), k) <= EdgesAfter(sessions, IdsOf(sessions), i)
  {
    if k < i {
      EdgesArePrefixed(sessions, k, i - 1);
      SessionsAreAdded(sessions, i - 1);
      BlockersAreAdded(EdgesAfter(sessions, IdsOf(sessions), i - 1), sessions[i - 1], IdsOf(sessions),
                       |sessions[i - 1].blockedBy|);
    }
  }

  /** For all ids, the edge list holds only blocking pairs of known sessions, and each key once. */
  lemma EdgeListIsSound(sessions: seq<Session>)
    ensures forall e :: e in EdgeListOf(sessions) ==> Blocking(sessions, e)
    ensures Known(IdsOf(sessions), EdgeListOf(sessions))
    ensures DistinctKeys(EdgeListOf(sessions))
  {
    SessionsAreAdded(sessions, |sessions|);
  }

  /** For all ids, no blocking pair's key is missing from the edge list. */
  lemma EdgeListHasKey(sessions: seq<Session>, e: GraphEdge)
    requires Blocking(sessions, e)
    ensures HasKey(EdgeListOf(sessions), EdgeKey(e))
  {
    var s :| s in sessions && s.id == e.target && e.source in s.blockedBy;
    var k :| 0 <= k < |sessions| && sessions[k] == s;
    var m :| 0 <= m < |s.blockedBy| && s.blockedBy[m] == e.source;
    assert e == GraphEdge(s.blockedBy[m], s.id);
    SessionsAreAdded(sessions, k);
    BlockerHasKey(EdgesAfter(sessions, IdsOf(sessions), k), s, IdsOf(sessions), |s.blockedBy|, m);
    EdgesArePrefixed(sessions, k + 1, |sessions|);
    LongerHasKey(EdgesAfter(sessions, IdsOf(sessions), k + 1), EdgeListOf(sessions), EdgeKey(e));
  }

  lemma LongerHasKey(edges: seq<GraphEdge>, longer: seq<GraphEdge>, key: string)
    requires edges <= longer && HasKey(edges, key)
    ensures HasKey(longer, key)
  {
    var e :| e in edges && EdgeKey(e) == key;
    assert e in longer;
  }

  // ----- The order of the edges

  /** Where a blocker is read: which session, and which of its blockers. */
  datatype Place = Place(session: nat, blocker: nat)

  predicate Precedes(p: Place, q: Place)
  {
    p.session < q.session || (p.session == q.session && p.blocker < q.blocker)
  }

  predicate IsPlace(sessions: seq<Session>, p: Place)
  {
    p.session < |sessions| && p.blocker < |sessions[p.session].blockedBy|
  }

  /** The blocker read there, pointing at the session it blocks. */
  function EdgeAt(sessions: seq<Session>, p: Place): GraphEdge
    requires IsPlace(sessions, p)
  {
    GraphEdge(sessions[p.session].blockedBy[p.blocker], sessions[p.session].id)
  }

  /** A known blocker is read there, and no known blocker before it with the same key. */
  ghost predicate IsFirstOfKey(sessions: seq<Session>, p: Place)
  {
    && IsPlace(sessions, p) && EdgeAt(sessions, p).source in IdsOf(sessions)
    && forall q :: IsPlace(sessions, q) && Precedes(q, p) && EdgeAt(sessions, q).source in IdsOf(sessions) ==>
         EdgeKey(EdgeAt(sessions, q)) != EdgeKey(EdgeAt(sessions, p))
  }

  /** The edges are those read at some places, in reading order: the places before a limit where a key is read first. */
  ghost predicate ReadInOrder(sessions: seq<Session>, edges: seq<GraphEdge>, places: seq<Place>, limit: Place)
  {
    && |places| == |edges|
    && (forall k :: 0 <= k < |places| ==> IsFirstOfKey(sessions, places[k]) && edges[k] == EdgeAt(sessions, places[k]))
    && (forall j, k :: 0 <= j < k < |places| ==> Precedes(places[j], places[k]))
    && (forall p :: p in places ==> Precedes(p, limit))
    && (forall p :: IsFirstOfKey(sessions, p) && Precedes(p, limit) ==> p in places)
  }

  lemma PairInOrder(sessions: seq<Session>, edges: seq<GraphEdge>, places: seq<Place>, here: Place)
    returns (more: seq<Place>)
    requires IsPlace(sessions, here) && ReadInOrder(sessions, edges, places, here)
    ensures ReadInOrder(sessions, WithPair(edges, IdsOf(sessions), EdgeAt(sessions, here)), more,
                        Place(here.session, here.blocker + 1))
  {
    hide IsFirstOfKey, ReadInOrder, EdgeKey, HasKey;
    KeyIsNewIffFirst(sessions, edges, places, here);
    if IsFirstOfKey(sessions, here) {
      more := places + [here];
      FirstIsRead(sessions, edges, places, here);
    } else {
      more := places;
      SeenIsSkipped(sessions, edges, places, here);
    }
  }

  lemma NextPlace(here: Place, p: Place)
    ensures Precedes(p, Place(here.session, here.blocker + 1)) <==> p == here || Precedes(p, here)
  {
  }

  lemma FirstIsRead(sessions: seq<Session>, edges: seq<GraphEdge>, places: seq<Place>, here: Place)
    requires ReadInOrder(sessions, edges, places, here) && IsFirstOfKey(sessions, here)
    ensures ReadInOrder(sessions, edges + [EdgeAt(sessions, here)], places + [here],
                        Place(here.session, here.blocker + 1))
  {
    hide IsFirstOfKey, Precedes;
    var more, next := places + [here], Place(here.session, here.blocker + 1);
    IsReadSomewhere(sessions, here);
    forall p
      ensures p in more ==> Precedes(p, next)
      ensures IsFirstOfKey(sessions, p) && Precedes(p, next) ==> p in more
    {
      NextPlace(here, p);
    }
    forall j, k | 0 <= j < k < |more|
      ensures Precedes(more[j], more[k])
    {
      assert more[j] == places[j] && places[j] in places;
    }
  }

  lemma IsReadSomewhere(sessions: seq<Session>, p: Place)
    requires IsFirstOfKey(sessions, p)
    ensures IsPlace(sessions, p)
  {
  }

  lemma SeenIsSkipped(sessions: seq<Session>, edges: seq<GraphEdge>, places: seq<Place>, here: Place)
    requires ReadInOrder(sessions, edges, places, here) && !IsFirstOfKey(sessions, here)
    ensures ReadInOrder(sessions, edges, places, Place(here.session, here.blocker + 1))
  {
    hide IsFirstOfKey, Precedes;
    forall p {
      NextPlace(here, p);
    }
  }

  /** The key of a known blocker read before the limit is in the list. */
  lemma ReadKeyIsListed(sessions: seq<Session>, edges: seq<GraphEdge>, places: seq<Place>, limit: Place, q: Place)
    requires ReadInOrder(sessions, edges, places, limit)
    requires IsPlace(sessions, q) && Precedes(q, limit) && EdgeAt(sessions, q).source in IdsOf(sessions)
    ensures HasKey(edges, EdgeKey(EdgeAt(sessions, q)))
  {
    hide IsFirstOfKey, EdgeKey;
    var first := FirstOfKey(sessions, q);
    var k :| 0 <= k < |places| && places[k] == first;
    assert edges[k] in edges;
  }

  lemma KeyIsNewIffFirst(sessions: seq<Session>, edges: seq<GraphEdge>, places: seq<Place>, here: Place)
    requires IsPlace(sessions, here) && ReadInOrder(sessions, edges, places, here)
    ensures IsFirstOfKey(sessions, here) <==>
      EdgeAt(sessions, here).source in IdsOf(sessions) && !HasKey(edges, EdgeKey(EdgeAt(sessions, here)))
  {
    var edge := EdgeAt(sessions, here);
    if HasKey(edges, EdgeKey(edge)) {
      var k :| 0 <= k < |edges| && EdgeKey(edges[k]) == EdgeKey(edge);
      assert places[k] in places && Precedes(places[k], here);
    }
    forall q | IsPlace(sessions, q) && Precedes(q, here) && EdgeAt(sessions, q).source in IdsOf(sessions)
      ensures HasKey(edges, EdgeKey(EdgeAt(sessions, q)))
    {
      ReadKeyIsListed(sessions, edges, places, here, q);
    }
  }

  /** Where the key read at a place is read first. */
  lemma {:induction false} FirstOfKey(sessions: seq<Session>, q: Place) returns (first: Place)
    requires IsPlace(sessions, q) && EdgeAt(sessions, q).source in IdsOf(sessions)
    ensures IsFirstOfKey(sessions, first) && (first == q || Precedes(first, q))
    ensures EdgeKey(EdgeAt(sessions, first)) == EdgeKey(EdgeAt(sessions, q))
    decreases q.session, q.blocker
  {
    if IsFirstOfKey(sessions, q) {
      first := q;
    } else {
      var p :| IsPlace(sessions, p) && Precedes(p, q) && EdgeAt(sessions, p).source in IdsOf(sessions)
               && EdgeKey(EdgeAt(sessions, p)) == EdgeKey(EdgeAt(sessions, q));
      first := FirstOfKey(sessions, p);
    }
  }

  lemma {:induction false} BlockersInOrder(sessions: seq<Session>, edges: seq<GraphEdge>, places: seq<Place>, i: nat,
                                           j: nat)
    returns (more: seq<Place>)
    requires i < |sessions| && j <= |sessions[i].blockedBy| && ReadInOrder(sessions, edges, places, Place(i, 0))
    ensures ReadInOrder(sessions, WithBlockers(edges, sessions[i], IdsOf(sessions), j), more, Place(i, j))
  {
    hide ReadInOrder;
    more := places;
    if j > 0 {
      more := BlockersInOrder(sessions, edges, places, i, j - 1);
      more := PairInOrder(sessions, WithBlockers(edges, sessions[i], IdsOf(sessions), j - 1), more, Place(i, j - 1));
    }
  }

  lemma NextSessionInOrder(sessions: seq<Session>, edges: seq<GraphEdge>, places: seq<Place>, i: nat)
    requires i < |sessions| && ReadInOrder(sessions, edges, places, Place(i, |sessions[i].blockedBy|))
    ensures ReadInOrder(sessions, edges, places, Place(i + 1, 0))
  {
    assert forall p :: IsPlace(sessions, p) && Precedes(p, Place(i + 1, 0)) ==>
             Precedes(p, Place(i, |sessions[i].blockedBy|));
  }

  lemma {:induction false} SessionsInOrder(sessions: seq<Session>, i: nat) returns (places: seq<Place>)
    requires i <= |sessions|
    ensures ReadInOrder(sessions, EdgesAfter(sessions, IdsOf(sessions), i), places, Place(i, 0))
  {
    places := [];
    if i > 0 {
      hide ReadInOrder, WithBlockers, IdsOf;
      var edges := EdgesAfter(sessions, IdsOf(sessions), i - 1);
      places := SessionsInOrder(sessions, i - 1);
      places := BlockersInOrder(sessions, edges, places, i - 1, |sessions[i - 1].blockedBy|);
      NextSessionInOrder(sessions, EdgesAfter(sessions, IdsOf(sessions), i), places, i - 1);
    }
  }

  /** For all ids, the edge list holds one edge for each place where a key is first read, in reading order, and it
      points from the blocker read there to the session that lists it; if two sessions block each other the first one
      read decides the direction. */
  lemma EdgesComeInReadingOrder(sessions: seq<Session>) returns (places: seq<Place>)
    ensures ReadInOrder(sessions, EdgeListOf(sessions), places, Place(|sessions|, 0))
  {
    places := SessionsInOrder(sessions, |sessions|);
  }

  // ----- No pair lost

  ghost predicate EveryPairKept(sessions: seq<Session>)
  {
    forall e :: Blocking(sessions, e) ==> Adjacent(EdgeListOf(sessions), e.source, e.target)
  }

  ghost predicate KeysTellPairsApart(sessions: seq<Session>)
  {
    forall e, f :: Blocking(sessions, e) && Blocking(sessions, f) && EdgeKey(e) == EdgeKey(f)
      ==> Links(e, f.source, f.target)
  }

  /** Every blocking pair of known sessions has an edge of its own exactly when no two different
      blocking pairs share a key: the guard that skips a seen key is the only way to lose a pair. */
  lemma EveryPairKeptIffKeysDiffer(sessions: seq<Session>)
    ensures EveryPairKept(sessions) <==> KeysTellPairsApart(sessions)
  {
    var edges := EdgeListOf(sessions);
    if EveryPairKept(sessions) {
      EdgeListIsSound(sessions);
      forall e, f | Blocking(sessions, e) && Blocking(sessions, f) && EdgeKey(e) == EdgeKey(f)
        ensures Links(e, f.source, f.target)
      {
        SharedKeySharesEdge(edges, e, f);
      }
    }
    if KeysTellPairsApart(sessions) {
      EdgeListIsSound(sessions);
      forall e | Blocking(sessions, e)
        ensures Adjacent(edges, e.source, e.target)
      {
        EdgeListHasKey(sessions, e);
        var f :| f in edges && EdgeKey(f) == EdgeKey(e);
        assert Links(f, e.source, e.target);
      }
    }
  }

  /** Sessions on which a pair is lost: 1 blocks :2 and 1: blocks 2. */
  lemma PairCanBeLost() returns (sessions: seq<Session>, e: GraphEdge)
    ensures Blocking(sessions, e) && !Adjacent(EdgeListOf(sessions), e.source, e.target)
  {
    var a, b := Session(":2", "", 0, ["1"]), Session("2", "", 0, ["1:"]);
    sessions := [Session("1", "", 0, []), Session("1:", "", 0, []), a, b];
    assert sessions[0].id == "1" && sessions[1].id == "1:" && sessions[2] == a && sessions[3] == b;
    var first, second := GraphEdge("1", ":2"), GraphEdge("1:", "2");
    assert Blocking(sessions, first) && Blocking(sessions, second);
    EdgeKeyCanCollide();
    EveryPairKeptIffKeysDiffer(sessions);
    e :| Blocking(sessions, e) && !Adjacent(EdgeListOf(sessions), e.source, e.target);
  }

  lemma SharedKeySharesEdge(edges: seq<GraphEdge>, e: GraphEdge, f: GraphEdge)
    requires DistinctKeys(edges) && EdgeKey(e) == EdgeKey(f)
    requires Adjacent(edges, e.source, e.target) && Adjacent(edges, f.source, f.target)
    ensures Links(e, f.source, f.target)
  {
    var g :| g in edges && Links(g, e.source, e.target);
    var h :| h in edges && Links(h, f.source, f.target);
    EdgeKeyIgnoresDirection(g, e);
    EdgeKeyIgnoresDirection(h, f);
    OneEdgePerKey(edges, g, h);
  }

  lemma OneEdgePerKey(edges: seq<GraphEdge>, g: GraphEdge, h: GraphEdge)
    requires DistinctKeys(edges) && g in edges && h in edges && EdgeKey(g) == EdgeKey(h)
    ensures g == h
  {
  }

  /** On colon-free ids, two sessions are joined by exactly one edge if one blocks the other, and by none otherwise. */
  lemma OneEdgePerBlockingPair(sessions: seq<Session>, a: Id, b: Id)
    requires forall id :: id in IdsOf(sessions) ==> ColonFree(id)
    ensures var edges := EdgeListOf(sessions);
            && (Adjacent(edges, a, b) <==> Blocking(sessions, GraphEdge(a, b)) || Blocking(sessions, GraphEdge(b, a)))
            && forall i, j :: 0 <= i < |edges| && 0 <= j < |edges| && Links(edges[i], a, b) && Links(edges[j], a, b)
                 ==> i == j
  {
    var edges := EdgeListOf(sessions);
    EdgeListIsSound(sessions);
    forall i, j | 0 <= i < |edges| && 0 <= j < |edges| && Links(edges[i], a, b) && Links(edges[j], a, b)
      ensures i == j
    {
      EdgeKeyIgnoresDirection(edges[i], edges[j]);
    }
    ColonFreeKeysTellPairsApart(sessions);
    EveryPairKeptIffKeysDiffer(sessions);
    if Adjacent(edges, a, b) {
      EdgeListIsSound(sessions);
      AdjacentMeansBlocking(sessions, edges, a, b);
    } else {
      AdjacencyIgnoresDirection(edges, b, a);
    }
  }

  lemma ColonFreeKeysTellPairsApart(sessions: seq<Session>)
    requires forall id :: id in IdsOf(sessions) ==> ColonFree(id)
    ensures KeysTellPairsApart(sessions)
  {
    forall e, f | Blocking(sessions, e) && Blocking(sessions, f) && EdgeKey(e) == EdgeKey(f)
      ensures Links(e, f.source, f.target)
    {
      EdgeKeyIdentifiesPair(e, f);
    }
  }

  lemma AdjacentMeansBlocking(sessions: seq<Session>, edges: seq<GraphEdge>, a: Id, b: Id)
    requires forall e :: e in edges ==> Blocking(sessions, e)
    requires Adjacent(edges, a, b)
    ensures Blocking(sessions, GraphEdge(a, b)) || Blocking(sessions, GraphEdge(b, a))
  {
    var e :| e in edges && Links(e, a, b);
    assert e == GraphEdge(e.source, e.target);
  }

  lemma AdjacencyIgnoresDirection(edges: seq<GraphEdge>, a: Id, b: Id)
    ensures Adjacent(edges, a, b) <==> Adjacent(edges, b, a)
  {
    if e :| e in edges && Links(e, a, b) {
      assert Links(e, b, a);
    }
    if e :| e in edges && Links(e, b, a) {
      assert Links(e, a, b);
    }
  }

  // ----- Adjacency lists

  /** The neighbours of v in edge order; a self-loop lists v twice. */
  function NeighborsOf(edges: seq<GraphEdge>, v: Id): seq<Id>
  {
    if edges == [] then []
    else
      var e := edges[|edges| - 1];
      NeighborsOf(edges[..|edges| - 1], v)
      + (if e.source == v then [e.target] else [])
      + (if e.target == v then [e.source] else [])
  }

  lemma {:induction false} NeighborsInEdgeOrder(a: seq<GraphEdge>, b: seq<GraphEdge>, v: Id)
    ensures NeighborsOf(a + b, v) == NeighborsOf(a, v) + NeighborsOf(b, v)
  {
    if b == [] {
      assert a + b == a;
    } else {
      assert (a + b)[..|a + b| - 1] == a + b[..|b| - 1];
      NeighborsInEdgeOrder(a, b[..|b| - 1], v);
    }
  }

  lemma NeighborsOverOneEdge(e: GraphEdge, v: Id)
    ensures e.source == v != e.target ==> NeighborsOf([e], v) == [e.target]
    ensures e.target == v != e.source ==> NeighborsOf([e], v) == [e.source]
    ensures e.source == e.target == v ==> NeighborsOf([e], v) == [v, v]
    ensures e.source != v && e.target != v ==> NeighborsOf([e], v) == []
  {
    assert [e][..0] == [];
  }

  lemma {:induction false} NeighborsAreAdjacent(edges: seq<GraphEdge>, v: Id, w: Id)
    ensures w in NeighborsOf(edges, v) <==> Adjacent(edges, v, w)
  {
    if edges != [] {
      var rest, e := edges[..|edges| - 1], edges[|edges| - 1];
      assert edges == rest + [e];
      NeighborsAreAdjacent(rest, v, w);
      assert Adjacent(edges, v, w) <==> Adjacent(rest, v, w) || Links(e, v, w) by {
        if Links(e, v, w) {
          assert e in edges;
        }
      }
    }
  }

  /** One more neighbour in a listed node's list; unlisted nodes have none to add to. */
  function Push(adjacency: map<Id, seq<Id>>, id: Id, neighbor: Id): (longer: map<Id, seq<Id>>)
    ensures longer.Keys == adjacency.Keys
    ensures forall v :: v in adjacency ==> longer[v] == adjacency[v] + if v == id then [neighbor] else []
  {
    if id in adjacency then adjacency[id := adjacency[id] + [neighbor]] else adjacency
  }

  method BuildAdjacency(nodeIds: seq<Id>, edges: seq<GraphEdge>) returns (adjacency: map<Id, seq<Id>>)
    ensures adjacency.Keys == ToSet(nodeIds)
    ensures forall v :: v in adjacency ==> adjacency[v] == NeighborsOf(edges, v)
  {
    adjacency := map v | v in nodeIds :: [];
    for i := 0 to |edges|
      invariant adjacency.Keys == ToSet(nodeIds)
      invariant forall v :: v in adjacency ==> adjacency[v] == NeighborsOf(edges[..i], v)
    {
      assert edges[..i + 1][..i] == edges[..i];
      adjacency := Push(adjacency, edges[i].source, edges[i].target);
      adjacency := Push(adjacency, edges[i].target, edges[i].source);
    }
    assert edges[..|edges|] == edges;
  }

  // ----- Breadth-first search

  predicate NoRepeats<T(==)>(s: seq<T>)
  {
    forall i, j :: 0 <= i < j < |s| ==> s[i] != s[j]
  }

  function ToSet<T>(s: seq<T>): set<T>
  {
    set x | x in s
  }

  /** Mid-search: `order` is settled, `queue` is discovered, together they are what this search has visited. */
  ghost predicate Searching(nodes: set<Id>, edges: seq<GraphEdge>, root: Id, before: set<Id>,
                            found: seq<Id>, visited: set<Id>)
  {
    && NoRepeats(found) && |found| > 0 && found[0] == root
    && visited == before + ToSet(found)
    && forall v :: v in found ==> v !in before && v in Endpoints(edges) + {root} && Reaches(nodes, edges, root, v)
  }

  // ----- Breadth first

  /** The l-th neighbour of the q-th node found is v. */
  predicate Discovers(nodes: set<Id>, edges: seq<GraphEdge>, found: seq<Id>, q: nat, l: nat, v: Id)
  {
    && q < |found| && found[q] in nodes
    && l < |NeighborsOf(edges, found[q])| && NeighborsOf(edges, found[q])[l] == v
  }

  predicate Earlier(q: nat, l: nat, p: nat, m: nat)
  {
    q < p || (q == p && l < m)
  }

  ghost predicate DiscoveredBefore(nodes: set<Id>, edges: seq<GraphEdge>, found: seq<Id>, v: Id, p: nat, m: nat)
  {
    exists q, l :: Earlier(q, l, p, m) && Discovers(nodes, edges, found, q, l, v)
  }

  /** Nodes stand in the order in which they are first met when the neighbours of the first node are read in turn, then
      those of the second, and so on: the order of a breadth-first search, which this determines. */
  ghost predicate DiscoveryOrder(nodes: set<Id>, edges: seq<GraphEdge>, found: seq<Id>)
  {
    forall i, j, p, m :: 0 < i < j < |found| && Discovers(nodes, edges, found, p, m, found[j]) ==>
      DiscoveredBefore(nodes, edges, found, found[i], p, m)
  }

  /** The neighbours before the n-th of the c-th node have been read: what was met is visited, and the rest of what was
      found was met. */
  ghost predicate Progress(
    nodes: set<Id>, edges: seq<GraphEdge>, found: seq<Id>, visited: set<Id>, c: nat, n: nat)
  {
    && DiscoveryOrder(nodes, edges, found)
    && (forall i :: 0 < i < |found| ==> DiscoveredBefore(nodes, edges, found, found[i], c, n))
    && (forall q, l, v :: Earlier(q, l, c, n) && Discovers(nodes, edges, found, q, l, v) ==> v in visited)
  }

  lemma ProgressOverKnown(
    nodes: set<Id>, edges: seq<GraphEdge>, found: seq<Id>, visited: set<Id>, c: nat, n: nat, v: Id)
    requires Progress(nodes, edges, found, visited, c, n) && v in visited
    requires Discovers(nodes, edges, found, c, n, v)
    ensures Progress(nodes, edges, found, visited, c, n + 1)
  {
    forall i | 0 < i < |found|
      ensures DiscoveredBefore(nodes, edges, found, found[i], c, n + 1)
    {
      BeforeLater(nodes, edges, found, found[i], c, n, c, n + 1);
    }
  }

  lemma BeforeLater(nodes: set<Id>, edges: seq<GraphEdge>, found: seq<Id>, v: Id, c: nat, n: nat, p: nat, m: nat)
    requires DiscoveredBefore(nodes, edges, found, v, c, n) && !Earlier(p, m, c, n)
    ensures DiscoveredBefore(nodes, edges, found, v, p, m)
  {
    var q, l :| Earlier(q, l, c, n) && Discovers(nodes, edges, found, q, l, v);
    assert Earlier(q, l, p, m);
  }

  lemma BeforeLonger(nodes: set<Id>, edges: seq<GraphEdge>, found: seq<Id>, v: Id, p: nat, m: nat, x: Id)
    requires DiscoveredBefore(nodes, edges, found, v, p, m)
    ensures DiscoveredBefore(nodes, edges, found + [x], v, p, m)
  {
    var q, l :| Earlier(q, l, p, m) && Discovers(nodes, edges, found, q, l, v);
    assert Discovers(nodes, edges, found + [x], q, l, v);
  }

  lemma OrderOfLonger(
    nodes: set<Id>, edges: seq<GraphEdge>, found: seq<Id>, visited: set<Id>, c: nat, n: nat, x: Id,
    i: nat, j: nat, p: nat, m: nat)
    requires Progress(nodes, edges, found, visited, c, n) && c < |found| && x !in visited
    requires 0 < i < j <= |found| && Discovers(nodes, edges, found + [x], p, m, (found + [x])[j])
    ensures DiscoveredBefore(nodes, edges, found + [x], found[i], p, m)
  {
    if p < |found| {
      assert Discovers(nodes, edges, found, p, m, (found + [x])[j]);
    }
    if j < |found| && p < |found| {
      assert DiscoveredBefore(nodes, edges, found, found[i], p, m);
    } else {
      BeforeLater(nodes, edges, found, found[i], c, n, p, m);
    }
    BeforeLonger(nodes, edges, found, found[i], p, m, x);
  }

  lemma ProgressOverNew(
    nodes: set<Id>, edges: seq<GraphEdge>, found: seq<Id>, visited: set<Id>, c: nat, n: nat, x: Id)
    requires Progress(nodes, edges, found, visited, c, n) && x !in visited
    requires Discovers(nodes, edges, found, c, n, x)
    ensures Progress(nodes, edges, found + [x], visited + {x}, c, n + 1)
  {
    var longer := found + [x];
    assert Discovers(nodes, edges, longer, c, n, x) && Earlier(c, n, c, n + 1);
    forall i, j, p, m | 0 < i < j < |longer| && Discovers(nodes, edges, longer, p, m, longer[j])
      ensures DiscoveredBefore(nodes, edges, longer, longer[i], p, m)
    {
      OrderOfLonger(nodes, edges, found, visited, c, n, x, i, j, p, m);
    }
    forall i | 0 < i < |longer|
      ensures DiscoveredBefore(nodes, edges, longer, longer[i], c, n + 1)
    {
      if i < |found| {
        BeforeLater(nodes, edges, found, found[i], c, n, c, n + 1);
        BeforeLonger(nodes, edges, found, found[i], c, n + 1, x);
      }
    }
    forall q, l, v | Earlier(q, l, c, n + 1) && Discovers(nodes, edges, longer, q, l, v)
      ensures v in visited + {x}
    {
      assert Discovers(nodes, edges, found, q, l, v);
    }
  }

  /** All neighbours of the c-th node have been read. */
  lemma ProgressToNext(nodes: set<Id>, edges: seq<GraphEdge>, found: seq<Id>, visited: set<Id>, c: nat, n: nat)
    requires Progress(nodes, edges, found, visited, c, n) && c < |found|
    requires found[c] in nodes ==> n == |NeighborsOf(edges, found[c])|
    ensures Progress(nodes, edges, found, visited, c + 1, 0)
  {
    forall i | 0 < i < |found|
      ensures DiscoveredBefore(nodes, edges, found, found[i], c + 1, 0)
    {
      BeforeLater(nodes, edges, found, found[i], c, n, c + 1, 0);
    }
  }

  /** The node is at most n steps away from the root. */
  ghost predicate Near(nodes: set<Id>, edges: seq<GraphEdge>, root: Id, v: Id, n: nat)
    decreases n
  {
    if n == 0 then v == root
    else
      || Near(nodes, edges, root, v, n - 1)
      || exists u :: Near(nodes, edges, root, u, n - 1) && Step(nodes, edges, u, v)
  }

  lemma {:induction false} RootIsNear(nodes: set<Id>, edges: seq<GraphEdge>, root: Id, n: nat)
    ensures Near(nodes, edges, root, root, n)
  {
    if n > 0 {
      RootIsNear(nodes, edges, root, n - 1);
    }
  }

  lemma {:induction false} NearIsReached(nodes: set<Id>, edges: seq<GraphEdge>, root: Id, v: Id, n: nat)
    requires Near(nodes, edges, root, v, n)
    ensures Reaches(nodes, edges, root, v)
    decreases n
  {
    if n == 0 {
      ReachesItself(nodes, edges, root);
    } else if Near(nodes, edges, root, v, n - 1) {
      NearIsReached(nodes, edges, root, v, n - 1);
    } else {
      var u :| Near(nodes, edges, root, u, n - 1) && Step(nodes, edges, u, v);
      NearIsReached(nodes, edges, root, u, n - 1);
      ReachesStep(nodes, edges, root, u, v);
    }
  }

  /** What a search returns. */
  ghost predicate IsSearchOrder(nodes: set<Id>, edges: seq<GraphEdge>, root: Id, before: set<Id>, order: seq<Id>)
  {
    && NoRepeats(order) && |order| > 0 && order[0] == root
    && ToSet(order) == Component(nodes, edges, root) - before
    && DiscoveryOrder(nodes, edges, order)
  }

  /** What a search returns is fixed by the graph, the edge order and what was visited before. */
  lemma SearchOrderIsUnique(nodes: set<Id>, edges: seq<GraphEdge>, root: Id, before: set<Id>, a: seq<Id>, b: seq<Id>)
    requires ClosedUnderSteps(nodes, edges, before)
    requires IsSearchOrder(nodes, edges, root, before, a) && IsSearchOrder(nodes, edges, root, before, b)
    ensures a == b
  {
    hide DiscoveryOrder, Component, ClosedUnderSteps;
    SameLength(a, b);
    SameUpTo(nodes, edges, root, before, a, b, |a|);
    assert a[..|a|] == a && b[..|b|] == b;
  }

  lemma {:induction false} SameLength(a: seq<Id>, b: seq<Id>)
    requires NoRepeats(a) && NoRepeats(b) && ToSet(a) == ToSet(b)
    ensures |a| == |b|
  {
    ListSize(a);
    ListSize(b);
  }

  lemma {:induction false} ListSize<T>(s: seq<T>)
    requires NoRepeats(s)
    ensures |ToSet(s)| == |s|
  {
    if s != [] {
      var init, last := s[..|s| - 1], s[|s| - 1];
      ListSize(init);
      assert ToSet(s) == ToSet(init) + {last};
      assert last !in init;
    }
  }

  lemma {:induction false} SameUpTo(
    nodes: set<Id>, edges: seq<GraphEdge>, root: Id, before: set<Id>, a: seq<Id>, b: seq<Id>, k: nat)
    requires ClosedUnderSteps(nodes, edges, before) && k <= |a| == |b|
    requires IsSearchOrder(nodes, edges, root, before, a) && IsSearchOrder(nodes, edges, root, before, b)
    ensures a[..k] == b[..k]
  {
    hide DiscoveryOrder, Component, ClosedUnderSteps;
    if k > 1 {
      SameUpTo(nodes, edges, root, before, a, b, k - 1);
      if a[k - 1] != b[k - 1] {
        LaterInOther(a, b, k - 1);
        LaterInOther(b, a, k - 1);
        var p, m := FoundFromFront(nodes, edges, root, before, b, k - 1);
        SameItems(a, b, k - 1);
        DiscoveredInOther(nodes, edges, b, a, p, m, b[k - 1]);
        NoTwoNext(nodes, edges, a, b, k - 1, p, m);
      }
      assert a[..k] == a[..k - 1] + [a[k - 1]] && b[..k] == b[..k - 1] + [b[k - 1]];
    }
  }

  /** Where the lists first differ, what the one has next the other has later. */
  lemma LaterInOther(a: seq<Id>, b: seq<Id>, k: nat)
    requires NoRepeats(a) && NoRepeats(b) && ToSet(a) == ToSet(b) && k < |a| == |b|
    requires a[..k] == b[..k] && a[k] != b[k]
    ensures ComesLater(a, k, b[k])
  {
    SameItems(a, b, k);
    assert b[k] in ToSet(a);
    var j :| 0 <= j < |a| && a[j] == b[k];
  }

  predicate ComesLater(a: seq<Id>, k: nat, v: Id)
  {
    exists j :: k < j < |a| && a[j] == v
  }

  lemma SameItems(a: seq<Id>, b: seq<Id>, k: nat)
    requires k <= |a| == |b| && a[..k] == b[..k]
    ensures forall i :: 0 <= i < k ==> a[i] == b[i]
  {
    assert forall i :: 0 <= i < k ==> a[i] == a[..k][i] && b[i] == b[..k][i];
  }

  lemma DiscoveredInOther(
    nodes: set<Id>, edges: seq<GraphEdge>, a: seq<Id>, b: seq<Id>, p: nat, m: nat, v: Id)
    requires Discovers(nodes, edges, a, p, m, v) && p < |b| && b[p] == a[p]
    ensures Discovers(nodes, edges, b, p, m, v)
  {
  }

  /** Whatever meets a later node, something met an earlier node before. */
  lemma MetBefore(
    nodes: set<Id>, edges: seq<GraphEdge>, a: seq<Id>, k: nat, v: Id, p: nat, m: nat) returns (q: nat, l: nat)
    requires DiscoveryOrder(nodes, edges, a) && 0 < k < |a| && ComesLater(a, k, v)
    requires Discovers(nodes, edges, a, p, m, v)
    ensures Earlier(q, l, p, m) && Discovers(nodes, edges, a, q, l, a[k])
  {
    hide Discovers, Earlier;
    var j :| k < j < |a| && a[j] == v;
    assert DiscoveredBefore(nodes, edges, a, a[k], p, m);
    q, l :| Earlier(q, l, p, m) && Discovers(nodes, edges, a, q, l, a[k]);
  }

  /** Two different nodes cannot each be met before the other. */
  lemma {:induction false} NoTwoNext(
    nodes: set<Id>, edges: seq<GraphEdge>, a: seq<Id>, b: seq<Id>, k: nat, p: nat, m: nat)
    requires DiscoveryOrder(nodes, edges, a) && DiscoveryOrder(nodes, edges, b)
    requires 0 < k < |a| == |b| && a[..k] == b[..k]
    requires ComesLater(a, k, b[k]) && ComesLater(b, k, a[k])
    requires p < k && Discovers(nodes, edges, a, p, m, b[k])
    ensures false
    decreases p, m
  {
    hide DiscoveryOrder, ComesLater, Discovers;
    var q, l := MetBefore(nodes, edges, a, k, b[k], p, m);
    SameItems(a, b, k);
    DiscoveredInOther(nodes, edges, a, b, q, l, a[k]);
    NoTwoNext(nodes, edges, b, a, k, q, l);
  }

  /** Every node but the root is met from one listed before it. */
  lemma FoundFromFront(
    nodes: set<Id>, edges: seq<GraphEdge>, root: Id, before: set<Id>, order: seq<Id>, k: nat) returns (p: nat, m: nat)
    requires ClosedUnderSteps(nodes, edges, before) && IsSearchOrder(nodes, edges, root, before, order)
    requires 0 < k < |order|
    ensures p < k && Discovers(nodes, edges, order, p, m, order[k])
  {
    var front := before + ToSet(order[..k]);
    InFront(order, k);
    FrontIsLeft(nodes, edges, root, before, order, k);
    var u, v :| u in front && Step(nodes, edges, u, v) && v !in front;
    p :| 0 <= p < k && order[p] == u;
    StepStays(nodes, edges, root, before, order, u, v);
    var j :| 0 <= j < |order| && order[j] == v;
    NeighborsAreAdjacent(edges, u, v);
    m :| 0 <= m < |NeighborsOf(edges, u)| && NeighborsOf(edges, u)[m] == v;
    assert Discovers(nodes, edges, order, p, m, order[j]);
    if j > k {
      assert DiscoveredBefore(nodes, edges, order, order[k], p, m);
      var q: nat, l: nat :| Earlier(q, l, p, m) && Discovers(nodes, edges, order, q, l, order[k]);
      p, m := q, l;
    }
  }

  lemma InFront(order: seq<Id>, k: nat)
    requires k <= |order|
    ensures forall i :: 0 <= i < k ==> order[i] in ToSet(order[..k])
  {
    assert forall i :: 0 <= i < k ==> order[i] == order[..k][i];
  }

  /** A walk from the root to a node leads out of the nodes listed before it. */
  lemma FrontIsLeft(nodes: set<Id>, edges: seq<GraphEdge>, root: Id, before: set<Id>, order: seq<Id>, k: nat)
    requires IsSearchOrder(nodes, edges, root, before, order) && 0 < k < |order|
    ensures !ClosedUnderSteps(nodes, edges, before + ToSet(order[..k]))
  {
    var front := before + ToSet(order[..k]);
    assert order[..k][0] == root;
    assert order[k] in ToSet(order);
    InComponent(nodes, edges, root, order[k]);
    if ClosedUnderSteps(nodes, edges, front) {
      ClosedSetTrapsWalks(nodes, edges, front, root, order[k]);
    }
  }

  lemma StepStays(nodes: set<Id>, edges: seq<GraphEdge>, root: Id, before: set<Id>, order: seq<Id>, u: Id, v: Id)
    requires IsSearchOrder(nodes, edges, root, before, order)
    requires u in order && Step(nodes, edges, u, v) && v !in before
    ensures v in order
  {
    assert u in ToSet(order);
    ComponentIsClosed(nodes, edges, root);
    assert v in ToSet(order);
  }

  /** A search lists nodes by their distance from the root, nearest first. */
  lemma {:induction false} ListedByDistance(
    nodes: set<Id>, edges: seq<GraphEdge>, root: Id, before: set<Id>, order: seq<Id>, n: nat, i: nat, j: nat)
    requires IsSearchOrder(nodes, edges, root, before, order) && ClosedUnderSteps(nodes, edges, before)
    requires i < j < |order| && Near(nodes, edges, root, order[j], n)
    ensures Near(nodes, edges, root, order[i], n)
    decreases n
  {
    RootIsNear(nodes, edges, root, n);
    if n > 0 && i > 0 {
      if Near(nodes, edges, root, order[j], n - 1) {
        ListedByDistance(nodes, edges, root, before, order, n - 1, i, j);
      } else {
        var u :| Near(nodes, edges, root, u, n - 1) && Step(nodes, edges, u, order[j]);
        NearIsListed(nodes, edges, root, before, order, u, n - 1, j);
        var p :| 0 <= p < |order| && order[p] == u;
        var q := EarlierParent(nodes, edges, order, p, i, j);
        if q < p {
          ListedByDistance(nodes, edges, root, before, order, n - 1, q, p);
        }
        assert Step(nodes, edges, order[q], order[i]);
      }
    }
  }

  lemma NearIsListed(
    nodes: set<Id>, edges: seq<GraphEdge>, root: Id, before: set<Id>, order: seq<Id>, u: Id, n: nat, j: nat)
    requires IsSearchOrder(nodes, edges, root, before, order) && ClosedUnderSteps(nodes, edges, before)
    requires Near(nodes, edges, root, u, n) && j < |order| && Step(nodes, edges, u, order[j])
    ensures u in order
  {
    NearIsReached(nodes, edges, root, u, n);
    InComponent(nodes, edges, root, u);
    assert order[j] in ToSet(order);
    assert u in ToSet(order);
  }

  lemma EarlierParent(nodes: set<Id>, edges: seq<GraphEdge>, order: seq<Id>, p: nat, i: nat, j: nat) returns (q: nat)
    requires DiscoveryOrder(nodes, edges, order) && 0 < i < j < |order| && p < |order|
    requires Step(nodes, edges, order[p], order[j])
    ensures q <= p && Step(nodes, edges, order[q], order[i])
  {
    NeighborsAreAdjacent(edges, order[p], order[j]);
    var m :| 0 <= m < |NeighborsOf(edges, order[p])| && NeighborsOf(edges, order[p])[m] == order[j];
    assert Discovers(nodes, edges, order, p, m, order[j]);
    assert DiscoveredBefore(nodes, edges, order, order[i], p, m);
    var l: nat;
    q, l :| Earlier(q, l, p, m) && Discovers(nodes, edges, order, q, l, order[i]);
    NeighborsAreAdjacent(edges, order[q], order[i]);
  }

  /** The inner loop of both searches: queue each neighbour of `current` that is not yet visited. */
  method VisitNeighbors(neighbors: seq<Id>, queue: seq<Id>, visited: set<Id>, ghost nodes: set<Id>,
                        ghost edges: seq<GraphEdge>, ghost root: Id, ghost before: set<Id>, ghost order: seq<Id>)
    returns (newQueue: seq<Id>, newVisited: set<Id>)
    requires order != [] && neighbors == NeighborsOf(edges, order[|order| - 1]) && order[|order| - 1] in nodes
    requires Searching(nodes, edges, root, before, order + queue, visited)
    requires Progress(nodes, edges, order + queue, visited, |order| - 1, 0)
    ensures Searching(nodes, edges, root, before, order + newQueue, newVisited)
    ensures Progress(nodes, edges, order + newQueue, newVisited, |order| - 1, |neighbors|)
    ensures queue <= newQueue && visited <= newVisited && ToSet(neighbors) <= newVisited
    ensures newVisited == visited ==> newQueue == queue
  {
    hide Progress, Searching, Discovers;
    ghost var c := |order| - 1;
    ghost var current := order[c];
    assert current in order + queue;
    newQueue, newVisited := queue, visited;
    for n := 0 to |neighbors|
      invariant Searching(nodes, edges, root, before, order + newQueue, newVisited)
      invariant Progress(nodes, edges, order + newQueue, newVisited, c, n)
      invariant queue <= newQueue && visited <= newVisited
      invariant forall m :: 0 <= m < n ==> neighbors[m] in newVisited
      invariant newVisited == visited ==> newQueue == queue
    {
      var neighbor := neighbors[n];
      assert (order + newQueue)[c] == current;
      NeighborIsDiscovered(nodes, edges, order + newQueue, c, n);
      if neighbor in newVisited {
        ProgressOverKnown(nodes, edges, order + newQueue, newVisited, c, n, neighbor);
      } else {
        ProgressOverNew(nodes, edges, order + newQueue, newVisited, c, n, neighbor);
        NeighborsAreAdjacent(edges, current, neighbor);
        SearchingOn(nodes, edges, root, before, order + newQueue, newVisited, current, neighbor);
        assert order + (newQueue + [neighbor]) == (order + newQueue) + [neighbor];
        newVisited := newVisited + {neighbor};
        newQueue := newQueue + [neighbor];
      }
    }
  }

  /** The search both findConnectedComponents and componentContaining run from one root: it visits exactly what the root
      reaches among the nodes not yet visited, each once, in breadth-first order. */
  method Search(root: Id, adjacency: map<Id, seq<Id>>, alreadyVisited: set<Id>, ghost edges: seq<GraphEdge>)
    returns (order: seq<Id>, visited: set<Id>)
    requires forall v :: v in adjacency ==> adjacency[v] == NeighborsOf(edges, v)
    requires root !in alreadyVisited && ClosedUnderSteps(adjacency.Keys, edges, alreadyVisited)
    ensures IsSearchOrder(adjacency.Keys, edges, root, alreadyVisited, order)
    ensures visited == alreadyVisited + ToSet(order)
    ensures ClosedUnderSteps(adjacency.Keys, edges, visited)
  {
    ghost var nodes := adjacency.Keys;
    ghost var universe := alreadyVisited + Endpoints(edges) + {root};
    hide Progress;
    ReachesItself(nodes, edges, root);
    var queue := [root];
    ProgressAtStart(nodes, edges, root, alreadyVisited);
    order, visited := [], alreadyVisited + {root};
    while |queue| > 0
      invariant Progress(nodes, edges, order + queue, visited, |order|, 0)
      invariant Searching(nodes, edges, root, alreadyVisited, order + queue, visited)
      invariant forall v, w :: v in order && Step(nodes, edges, v, w) ==> w in visited
      decreases universe - visited, |queue|
    {
      var current := queue[0];
      ghost var c, found := |order|, order + queue;
      assert found == (order + [current]) + queue[1..];
      order, queue := order + [current], queue[1..];
      if current in adjacency {
        queue, visited := VisitNeighbors(adjacency[current], queue, visited, nodes, edges, root, alreadyVisited, order);
      }
      ProgressToNext(nodes, edges, order + queue, visited, c, if current in nodes then |adjacency[current]| else 0);
      NeighborsAreSteps(nodes, edges, current);
    }
    assert order + queue == order;
    SearchIsComplete(nodes, edges, root, alreadyVisited, order);
    ProgressIsOrdered(nodes, edges, order, visited, |order|, 0);
  }

  lemma ProgressAtStart(nodes: set<Id>, edges: seq<GraphEdge>, root: Id, before: set<Id>)
    ensures Progress(nodes, edges, [] + [root], before + {root}, 0, 0)
  {
  }

  lemma ProgressIsOrdered(nodes: set<Id>, edges: seq<GraphEdge>, found: seq<Id>, visited: set<Id>, c: nat, n: nat)
    requires Progress(nodes, edges, found, visited, c, n)
    ensures DiscoveryOrder(nodes, edges, found)
  {
  }

  lemma NeighborsAreSteps(nodes: set<Id>, edges: seq<GraphEdge>, v: Id)
    ensures forall w :: Step(nodes, edges, v, w) ==> w in NeighborsOf(edges, v)
  {
    forall w | Step(nodes, edges, v, w)
      ensures w in NeighborsOf(edges, v)
    {
      NeighborsAreAdjacent(edges, v, w);
    }
  }

  lemma NeighborIsDiscovered(nodes: set<Id>, edges: seq<GraphEdge>, found: seq<Id>, q: nat, l: nat)
    requires q < |found| && found[q] in nodes && l < |NeighborsOf(edges, found[q])|
    ensures Discovers(nodes, edges, found, q, l, NeighborsOf(edges, found[q])[l])
  {
  }

  lemma SearchingOn(nodes: set<Id>, edges: seq<GraphEdge>, root: Id, before: set<Id>, found: seq<Id>, visited: set<Id>,
                    current: Id, neighbor: Id)
    requires Searching(nodes, edges, root, before, found, visited)
    requires current in found && Step(nodes, edges, current, neighbor) && neighbor !in visited
    ensures Searching(nodes, edges, root, before, found + [neighbor], visited + {neighbor})
  {
    ReachesStep(nodes, edges, root, current, neighbor);
  }

  lemma SearchIsComplete(nodes: set<Id>, edges: seq<GraphEdge>, root: Id, alreadyVisited: set<Id>, order: seq<Id>)
    requires root in order && ClosedUnderSteps(nodes, edges, alreadyVisited)
    requires forall v :: v in order ==> v !in alreadyVisited && Reaches(nodes, edges, root, v)
    requires forall v, w :: v in order && Step(nodes, edges, v, w) ==> w in alreadyVisited + ToSet(order)
    ensures ToSet(order) == Component(nodes, edges, root) - alreadyVisited
    ensures ClosedUnderSteps(nodes, edges, alreadyVisited + ToSet(order))
  {
    var all := alreadyVisited + ToSet(order);
    forall v
      ensures v in order <==> v in Component(nodes, edges, root) - alreadyVisited
    {
      InComponent(nodes, edges, root, v);
      if v in Component(nodes, edges, root) {
        ClosedSetTrapsWalks(nodes, edges, all, root, v);
      }
    }
  }

  /** componentContaining: everything a walk from `startId` reaches, and nothing else. */
  method ComponentContaining(startId: Id, nodeIds: seq<Id>, edges: seq<GraphEdge>) returns (visited: set<Id>)
    ensures visited == Component(ToSet(nodeIds), edges, startId)
  {
    var adjacency := BuildAdjacency(nodeIds, edges);
    var _, all := Search(startId, adjacency, {}, edges);
    visited := all;
  }

  /** A component starts with a listed node that no earlier component reached, and lists what that node reaches beyond
      the earlier ones in breadth-first order (an edge naming an unlisted node can make components share it). */
  ghost predicate IsNextComponent(nodes: set<Id>, edges: seq<GraphEdge>, earlier: seq<seq<Id>>, component: seq<Id>)
  {
    && |component| > 0 && component[0] in nodes
    && IsSearchOrder(nodes, edges, component[0], Covered(earlier), component)
  }

  ghost predicate AreComponents(nodes: set<Id>, edges: seq<GraphEdge>, components: seq<seq<Id>>)
  {
    forall k :: 0 <= k < |components| ==> IsNextComponent(nodes, edges, components[..k], components[k])
  }

  ghost function Covered(components: seq<seq<Id>>): set<Id>
  {
    set c, v | c in components && v in c :: v
  }

  lemma AddComponent(nodes: set<Id>, edges: seq<GraphEdge>, components: seq<seq<Id>>, component: seq<Id>)
    requires AreComponents(nodes, edges, components) && IsNextComponent(nodes, edges, components, component)
    ensures AreComponents(nodes, edges, components + [component])
    ensures Covered(components + [component]) == Covered(components) + ToSet(component)
  {
    var longer := components + [component];
    forall k | 0 <= k < |longer|
      ensures IsNextComponent(nodes, edges, longer[..k], longer[k])
    {
      assert longer[..k] == components[..k];
    }
    forall v
      ensures v in Covered(longer) <==> v in Covered(components) + ToSet(component)
    {
      if c :| c in components && v in c {
        assert c in longer;
      }
      assert component in longer;
    }
  }

  /** Between two rounds: the components so far are what has been visited, and no walk leaves it. */
  ghost predicate Partway(nodes: set<Id>, edges: seq<GraphEdge>, components: seq<seq<Id>>, visited: set<Id>)
  {
    AreComponents(nodes, edges, components) && visited == Covered(components) && ClosedUnderSteps(nodes, edges, visited)
  }

  /** One round of findConnectedComponents: the component of a node not yet visited. */
  method NextComponent(nodeId: Id, adjacency: map<Id, seq<Id>>, components: seq<seq<Id>>, visited: set<Id>,
                       ghost edges: seq<GraphEdge>)
    returns (longer: seq<seq<Id>>, seen: set<Id>)
    requires forall v :: v in adjacency ==> adjacency[v] == NeighborsOf(edges, v)
    requires nodeId in adjacency && nodeId !in visited
    requires Partway(adjacency.Keys, edges, components, visited)
    ensures Partway(adjacency.Keys, edges, longer, seen)
    ensures |longer| == |components| + 1 && longer[..|components|] == components
    ensures |longer[|components|]| > 0 && longer[|components|][0] == nodeId
    ensures visited <= seen && nodeId in seen
  {
    var component: seq<Id>;
    component, seen := Search(nodeId, adjacency, visited, edges);
    assert nodeId in ToSet(component);
    AddComponent(adjacency.Keys, edges, components, component);
    longer := components + [component];
  }

  /** The node is the first in the list that the components so far leave out. */
  ghost predicate IsFirstLeft(nodeIds: seq<Id>, components: seq<seq<Id>>, nodeId: Id)
  {
    nodeId !in Covered(components)
    && exists n :: 0 <= n < |nodeIds| && nodeIds[n] == nodeId
                   && forall m :: 0 <= m < n ==> nodeIds[m] in Covered(components)
  }

  /** Each component starts at the first listed node that the earlier ones leave out. */
  ghost predicate StartInListOrder(nodeIds: seq<Id>, components: seq<seq<Id>>)
  {
    forall k :: 0 <= k < |components| ==> |components[k]| > 0 && IsFirstLeft(nodeIds, components[..k], components[k][0])
  }

  method FindConnectedComponents(nodeIds: seq<Id>, edges: seq<GraphEdge>) returns (components: seq<seq<Id>>)
    ensures AreComponents(ToSet(nodeIds), edges, components)
    ensures StartInListOrder(nodeIds, components)
    ensures ToSet(nodeIds) <= Covered(components)
  {
    var adjacency := BuildAdjacency(nodeIds, edges);
    var visited: set<Id>;
    components, visited := VisitAll(nodeIds, adjacency, edges);
  }

  /** The outer loop. */
  method VisitAll(nodeIds: seq<Id>, adjacency: map<Id, seq<Id>>, ghost edges: seq<GraphEdge>)
    returns (components: seq<seq<Id>>, visited: set<Id>)
    requires forall id :: id in nodeIds ==> id in adjacency
    requires forall v :: v in adjacency ==> adjacency[v] == NeighborsOf(edges, v)
    ensures Partway(adjacency.Keys, edges, components, visited)
    ensures StartInListOrder(nodeIds, components)
    ensures forall id :: id in nodeIds ==> id in visited
  {
    visited := {};
    components := [];
    for i := 0 to |nodeIds|
      invariant Partway(adjacency.Keys, edges, components, visited)
      invariant StartInListOrder(nodeIds, components)
      invariant forall k :: 0 <= k < i ==> nodeIds[k] in visited
    {
      var nodeId := nodeIds[i];
      if nodeId !in visited {
        ghost var earlier := components;
        assert IsFirstLeft(nodeIds, earlier, nodeId);
        components, visited := NextComponent(nodeId, adjacency, components, visited, edges);
        NextStartsInOrder(nodeIds, earlier, components);
      }
    }
  }

  lemma NextStartsInOrder(nodeIds: seq<Id>, earlier: seq<seq<Id>>, longer: seq<seq<Id>>)
    requires StartInListOrder(nodeIds, earlier)
    requires |longer| == |earlier| + 1 && longer[..|earlier|] == earlier
    requires |longer[|earlier|]| > 0 && IsFirstLeft(nodeIds, earlier, longer[|earlier|][0])
    ensures StartInListOrder(nodeIds, longer)
  {
    forall k | 0 <= k < |longer|
      ensures |longer[k]| > 0 && IsFirstLeft(nodeIds, longer[..k], longer[k][0])
    {
      if k < |earlier| {
        assert longer[..k] == earlier[..k] && longer[k] == earlier[k];
      }
    }
  }
}
