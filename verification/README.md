# pgscope: verified models of its core algorithms

pgscope watches a PostgreSQL (or MySQL) server: it polls active sessions, streams them to browsers, keeps a history
of snapshots, draws who blocks whom as a clustered graph, and suggests redundant indexes to drop. This project models
the parts of it whose correctness is not visible from reading one function, and proves what they promise.

| component | modules | in the repository |
|---|---|---|
| blocking graph and its layout | `Graph`, `BlockingEdges`, `Bridges`, `Packing`, `ClusteredLayout`, `Text`, `Snapshots`, `Sublists` | `web/src/shared/utils/graph` |
| redaction of SQL literals | `Redaction`, `RedactionProperties`, `ScannerPositions`, `LiteralContents`, `EscapeStrings`, `Numbers`, `LexedQueries`, `Exponents` | `go/internal/infrastructure/history/redact.go` |
| load generator row locking | `LoadGenerator` | `go/cmd/loadgen/main.go` |
| duplicate index detection | `DuplicateIndexes`, `Text`, `Sets` | `go/internal/domain/duplicate_index.go` |
| history stores | `HistoryTable`, `HistoryStore`, `HistoryQuery`, `RingBuffer`, `Arithmetic` | `go/internal/infrastructure/history` |
| poller | `Poller`, `Snapshots` | `go/internal/application/service/poller.go` |
| SSE broadcaster | `Broadcaster` | `go/internal/infrastructure/sse/broadcaster.go` |

Verify everything with `dafny verify dfyconfig.toml`.

## How it is modelled

- Loops of the source are methods with loops, proved against a specification function or relation; what the source
  promises is then proved about that specification for every input. Objects that update their fields (`SQLiteStore`,
  `RingBufferStore`, `Poller`) are classes.
- Graphs are a set of session ids and a list of edges; an edge's identity is its position in the list, as the source
  compares edges by reference. Reachability is the existence of a walk. A bridge is an edge whose removal separates its
  ends into two groups of at least two nodes, each with a node of degree three or more inside it.
- Where the source filters a list, `Sublists` says what that means without the filter's own code: the items that pass,
  each as often as it was there and in order, no others; that determines the result (`Sublists.FilterIsUnique`).
- The force simulations are arbitrary functions that return one position for each id they are given; every layout
  theorem holds for all of them. Coordinates are reals.
- A query is a sequence of characters. The specification of the redactor reads the text that is left and one bit, whether an
  identifier character stands in front of it; the methods work index by index, as the source does.
- The history table is a set of rows. A `DELETE ... LIMIT` without an order may take any rows that match, and rows of
  equal time may come in any order, so the results hold for every choice the database makes. Failed statements,
  cancellation, failing measurements and the measured file size are arbitrary inputs.
- The load generator and the broadcaster are step machines: their point is the interleaving of goroutines, and the
  theorems are about every reachable state of every interleaving. The load generator's waits are PostgreSQL's: the first
  in line for a row waits for the row's owner, the others wait for the first in line.
- What a tick of the poller finds (monitoring on or off, the fetch, three clock readings, whether the append succeeds)
  is an arbitrary input; the theorems about whole runs assume only that the clock never runs backwards.

## Where the code and what is written about it part

- `redact.go` says it handles `E'...'` strings. It does not know that a backslash escapes the quote behind it:
  `E'b\'c'` is ended at the escaped quote and its `c` is stored (`EscapeStrings.EscapedQuoteLeaks`), and so it is in a
  part of the literal that continues it on a later line, where no `E` stands (`EscapeStrings.ContinuedQuoteLeaks`). The
  scanner masks a literal, all its parts and nothing else, whatever follows it, if and only if no backslash in it
  escapes a quote (`EscapeStrings.EscapeStringMaskedIff`).
- It does not know comments, quoted identifiers and letters above ASCII: of `"o'" = 'secret'` the literal is stored
  (`LexedQueries.ApostropheInIdentifierLeaks`), and of the identifier `é1` the digit is masked
  (`LexedQueries.DigitBehindAccentIsMasked`). For every query as PostgreSQL reads it, cut short inside a literal or not,
  in which no backslash escapes a quote: every literal and every number is masked and nothing else touched if and only
  if what stands between the literals holds no quote, no dollar sign that opens a dollar quote and no digit directly
  behind a letter above ASCII, no `e`, `x` or `b` in front of a string goes on with an identifier behind such a letter or
  a dollar sign, and all dollar tags are ASCII (`LexedQueries.EveryLiteralIsMaskedIff`).
- It says no part of a number in scientific notation leaks. `1e5_000` leaves `_000` behind
  (`Exponents.SeparatorEndsExponent`). For every mantissa, sign and exponent, the mask is all that is written for the
  number, whatever follows it, if and only if no digit separator stands in its exponent (`Exponents.NumberMaskedIff`).
- `loadgen/main.go` says an independent worker's row is used by nobody else. For all ids, workers can come to wait for
  each other if and only if their operations share a row (`LoadGenerator.CanWaitIffRowShared`), and independent workers
  share one if and only if their ids differ by a multiple of 250 (`LoadGenerator.WaitsStayInGroup`). So they never wait
  within one run (`LoadGenerator.IndependentWorkersAreIsolated`), and can when a second run starts before the first one
  ends (`LoadGenerator.IndependentWorkersCanWait`).
- `PruneExcessIncidents` is said to keep only the most recent maxRows incidents. It keeps more when the next newest
  incident has the very same time as the last one kept, and exactly then (`HistoryStore.IncidentsLeft`,
  `HistoryStore.TiedIncidentsStay`); with maxRows = 0 it keeps the newest (`HistoryStore.ZeroKeepsNewest`); with a negative
  maxRows and no incidents it fails on the missing cutoff row.
- `edgeKey` can confuse two pairs of ids that contain colons, and `buildEdges` then drops one of them
  (`BlockingEdges.PairCanBeLost`); it keeps every blocking pair if and only if no two of them share a key
  (`BlockingEdges.EveryPairKeptIffKeysDiffer`). The collectors of pgscope only produce decimal process ids
  (`postgres/collector.go:148`, `mysql/session_collector.go:203`), so this does not happen there.
- The comment on `maybeRecordSnapshot` says an incident is always recorded. It is if and only if its append succeeds
  (`Poller.IncidentRecordedIffAppended`); otherwise no later tick makes an incident of the sessions that have stayed
  blocked since (`Poller.LostIncidentStaysLost`), and there are runs in which it is never stored
  (`Poller.IncidentIsLost`).
- The ring buffer's "periodic" list holds the incidents too, so incidents count against its 300 places.

## Model

| member | source | states |
|---|---|---|
| BlockingEdges.EdgeKeyIgnoresDirection | web/src/shared/utils/graph/edges.ts:115-117 | an edge and its reverse have the same key, for all ids |
| BlockingEdges.EdgeKeyIdentifiesPair | web/src/shared/utils/graph/edges.ts:115-117 | on ids without a colon, two edges with one key join the same two sessions |
| BlockingEdges.EdgeKeyCanCollide | web/src/shared/utils/graph/edges.ts:115-117 | two different pairs of ids with colons that share a key |
| BlockingEdges.PairCanBeLost | web/src/shared/utils/graph/edges.ts:17-19 | a session list with a blocking pair that no edge joins |
| BlockingEdges.BuildEdges | web/src/shared/utils/graph/edges.ts:8-26 | the loops, with the set of seen keys, compute the edge list that the lemmas below are about |
| BlockingEdges.EdgeListIsSound | web/src/shared/utils/graph/edges.ts:8-26 | for all ids, every edge reports a known session blocking another, and no key occurs twice |
| BlockingEdges.EdgeListHasKey | web/src/shared/utils/graph/edges.ts:8-26 | for all ids, the key of every blocking pair of known sessions occurs in the edge list |
| BlockingEdges.EveryPairKeptIffKeysDiffer | web/src/shared/utils/graph/edges.ts:17-19 | no blocking pair is lost if and only if no two different blocking pairs share a key |
| BlockingEdges.OneEdgePerBlockingPair | web/src/shared/utils/graph/edges.ts:8-26 | on colon-free ids, two sessions are joined by exactly one edge if one blocks the other and by none otherwise |
| BlockingEdges.EdgesComeInReadingOrder | web/src/shared/utils/graph/edges.ts:8-26 | for all ids, the edges are in reading order, one for each place where a known blocker gives a key not read before, pointing from the blocker read there to the session that lists it; so of two sessions that block each other the one read first is the target |
| BlockingEdges.BuildAdjacency | web/src/shared/utils/graph/edges.ts:137-146 | exactly the listed nodes have a list, holding the node's neighbours in edge order |
| BlockingEdges.NeighborsInEdgeOrder | web/src/shared/utils/graph/edges.ts:140-143 | the list over some edges followed by others is the one list followed by the other |
| BlockingEdges.NeighborsOverOneEdge | web/src/shared/utils/graph/edges.ts:140-143 | one edge adds its other end to the list of each end, both ends to that of a node it joins to itself, and nothing to any other list |
| BlockingEdges.NeighborsAreAdjacent | web/src/shared/utils/graph/edges.ts:140-143 | a node's list holds another node if and only if an edge joins them, in either direction |
| BlockingEdges.VisitNeighbors | web/src/shared/utils/graph/edges.ts:96-101 | queueing the unvisited neighbours keeps the search invariant and the breadth-first order, and leaves no neighbour unvisited |
| BlockingEdges.Search | web/src/shared/utils/graph/edges.ts:87-102 | one search ends and visits exactly what its root reaches among the nodes not yet visited, each once, in breadth-first order: as they are first met when the neighbours of the first node are read in turn, then those of the second, and so on; no walk leaves what is visited |
| BlockingEdges.SearchOrderIsUnique | web/src/shared/utils/graph/edges.ts:87-102 | the root, the edges and what was visited before determine the whole list a search returns |
| BlockingEdges.ListedByDistance | web/src/shared/utils/graph/edges.ts:87-102 | a search lists nodes by their distance from the root, nearest first |
| BlockingEdges.ComponentContaining | web/src/shared/utils/graph/edges.ts:119-135 | the search ends with exactly the nodes a walk from the start node reaches |
| BlockingEdges.NextComponent | web/src/shared/utils/graph/edges.ts:85-105 | one round of the outer loop appends the component of an unvisited node, starting at that node, in breadth-first order |
| BlockingEdges.VisitAll | web/src/shared/utils/graph/edges.ts:85-107 | the outer loop leaves no listed node unvisited, and each component starts at the first listed node the earlier ones leave out |
| BlockingEdges.FindConnectedComponents | web/src/shared/utils/graph/edges.ts:80-108 | every listed node is covered; each component is what its first node reaches beyond the earlier components, without repeats and in breadth-first order; components come in list order of their first nodes |
| Bridges.ComponentsPartitionNodes | web/src/shared/utils/graph/edges.ts:80-108 | the components partition the nodes: each node's part is exactly what it reaches, so it agrees with componentContaining for every start node, and there are as many as clusters |
| Bridges.HasHub | web/src/shared/utils/graph/edges.ts:64-78 | true if and only if some node of the component has three or more edge ends inside it |
| Bridges.DegreeCountsEnds | web/src/shared/utils/graph/edges.ts:64-71 | the degree a hub is judged by is the number of edges inside the group that begin in the node plus the number that end in it |
| Bridges.QualifiesAsBridge | web/src/shared/utils/graph/edges.ts:46-61 | an edge passes the filter if and only if its removal separates its ends into two groups of two or more nodes, each with a hub of its own |
| Bridges.BridgeIff | web/src/shared/utils/graph/edges.ts:28-61 | in walks and edge ends alone: an edge is a bridge if and only if no walk around it joins its ends, and each end reaches around it another node and one in which at least three ends of other edges meet |
| Bridges.FindBridges | web/src/shared/utils/graph/edges.ts:45-62 | returns exactly the bridges, in edge order |
| Bridges.BridgesInEdgeOrder | web/src/shared/utils/graph/edges.ts:45-62 | the result stands at increasing positions of the edge list, and those are the positions of all edges that are bridges |
| Bridges.CutSplitsOneCluster | web/src/shared/utils/graph/edges.ts:45-62 | removing one separating edge raises the number of clusters by exactly one |
| Bridges.CutCount | web/src/shared/utils/graph/edges.ts:45-62 | removing any set of separating edges raises the number of clusters by the number of edges removed |
| Bridges.BridgesCountClusters | web/src/shared/utils/graph/edges.ts:45-62 | removing all bridges at once raises the number of clusters by exactly the number of bridges |
| Bridges.BridgeEndsInDifferentClusters | web/src/shared/utils/graph/index.ts:36-40 | the two ends of every bridge lie in different clusters once all bridges are removed |
| Bridges.AtMostOneBridgeBetweenClusters | web/src/shared/utils/graph/index.ts:36-40 | no other edge, and so no second bridge, joins the two clusters a bridge joins, whichever way it points |
| Bridges.BridgeNeedsTwoHubs | web/src/shared/utils/graph/edges.ts:60 | every bridge comes with two different nodes of degree three or more in the whole graph |
| Bridges.NoBridgesWithoutTwoHubs | web/src/shared/utils/graph/edges.ts:45-78 | a graph with fewer than two nodes of degree three or more has no bridges, whatever its size |
| Bridges.NoBridgesWithoutHubs | web/src/shared/utils/graph/edges.ts:28-62 | a graph in whose nodes at most two edge ends meet each has no bridges |
| Bridges.PlainChainHasNoBridges | web/src/shared/utils/graph/edges.ts:40-42 | so a plain chain of different nodes never produces one, however long it is and whichever way its edges point |
| Packing.BoundingBoxOf | web/src/shared/utils/graph/geometry.ts:3-18 | the loop over infinite start values computes the bounding box, and the origin for no positions |
| Packing.BoxOfIsBoundingBox | web/src/shared/utils/graph/geometry.ts:3-18 | the box holds every position and each of its four sides is touched by one |
| Packing.BoundingBoxIsUnique | web/src/shared/utils/graph/geometry.ts:3-18 | those two properties determine the box |
| Packing.PlaceComponent | web/src/shared/utils/graph/packing.ts:17-35 | one iteration wraps the row, moves the component to the cursor and advances the cursor |
| Packing.MoveInto | web/src/shared/utils/graph/packing.ts:31-33 | the inner loop sets every position of the component, shifted, and leaves all others alone |
| Packing.PackComponents | web/src/shared/utils/graph/packing.ts:7-39 | the result is every layout moved to its placed box, one after the other |
| Packing.PlacedBoxesAreApart | web/src/shared/utils/graph/packing.ts:22-36 | any two placed boxes, not just neighbours, are at least 140 apart to the right or below |
| Packing.SharedRowsFitTheCanvas | web/src/shared/utils/graph/packing.ts:22-26 | a box with another one before it in its row ends within width 1400 |
| Packing.RowsAreTight | web/src/shared/utils/graph/packing.ts:13-36 | tiling starts at the origin; each placed box has the size of its component; it stands exactly 140 behind the one before it if it then ends within width 1400, and otherwise at the left edge, exactly 140 below the tallest box of that row |
| Packing.PackedMovesRigidly | web/src/shared/utils/graph/packing.ts:28-33 | all nodes of a component move by one vector, so distances inside it are unchanged |
| Packing.PackedInsideBox | web/src/shared/utils/graph/packing.ts:28-33 | every node ends up inside its component's placed box |
| Packing.PackedComponentsAreFarApart | web/src/shared/utils/graph/packing.ts:7-39 | nodes of different components are at least 140 apart in x or in y |
| Packing.LayoutSingletons | web/src/shared/utils/graph/singletonLayout.ts:43-47 | the scattered positions are moved in y only, so that their bounding box starts at startY |
| Packing.SingletonsStartAt | web/src/shared/utils/graph/singletonLayout.ts:43-47 | no singleton lies above startY and the topmost lies on it |
| ClusteredLayout.KeyFilterKeepsUnmarked | web/src/shared/utils/graph/index.ts:37-38 | with distinct keys, filtering the edge list by the keys of any marked edges, the bridges for one, removes those and nothing else, whatever the ids look like |
| ClusteredLayout.EdgesAreSplit | web/src/shared/utils/graph/index.ts:36-38 | every edge is a cluster edge or a bridge, none is both, and the counts add up |
| ClusteredLayout.ComponentsListClusters | web/src/shared/utils/graph/index.ts:40-42 | over the cluster edges, each node is in exactly one component, which lists its cluster once |
| ClusteredLayout.EdgesWithinIsFilter | web/src/shared/utils/graph/edges.ts:110-113 | the edges handed over for a component are those with both ends in it, each once and in edge-list order |
| ClusteredLayout.EdgeReachesOneComponent | web/src/shared/utils/graph/index.ts:40-47 | every cluster edge has both ends in exactly one component, and that is simulated unless a session blocks itself |
| ClusteredLayout.MultiNodeIsFilter | web/src/shared/utils/graph/index.ts:41 | the components that are simulated are those of more than one node, in component order |
| ClusteredLayout.SingletonsAreFilter | web/src/shared/utils/graph/index.ts:42 | the ids that are scattered are those of the components of one node, in component order |
| ClusteredLayout.SingletonStartY | web/src/shared/utils/graph/index.ts:50 | 140 below the packed nodes, or 0 without any |
| ClusteredLayout.Arrange | web/src/shared/utils/graph/index.ts:40-53 | places components as the next row states, given that they list the clusters |
| ClusteredLayout.ComputeClusteredLayout | web/src/shared/utils/graph/index.ts:28-57 | for all sessions and simulations: cluster edges and bridges are the exact split; every session id has exactly one position; nodes of different multi-node clusters are at least 140 apart in x or y; the topmost single node lies exactly 140 below the lowest clustered node, or at 0 without any; each component is drawn as simulated with exactly the cluster edges inside it, up to a shift, tiled in component order; the single nodes are drawn as scattered up to a shift in y |
| Redaction.SkipSingleQuoteLiteral | go/internal/infrastructure/history/redact.go:67-80 | ends just past the first quote that is not doubled, or at the end of the query |
| Redaction.SkipPlaceholder | go/internal/infrastructure/history/redact.go:84-93 | a $ followed by digits, taken whole |
| Redaction.IndexOfRuneSeq | go/internal/infrastructure/history/redact.go:120-134 | the delimiter occurs at the result and nowhere between the start and there; -1 if and only if it does not occur from the start on |
| Redaction.SkipDollarQuote | go/internal/infrastructure/history/redact.go:101-118 | a $tag$ delimiter up to past its next occurrence, or to the end of the query if there is none |
| Redaction.ScanNumericLiteral | go/internal/infrastructure/history/redact.go:150-179 | radix, decimal and exponent forms as the code delimits them |
| Numbers.NumericIsLongest | go/internal/infrastructure/history/redact.go:150-179 | at a digit the scanner takes exactly the longest number that begins there, by a grammar with its characters spelled out: 0x, 0o and 0b numbers, mantissas of digits, points and separators, and exponents |
| Numbers.NumberIsMasked | go/internal/infrastructure/history/redact.go:50-55 | every such number at the top level that does not go on in what follows becomes the mask, and the scan goes on right behind it |
| Numbers.RadixNumberIsMasked | go/internal/infrastructure/history/redact.go:153-159 | whatever hexadecimal digits and separators follow 0x, 0o or 0b, all of them become the mask |
| Redaction.ScanToken | go/internal/infrastructure/history/redact.go:20-58 | one round of the main loop takes the next token of the remaining text and appends its image |
| Redaction.RedactQueryLiterals | go/internal/infrastructure/history/redact.go:14-62 | the scanner computes the redaction that the lemmas below are about |
| RedactionProperties.NoQuoteSurvives | go/internal/infrastructure/history/redact.go:14-62 | no redacted query contains a single quote |
| RedactionProperties.OutputAtMostTriples | go/internal/infrastructure/history/redact.go:14-62 | the output is at most three times as long as the query |
| RedactionProperties.DigitsAreAttached | go/internal/infrastructure/history/redact.go:53-61 | every digit of the output directly follows an identifier character or the $ of a placeholder |
| RedactionProperties.RedactedIsFixed | go/internal/infrastructure/history/redact.go:14-62 | a second scan copies what the first one wrote, even where it no longer sees the identifier character that a mask replaced |
| RedactionProperties.RedactionIsIdempotent | go/internal/infrastructure/history/redact.go:14-62 | redacting a redacted query changes nothing, for every query |
| RedactionProperties.UnchangedIffNothingMasked | go/internal/infrastructure/history/redact.go:14-62 | a query comes out unchanged if and only if the scanner finds no literal in it |
| ScannerPositions.TokenIsLocal | go/internal/infrastructure/history/redact.go:19-61 | a token that ends before a quote or a dollar sign is the same whatever follows that character |
| ScannerPositions.SameBehindPosition | go/internal/infrastructure/history/redact.go:19-61 | two queries that begin alike up to a quote or dollar sign redact to the same text if they do so from some token boundary in front of it on |
| LiteralContents.LiteralIsMasked | go/internal/infrastructure/history/redact.go:46-50 | a plain string literal with any content, quotes doubled, becomes the mask, and the scan goes on right behind it |
| LiteralContents.ContentDoesNotShow | go/internal/infrastructure/history/redact.go:19-61 | behind any prefix that ends at top level, two queries that differ only in the content of one plain string literal redact to the same text |
| LiteralContents.PrefixedContentDoesNotShow | go/internal/infrastructure/history/redact.go:38-42 | the same for the content of an E, X or B string, quotes doubled |
| LiteralContents.DollarContentDoesNotShow | go/internal/infrastructure/history/redact.go:101-118 | the same for the content of a dollar-quoted literal, which may be anything without the delimiter |
| LiteralContents.PrefixedLiteralIsMasked | go/internal/infrastructure/history/redact.go:38-42 | E, X and B strings end where a plain string would, backslashes notwithstanding |
| LiteralContents.DollarLiteralIsMasked | go/internal/infrastructure/history/redact.go:27-31 | a dollar-quoted literal becomes the mask whatever stands before its first closing delimiter |
| EscapeStrings.EscapeStringMaskedIff | go/internal/infrastructure/history/redact.go:38-50 | for every E string, continued over lines or not: the redacted query shows one mask for each part, the gaps between them and then what becomes of the rest, whatever follows, if and only if no backslash in the literal escapes a quote |
| EscapeStrings.PartsAreMasked | go/internal/infrastructure/history/redact.go:40-50 | the if-half, for one text that follows |
| EscapeStrings.FittingMasksHideNothing | go/internal/infrastructure/history/redact.go:40-50 | the only-if half: if what is written up to a space behind the literal is the masks and the gaps, every part was read as PostgreSQL reads it |
| EscapeStrings.HiddenQuoteMovesTheEnd | go/internal/infrastructure/history/redact.go:67-80 | with an escaped quote in it, the scanner does not end a part where PostgreSQL does |
| EscapeStrings.MaskedBehindPrefix | go/internal/infrastructure/history/redact.go:19-61 | the same behind any prefix at whose end the scanner stands at top level |
| EscapeStrings.EscapedQuoteLeaks | go/internal/infrastructure/history/redact.go:67-80 | a literal with an escaped quote whose end is stored |
| EscapeStrings.ContinuedQuoteLeaks | go/internal/infrastructure/history/redact.go:46-50 | a literal continued on a second line, with an escaped quote there, whose end is stored |
| LexedQueries.EveryLiteralIsMaskedIff | go/internal/infrastructure/history/redact.go:14-62 | for every query as a sequence of PostgreSQL's lexemes, the last literal cut short or not, no backslash escaping a quote: the redacted query is the query with each literal and each number masked and everything else kept if and only if no stretch between the literals holds a quote, a dollar sign that opens a dollar quote, a digit behind a letter above ASCII, or at its end an identifier whose last letter the scanner takes for a string's prefix, and dollar tags are of the scanner's characters |
| LexedQueries.FaithfulIff | go/internal/infrastructure/history/redact.go:19-61 | the same for the rest of a query from any position between two lexemes on |
| LexedQueries.StretchIff | go/internal/infrastructure/history/redact.go:50-58 | from every position of a stretch on: the scanner masks the stretch's numbers, each the longest the grammar of `Numbers` finds there, keeps every other character and goes on behind it if nothing in it is misread, and otherwise writes something else, whatever should follow |
| LexedQueries.CutIsMasked | go/internal/infrastructure/history/redact.go:67-118 | a query that ends inside a literal of any kind, its dollar tag ASCII, ends in one mask for it |
| LexedQueries.DigitBehindAccentIsMasked | go/internal/infrastructure/history/redact.go:50-58 | an identifier of a letter above ASCII and a digit whose digit is masked |
| LexedQueries.ApostropheInIdentifierLeaks | go/internal/infrastructure/history/redact.go:46-50 | a query with an apostrophe in a quoted identifier whose literal is stored |
| Exponents.NumberMaskedIff | go/internal/infrastructure/history/redact.go:150-179 | for every mantissa, sign, exponent and following text: the redacted text is the mask and what becomes of the following text if and only if no digit separator stands in the exponent |
| Exponents.WhatIsLeft | go/internal/infrastructure/history/redact.go:150-179 | of every such number exactly the part of the exponent from its first separator on is left behind the mask |
| Exponents.SeparatorEndsExponent | go/internal/infrastructure/history/redact.go:150-179 | 1e5_000 is redacted to the mask and _000 |
| LoadGenerator.PlanRanges | go/cmd/loadgen/main.go:27-35 | hot, chain and independent rows do not meet, and a chain worker's second row is always the one after its first: it never wraps round |
| LoadGenerator.StepKeepsLocks | go/cmd/loadgen/main.go:147-177 | every database event keeps it that each lock has one owner, which holds exactly a prefix of its rows, and that who is first in line for a row has asked for it |
| LoadGenerator.RunsKeepLocks | go/cmd/loadgen/main.go:147-199 | so does every state of every interleaving, overlapping runs with repeated ids included |
| LoadGenerator.AcquiringHolder | go/cmd/loadgen/main.go:184-189 | who is waited for while still acquiring a row is a chain worker that holds its home row only |
| LoadGenerator.LastRowIsPrivate | go/cmd/loadgen/main.go:184-189 | the last of three neighbouring chain rows is only ever locked, or asked for, by the holder of the row before it |
| LoadGenerator.OwnerIsNearer | go/cmd/loadgen/main.go:184-194 | along every wait for an owner, the distance to the last row anyone can wait for decreases |
| LoadGenerator.WaitsDescend | go/cmd/loadgen/main.go:184-194 | along every wait, those in line included, the distance counted with the lines decreases |
| LoadGenerator.OwnerChainsAreShort | go/cmd/loadgen/main.go:147-194 | in every reachable state no chain of waits for owners is longer than two waits |
| LoadGenerator.WaitChainsAreShort | go/cmd/loadgen/main.go:147-194 | in every reachable state no wait chain, waits in line included, is longer than four waits |
| LoadGenerator.NoDeadlock | go/cmd/loadgen/main.go:147-194 | in every reachable state the wait-for graph, waits in line included, has no cycle |
| LoadGenerator.SomeoneMoves | go/cmd/loadgen/main.go:147-194 | from every open transaction a chain of waits leads to one that waits for nobody and can take its row or end |
| LoadGenerator.CanWaitIffRowShared | go/cmd/loadgen/main.go:179-194 | for all ids: some reachable state has a worker with the first id waiting for one with the second if and only if their operations share a row |
| LoadGenerator.PlanInNumbers | go/cmd/loadgen/main.go:139-194 | hub worker n updates row 1 + (n / 5) % 5, chain worker n rows 6 + n % 40 and 7 + n % 40, independent worker n row 46 + n % 250 |
| LoadGenerator.WaitsStayInGroup | go/cmd/loadgen/main.go:139-146 | hub workers m and n can wait for each other exactly if m / 5 and n / 5 differ by a multiple of 5, chain workers exactly if m % 40 and n % 40 differ by at most 1, independent workers exactly if m and n differ by a multiple of 250, and workers of different groups never |
| LoadGenerator.IndependentWorkersAreIsolated | go/cmd/loadgen/main.go:191-194 | if independent workers have distinct ids below 250, as in one run, none of them waits or is waited for, whatever the others do |
| LoadGenerator.IndependentWorkersCanWait | go/cmd/loadgen/main.go:191-194 | with overlapping runs worker 4 can wait for worker 4 |
| LoadGenerator.FourWaitsHappen | go/cmd/loadgen/main.go:184-189 | both bounds are met in one reachable state within one run |
| DuplicateIndexes.ColumnsCovered | go/internal/domain/duplicate_index.go:107-117 | true if and only if the candidate's columns are the leading columns of the other |
| DuplicateIndexes.FindCoveringIndex | go/internal/domain/duplicate_index.go:81-97 | the first sibling that covers the candidate, found if and only if there is one |
| DuplicateIndexes.DuplicatesWithinTable | go/internal/domain/duplicate_index.go:55-79 | the suggestions for one table, in candidate order, primary keys and unique indexes never among them |
| DuplicateIndexes.GroupByTable | go/internal/domain/duplicate_index.go:42-45 | every table's indexes, in input order, and no other tables |
| DuplicateIndexes.DetectDuplicateIndexes | go/internal/domain/duplicate_index.go:41-53 | the suggestions of all tables, in whatever order the map yields the tables |
| DuplicateIndexes.CoversIffReplaces | go/internal/domain/duplicate_index.go:81-135 | for an unconstrained index, covering it is: same table, another name, same method, partial flag and predicate, columns that begin with its columns, and more columns, or a constraint, or a name that sorts first |
| DuplicateIndexes.SuggestionsAreFlagged | go/internal/domain/duplicate_index.go:41-97 | every suggestion is about an unconstrained index some index replaces in that sense, and names both with the columns of both; and every such index gets a suggestion |
| DuplicateIndexes.PrefixIsFlagged | go/internal/domain/duplicate_index.go:124-127 | an unconstrained index whose columns are a proper prefix of another one's of its table and kind is always flagged |
| DuplicateIndexes.TwinsButFirstAreFlagged | go/internal/domain/duplicate_index.go:119-135 | an unconstrained index that only unconstrained indexes on the very same columns could replace is flagged if and only if one of them has a name that sorts before its own: of such twins all but the first by name |
| DuplicateIndexes.SuggestionsInOrder | go/internal/domain/duplicate_index.go:55-97 | the suggestions for a table are about its flagged indexes, one each and in their order, and each names the first index that replaces the flagged one |
| DuplicateIndexes.OfTableIsFilter | go/internal/domain/duplicate_index.go:42-45 | a table's group is its indexes in input order |
| Text.LessAtFirstDifference | go/internal/domain/duplicate_index.go:134 | names compare by their first different character, a proper prefix coming first |
| DuplicateIndexes.OutranksIsTransitive | go/internal/domain/duplicate_index.go:124-135 | the tie-break makes "redundant because of" transitive and free of cycles |
| DuplicateIndexes.KeeperOf | go/internal/domain/duplicate_index.go:81-135 | following "redundant because of" from a flagged index ends at an index nobody suggests to drop |
| DuplicateIndexes.DroppingAllIsSafe | go/internal/domain/duplicate_index.go:41-135 | dropping every flagged index at once leaves, for each, an unflagged index on its table with the same access method and predicate whose columns begin with its columns; for all inputs |
| DuplicateIndexes.DroppingByNameIsSafe | go/internal/domain/duplicate_index.go:41-135 | with distinct names per table, so does dropping every (table, name) in the output, for every order of the tables |
| DuplicateIndexes.FlaggedSetIgnoresOrder | go/internal/domain/duplicate_index.go:41-53 | the set of flagged indexes is the same for every order of the input and of the tables |
| HistoryTable.TimeAtRankIsUnique | go/internal/infrastructure/history/sqlite_store_maintenance.go:73-82 | ORDER BY captured_at DESC LIMIT 1 OFFSET k picks one time, however ties are ordered |
| HistoryStore.RedactedSnapshotIsRedacted | go/internal/infrastructure/history/sqlite_store.go:116-128 | redacting a snapshot leaves no query with a quote or with anything left to redact |
| HistoryStore.OnlyQueriesAreRedacted | go/internal/infrastructure/history/sqlite_store.go:116-128 | redacting a snapshot keeps its time, its trigger, its sessions in order and all their fields but the query, which becomes its redaction |
| HistoryStore.RedactSessions | go/internal/infrastructure/history/sqlite_store.go:116-128 | the loop over the sessions computes that |
| HistoryStore.SQLiteStore.Append | go/internal/infrastructure/history/sqlite_store.go:96-112 | adds one row with the redacted snapshot and a new id, or nothing when the insert fails; a table of redacted queries stays one |
| HistoryStore.SQLiteStore.PruneOlderThan | go/internal/infrastructure/history/sqlite_store_maintenance.go:26-54 | ends; when done, what stays is exactly the incidents and the periodic rows captured at or after the cutoff, whatever rows each batch picks; interrupted, no such row is gone; uninterrupted when nothing fails |
| HistoryStore.SQLiteStore.PruneExcessIncidents | go/internal/infrastructure/history/sqlite_store_maintenance.go:61-111 | removes exactly the incidents strictly older than the maxRows-th newest time, nothing when there are no more than maxRows or a query fails, and misses its cutoff only for a negative maxRows on no incidents; a failure is never reported as done |
| HistoryStore.SQLiteStore.PruneIncidentsBefore | go/internal/infrastructure/history/sqlite_store_maintenance.go:84-110 | the batched loop equals the one-shot filter |
| HistoryStore.ExcessIsOlderIncidents | go/internal/infrastructure/history/sqlite_store_maintenance.go:84-93 | what that filter leaves is exactly the periodic rows and the incidents captured at or after the cutoff |
| HistoryStore.IncidentsLeft | go/internal/infrastructure/history/sqlite_store_maintenance.go:73-82 | at least maxRows incidents stay, and exactly maxRows if and only if the time of the next newest is strictly less than the cutoff |
| HistoryStore.TiedIncidentsStay | go/internal/infrastructure/history/sqlite_store_maintenance.go:73-82 | two incidents of one time both stay under a cap of one |
| HistoryStore.DistinctTimesLeaveMaxRows | go/internal/infrastructure/history/sqlite_store_maintenance.go:61-111 | with distinct times exactly maxRows incidents stay |
| HistoryStore.ZeroKeepsNewest | go/internal/infrastructure/history/sqlite_store_maintenance.go:73-82 | a cap of zero keeps the newest incidents |
| HistoryStore.SQLiteStore.PruneUntilUnderSize | go/internal/infrastructure/history/sqlite_store_maintenance.go:150-192 | ends for any measurements, failing ones included; only rows of the trigger go, oldest first, and exactly 500 for each measurement over the cap or all there are; done, the last size is within the cap or none of them is left; done whenever nothing fails |
| HistoryStore.SQLiteStore.EnforceMaxSize | go/internal/infrastructure/history/sqlite_store_maintenance.go:123-141 | ends for any measurements; an incident goes only after every periodic row; within each trigger nothing that stays is older than what went; every batch has a measurement over the cap before it; nothing goes if the file is within the cap or cannot be measured; each pass fails, or not, at statements of its own; done, it is within the cap or the table empty |
| HistoryStore.PeriodicThenIncidents | go/internal/infrastructure/history/sqlite_store_maintenance.go:129-138 | the two passes together keep the priority of incidents and the order by age within each trigger |
| HistoryStore.OldestGoFirst | go/internal/infrastructure/history/sqlite_store_maintenance.go:113-141 | of two rows with one trigger, the one that went was captured no later than the one that stays |
| HistoryStore.PeriodicGoFirst | go/internal/infrastructure/history/sqlite_store_maintenance.go:113-141 | once an incident has gone, no periodic row is left |
| HistoryQuery.ComputeStep | go/internal/infrastructure/history/sqlite_store_query.go:54-57 | the least step that thins the rows to at most 1500 |
| HistoryQuery.EveryNthIsEven | go/internal/infrastructure/history/sqlite_store_query.go:59-67 | the selected rows are rows 0, step, 2 step, ... of the window, and fewer than step rows follow the last one |
| HistoryQuery.ThinningBounds | go/internal/infrastructure/history/sqlite_store_query.go:54-67 | at most 1500 periodic rows come back, all of them up to 1500, more than 750 beyond |
| HistoryQuery.MergeSnapshotsByTime | go/internal/infrastructure/history/sqlite_store_query.go:92-107 | the two-index loop computes the merge that the lemmas below are about |
| HistoryQuery.MergedIsChronological | go/internal/infrastructure/history/sqlite_store_query.go:92-107 | the merge of two chronological lists is chronological |
| HistoryQuery.MergedKeepsSources | go/internal/infrastructure/history/sqlite_store_query.go:92-107 | each of the two lists comes out whole and in its own order |
| HistoryQuery.MergedTies | go/internal/infrastructure/history/sqlite_store_query.go:96-103 | of snapshots with equal times the incidents come before the periodic ones |
| HistoryQuery.RecentPeriodic | go/internal/infrastructure/history/sqlite_store_query.go:41-74 | every step-th of the window's periodic rows in some order by time, with the least step that leaves at most 1500; an error if and only if a query it makes fails, and none is made for the rows of an empty window |
| HistoryQuery.RecentIncidents | go/internal/infrastructure/history/sqlite_store_query.go:76-87 | every incident of the window, in some order by time, or an error if and only if the query fails |
| HistoryQuery.Recent | go/internal/infrastructure/history/sqlite_store_query.go:26-39 | the merge of the two, whatever order the database gives rows of equal time; an error if and only if one of the queries it makes fails |
| HistoryQuery.RecentIsFaithful | go/internal/infrastructure/history/sqlite_store_query.go:26-107 | what comes back is chronological; its incidents are all the incidents of the window in order of time, and the rest is the window's periodic snapshots, evenly thinned |
| HistoryQuery.RecentIsOfTheWindow | go/internal/infrastructure/history/sqlite_store_query.go:26-87 | everything that comes back is stored and was captured at or after the start of the window, and no incident captured there is missing |
| HistoryQuery.ThinnedWindowBounds | go/internal/infrastructure/history/sqlite_store_query.go:41-74 | of the window's periodic snapshots all come back up to 1500, and more than 750 but at most 1500 beyond |
| RingBuffer.AppendBounded | go/internal/infrastructure/history/ring_buffer_store.go:71-76 | a buffer that holds the last entries of a log holds the last entries of the log with the new entry |
| RingBuffer.RingBufferStore.Append | go/internal/infrastructure/history/ring_buffer_store.go:33-44 | after any appends the store holds the last 300 snapshots ever appended and the last 50 of the incidents among them |
| RingBuffer.RingBufferStore.Recent | go/internal/infrastructure/history/ring_buffer_store.go:49-60 | the last 300 of the full log from a time on, in order |
| RingBuffer.RingBufferStore.Incidents | go/internal/infrastructure/history/ring_buffer_store.go:62-67 | the last 50 incidents of the full log |
| RingBuffer.SinceKeepsExactly | go/internal/infrastructure/history/ring_buffer_store.go:54-58 | the filter keeps a snapshot if and only if it is not older than the given time |
| RingBuffer.SinceIsFilter | go/internal/infrastructure/history/ring_buffer_store.go:53-59 | and keeps them in order, each as often as it was there |
| RingBuffer.BoundedWindow | go/internal/infrastructure/history/ring_buffer_store.go:46-60 | for a chronological log, the window read from the buffer is the newest 300 of the window of the full log: all of it unless it reaches back further than the buffer |
| Poller.TrimSessions | go/internal/application/service/poller.go:166-178 | incidents and short lists are kept whole; of a long list the given number is kept, longest first, and none left out ran longer |
| Poller.TrimmedKeepsLongest | go/internal/application/service/poller.go:160-178 | of a periodic snapshot as many sessions stay as the cap allows, and none that was left out ran longer than one that stays; an incident keeps all |
| Poller.Poller.ClassifyTrigger | go/internal/application/service/poller.go:184-199 | an incident if and only if some session is blocked that the remembered map does not show as blocked; the map is then of the current sessions |
| Poller.Poller.MaybeRecordSnapshot | go/internal/application/service/poller.go:139-158 | records when due and the append succeeds, and otherwise changes nothing but the remembered map |
| Poller.Poller.OnTick | go/internal/application/service/poller.go:91-103 | nothing happens while monitoring is off or the fetch fails |
| Poller.BlockMapMeansBlocked | go/internal/application/service/poller.go:185-190 | the remembered map shows an id as blocked if and only if the last session listed with it has a blocker |
| Poller.RemembersLastFetched | go/internal/application/service/poller.go:184-199 | in every run the remembered map is that of the last successfully fetched active tick, however many ticks were skipped since |
| Poller.IncidentIffNewlyBlocked | go/internal/application/service/poller.go:139-199 | in every run, a fetched tick whose append succeeds appends one untrimmed incident snapshot if and only if some session is blocked that was not blocked at the last fetched tick |
| Poller.IncidentRecordedIffAppended | go/internal/application/service/poller.go:139-158 | in every run, a fetched tick with a newly blocked session adds the untrimmed incident if and only if the append succeeds, and nothing otherwise |
| Poller.PeriodicRecordedIffDue | go/internal/application/service/poller.go:139-158 | in every run, a fetched tick at which nobody is newly blocked adds one trimmed periodic snapshot if and only if the append succeeds and nothing was recorded before or recordInterval has passed since the last recording; otherwise it adds nothing |
| Poller.IncidentRecordedAtOnce | go/internal/application/service/poller.go:139-158 | one at which somebody is newly blocked adds the untrimmed incident if and only if the append succeeds, however recently anything was recorded |
| Poller.IdleTickChangesNothing | go/internal/application/service/poller.go:91-100 | in every run, a tick with monitoring off or a failed fetch changes nothing |
| Poller.BlockedSinceIsRemembered | go/internal/application/service/poller.go:184-199 | a session blocked at a fetched tick and at every fetched tick since is remembered as blocked, whatever was skipped or appended in between |
| Poller.LostIncidentStaysLost | go/internal/application/service/poller.go:139-199 | at no later tick do sessions that have been blocked ever since make an incident |
| Poller.IncidentIsLost | go/internal/application/service/poller.go:153-156 | a run in which a session becomes blocked and no incident is ever stored |
| Poller.TickKeepsSpacing | go/internal/application/service/poller.go:142-157 | every tick keeps each periodic snapshot at least the interval after all snapshots before it |
| Poller.RunsKeepSpacing | go/internal/application/service/poller.go:142-157 | so does every run whose clock never runs backwards |
| Poller.PeriodicCadence | go/internal/application/service/poller.go:133-158 | in every run, any window of length T holds at most T / recordInterval + 1 periodic snapshots |
| Broadcaster.StepKeepsInvariant | go/internal/infrastructure/sse/broadcaster.go:66-141 | every atomic step keeps every client's stream in order and accounted for |
| Broadcaster.RunsKeepInvariant | go/internal/infrastructure/sse/broadcaster.go:66-141 | so does every interleaving of the broadcaster, the handlers, and clients coming and going |
| Broadcaster.NoSendOnClosedChannel | go/internal/infrastructure/sse/broadcaster.go:72-77 | in no run is anything sent on a closed channel or a channel closed twice |
| Broadcaster.StreamsAreInOrder | go/internal/infrastructure/sse/broadcaster.go:79-141 | each registered client received events broadcast after it joined, each at most once and in order; its queue is an unbroken stretch of at most 50 events up to the last one offered; received, queued and dropped add up to what was offered; and everything sent was offered, but for the event of a broadcast that has not served it yet |
| Broadcaster.OneEventAtATime | go/internal/infrastructure/sse/broadcaster.go:123-141 | in every step of every run, a client's stream stays as it is, or its handler takes the oldest event, or the event being broadcast is queued last, or the oldest event alone is dropped, by the broadcaster that found the queue full |
| Broadcaster.DropsFromFullQueue | go/internal/infrastructure/sse/broadcaster.go:128-134 | nothing is dropped unless the broadcast under way has found all 50 places of that queue taken, with nobody but handlers moving since |
| Broadcaster.StalledClientHoldsNewest | go/internal/infrastructure/sse/broadcaster.go:119-141 | a client whose handler has taken nothing holds, when no broadcast is under way, exactly the last 50 events sent since it joined, or all of them while there are fewer |
| Broadcaster.JoinsWithNothing | go/internal/infrastructure/sse/broadcaster.go:52-70 | a client that registers starts with an empty queue and gets the events broadcast from then on |
| Broadcaster.LeftStreamsWereInOrder | go/internal/infrastructure/sse/broadcaster.go:72-101 | the same of clients that have left, up to some event sent before |
| Broadcaster.NewestIsNeverLost | go/internal/infrastructure/sse/broadcaster.go:123-141 | when Broadcast has returned, every registered client has the newest event queued, or has received it last |
| Broadcaster.BroadcastStepsFinish | go/internal/infrastructure/sse/broadcaster.go:123-141 | every step of the broadcaster reduces the work left, whichever client it takes next, and no step of a handler adds to it |
| Broadcaster.BroadcastNeverBlocks | go/internal/infrastructure/sse/broadcaster.go:119-141 | during a broadcast the broadcaster always has a next step, whatever the handlers do or fail to do, and each of its possible steps reduces the work left, so it returns after at most three channel operations per client |

## Left out

- The collectors in `go/internal/infrastructure/postgres` and `mysql`: reads of statistics views.
- The threshold filters and explanation texts in `go/internal/domain`, the text of a duplicate-index suggestion included: one comparison or one format string each.
- The force simulations (`clusterLayout.ts`, the simulation inside `singletonLayout.ts`): library code and randomness; the layout theorems hold for any positions they return for the ids and edges they are given, which are stated exactly.
- ClusteredLayout.ComputeClusteredLayout: leaves out the `clusterHulls` of the result, polygons from d3-polygon around positions that are modelled.
- HTTP routing, configuration, JSON, MySQL, user interface.
- EscapeStrings.EscapeStringMaskedIff: is about literals whose parts are separated by white space, or by comments that hold no quote, dollar sign or digit; PostgreSQL also accepts other comments there, on which the scanner goes wrong as in `LexedQueries.ApostropheInIdentifierLeaks`.
- LexedQueries.EveryLiteralIsMaskedIff: is about queries in which no backslash escapes a quote. With one, the output can still be right by accident: of `E'\''` it is one mask. `EscapeStrings` says exactly when the literal itself is masked whatever follows it.
- Redaction.RedactQueryLiterals: works on characters; the conversion of a Go string's bytes to runes, which replaces invalid bytes, is not modelled.
- LoadGenerator.StepKeepsLocks: leaves out the order of those behind the first in line; any of them may be next, and a newcomer may take a row that has just been freed.
- LoadGenerator and Broadcaster are state machines on values rather than classes, because their theorems are about interleavings; hold times, delays, heartbeats and failed writes to the browser are not distinguished.
- Broadcaster: one broadcasting goroutine, as in pgscope; several at once could lose the newest event. A client that has unregistered receives nothing more.
- HistoryStore.SQLiteStore.EnforceMaxSize: the file size is an arbitrary number measured anew after each batch, or a failure; WAL, checkpoints and page reuse are not modelled. The same goes for `PruneUntilUnderSize`.
- HistoryStore and HistoryQuery: appends that run between two batches of a pruning run or between the queries of one `Recent` are not modelled; times are integers, not stored text. `SQLiteStore.Incidents` is the query of `RecentIncidents` without the window.
- Poller: publishing to the broadcaster and reading database statistics, which do not influence what is recorded; the timer of `Recorder` is the flag a tick finds. A negative session cap, which the slice expression of `trimSessions` would not survive, is not modelled.
- Floating-point rounding of coordinates: they are reals.
- Text.LessIsTotal: compares characters; JavaScript's order by UTF-16 units and Go's by bytes differ from it on some characters outside the basic plane, which changes which of two names comes first but not that exactly one does.
- `DuplicateIndexes.PreferOther` and `SameShape` are expressions and have no row of their own; `Outranks` and the lemmas about it state what they are for.
