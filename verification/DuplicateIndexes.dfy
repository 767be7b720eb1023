/** go/internal/domain/duplicate_index.go: which indexes another index on the same table makes redundant. */
module DuplicateIndexes {
  import opened Options
  import opened Sets
  import opened Sublists
  import opened Text

  datatype IndexInfo = IndexInfo(
    table: string, name: string, accessMethod: string, unique: bool, primary: bool,
    partial: bool, condition: string, columns: seq<string>)

  datatype DuplicateIndex = DuplicateIndex(
    table: string, redundantIndex: string, coveringIndex: string,
    redundantColumns: seq<string>, coveringColumns: seq<string>)

  predicate SameShape(a: IndexInfo, b: IndexInfo)
  {
    a.accessMethod == b.accessMethod && a.partial == b.partial && a.condition == b.condition
  }

  predicate Constrains(index: IndexInfo)
  {
    index.primary || index.unique
  }

  predicate PreferOther(candidate: IndexInfo, other: IndexInfo)
  {
    if |other.columns| != |candidate.columns| then true
    else if Constrains(other) then true
    else if Constrains(candidate) then false
    else Less(other.name, candidate.name)
  }

  /** `other` can take over every lookup of `candidate`, and is the one to keep. */
  predicate Outranks(other: IndexInfo, candidate: IndexInfo)
  {
    SameShape(candidate, other) && candidate.columns <= other.columns && PreferOther(candidate, other)
  }

  predicate Covers(other: IndexInfo, candidate: IndexInfo)
  {
    other.name != candidate.name && Outranks(other, candidate)
  }

  method ColumnsCovered(coveringColumns: seq<string>, candidateColumns: seq<string>) returns (covered: bool)
    ensures covered <==> candidateColumns <= coveringColumns
  {
    if |coveringColumns| < |candidateColumns| {
      return false;
    }
    for i := 0 to |candidateColumns|
      invariant forall j :: 0 <= j < i ==> coveringColumns[j] == candidateColumns[j]
    {
      if coveringColumns[i] != candidateColumns[i] {
        return false;
      }
    }
    return true;
  }

  /** The first sibling that covers the candidate. */
  function FirstCovering(candidate: IndexInfo, siblings: seq<IndexInfo>): (covering: Option<IndexInfo>)
    ensures covering.Some? <==> exists other :: other in siblings && Covers(other, candidate)
    ensures covering.Some? ==> covering.value in siblings && Covers(covering.value, candidate)
  {
    if siblings == [] then None
    else if Covers(siblings[0], candidate) then Some(siblings[0])
    else FirstCovering(candidate, siblings[1..])
  }

  method FindCoveringIndex(candidate: IndexInfo, siblings: seq<IndexInfo>) returns (covering: Option<IndexInfo>)
    ensures covering == FirstCovering(candidate, siblings)
  {
    for i := 0 to |siblings|
      invariant FirstCovering(candidate, siblings) == FirstCovering(candidate, siblings[i..])
    {
      var other := siblings[i];
      assert siblings[i..][1..] == siblings[i + 1..];
      if other.name == candidate.name {
        continue;
      }
      if !SameShape(candidate, other) {
        continue;
      }
      var covered := ColumnsCovered(other.columns, candidate.columns);
      if !covered {
        continue;
      }
      if PreferOther(candidate, other) {
        return Some(other);
      }
    }
    return None;
  }

  function Suggestion(table: string, candidate: IndexInfo, covering: IndexInfo): DuplicateIndex
  {
    DuplicateIndex(table, candidate.name, covering.name, candidate.columns, covering.columns)
  }

  /** The suggestions for the first n candidates, in order. */
  function SuggestionsAmong(table: string, indexes: seq<IndexInfo>, n: nat): seq<DuplicateIndex>
    requires n <= |indexes|
  {
    if n == 0 then []
    else
      var candidate := indexes[n - 1];
      var covering := FirstCovering(candidate, indexes);
      SuggestionsAmong(table, indexes, n - 1)
      + if !Constrains(candidate) && covering.Some? then [Suggestion(table, candidate, covering.value)] else []
  }

  method DuplicatesWithinTable(table: string, indexes: seq<IndexInfo>) returns (duplicates: seq<DuplicateIndex>)
    ensures duplicates == SuggestionsAmong(table, indexes, |indexes|)
  {
    hide FirstCovering, Suggestion;
    duplicates := [];
    for i := 0 to |indexes|
      invariant duplicates == SuggestionsAmong(table, indexes, i)
    {
      var candidate := indexes[i];
      if candidate.primary || candidate.unique {
        continue;
      }
      var covering := FindCoveringIndex(candidate, indexes);
      if covering.None? {
        continue;
      }
      duplicates := duplicates + [Suggestion(table, candidate, covering.value)];
    }
  }

  function OfTable(indexes: seq<IndexInfo>, table: string): seq<IndexInfo>
  {
    if indexes == [] then []
    else
      var last := indexes[|indexes| - 1];
      OfTable(indexes[..|indexes| - 1], table) + if last.table == table then [last] else []
  }

  lemma {:induction false} InTable(indexes: seq<IndexInfo>, table: string, x: IndexInfo)
    ensures x in OfTable(indexes, table) <==> x in indexes && x.table == table
  {
    if indexes != [] {
      InTable(indexes[..|indexes| - 1], table, x);
      assert indexes == indexes[..|indexes| - 1] + [indexes[|indexes| - 1]];
    }
  }

  function TablesOf(indexes: seq<IndexInfo>): set<string>
  {
    set x | x in indexes :: x.table
  }

  /** The tables' suggestions, one table after the other. */
  function InTableOrder(indexes: seq<IndexInfo>, order: seq<string>): seq<DuplicateIndex>
  {
    if order == [] then []
    else
      var table := order[|order| - 1];
      InTableOrder(indexes, order[..|order| - 1])
      + SuggestionsAmong(table, OfTable(indexes, table), |OfTable(indexes, table)|)
  }

  /** One more index in its table's list, which starts out empty. */
  function Append(byTable: map<string, seq<IndexInfo>>, index: IndexInfo): map<string, seq<IndexInfo>>
  {
    byTable[index.table := (if index.table in byTable then byTable[index.table] else []) + [index]]
  }

  lemma AppendGroups(indexes: seq<IndexInfo>, i: nat, byTable: map<string, seq<IndexInfo>>)
    requires i < |indexes|
    requires forall table :: OfTable(indexes[..i], table) == if table in byTable then byTable[table] else []
    ensures var more := Append(byTable, indexes[i]);
            forall table :: OfTable(indexes[..i + 1], table) == if table in more then more[table] else []
  {
    assert indexes[..i + 1][..i] == indexes[..i];
  }

  method GroupByTable(indexes: seq<IndexInfo>) returns (byTable: map<string, seq<IndexInfo>>)
    ensures byTable.Keys == TablesOf(indexes)
    ensures forall table :: table in byTable ==> byTable[table] == OfTable(indexes, table)
  {
    byTable := map[];
    for i := 0 to |indexes|
      invariant byTable.Keys == TablesOf(indexes[..i])
      invariant forall table :: OfTable(indexes[..i], table) == if table in byTable then byTable[table] else []
    {
      AppendGroups(indexes, i, byTable);
      assert indexes[..i + 1] == indexes[..i] + [indexes[i]];
      byTable := Append(byTable, indexes[i]);
    }
    assert indexes[..|indexes|] == indexes;
  }

  ghost predicate IsOrderOf(order: seq<string>, tables: set<string>)
  {
    && (forall table :: table in order <==> table in tables)
    && forall i, j :: 0 <= i < j < |order| ==> order[i] != order[j]
  }

  /** The map of tables is walked in an arbitrary order: the result is the tables' suggestions in some order of the
      tables. */
  method DetectDuplicateIndexes(indexes: seq<IndexInfo>) returns (duplicates: seq<DuplicateIndex>)
    ensures exists order :: IsOrderOf(order, TablesOf(indexes)) && duplicates == InTableOrder(indexes, order)
  {
    hide SuggestionsAmong, OfTable;
    var byTable := GroupByTable(indexes);
    duplicates := [];
    var rest := byTable.Keys;
    ghost var order: seq<string> := [];
    while rest != {}
      invariant rest <= byTable.Keys && IsOrderOf(order, byTable.Keys - rest)
      invariant duplicates == InTableOrder(indexes, order)
    {
      var table :| table in rest;
      var found := DuplicatesWithinTable(table, byTable[table]);
      assert (order + [table])[..|order|] == order;
      duplicates := duplicates + found;
      rest := rest - {table};
      order := order + [table];
    }
    assert byTable.Keys - rest == TablesOf(indexes);
  }

  // ----- What is suggested

  /** y serves every lookup of x: an index of the same table and kind whose columns begin with those of x. */
  predicate Serves(y: IndexInfo, x: IndexInfo)
  {
    && y.table == x.table && y.accessMethod == x.accessMethod && y.partial == x.partial && y.condition == x.condition
    && |x.columns| <= |y.columns| && forall k :: 0 <= k < |x.columns| ==> x.columns[k] == y.columns[k]
  }

  /** y makes x redundant: it serves every lookup of x and is the one to keep of the two, as it has more columns, or
      constrains the table, or has the name that sorts first. */
  predicate Replaces(y: IndexInfo, x: IndexInfo)
  {
    && Serves(y, x) && y.name != x.name
    && (|y.columns| > |x.columns| || y.primary || y.unique || Less(y.name, x.name))
  }

  /** The index is to be suggested for dropping. */
  ghost predicate Flagged(x: IndexInfo, indexes: seq<IndexInfo>)
  {
    && x in indexes && !x.primary && !x.unique
    && exists y :: y in indexes && Replaces(y, x)
  }

  /** Among the indexes of one table, covering an unconstrained index is making it redundant. */
  lemma CoversIffReplaces(y: IndexInfo, x: IndexInfo)
    requires y.table == x.table && !x.primary && !x.unique
    ensures Covers(y, x) <==> Replaces(y, x)
  {
  }

  lemma ReplacingIsOfTable(y: IndexInfo, x: IndexInfo)
    requires Replaces(y, x)
    ensures y.table == x.table
  {
  }

  /** An unconstrained index whose columns are a proper prefix of another one's is always flagged. */
  lemma PrefixIsFlagged(indexes: seq<IndexInfo>, x: IndexInfo, y: IndexInfo)
    requires x in indexes && y in indexes && !x.primary && !x.unique
    requires Serves(y, x) && |x.columns| < |y.columns| && y.name != x.name
    ensures Flagged(x, indexes)
  {
  }

  /** Two unconstrained indexes that serve the same lookups. */
  predicate Twins(x: IndexInfo, y: IndexInfo)
  {
    Serves(x, y) && Serves(y, x) && !x.primary && !x.unique && !y.primary && !y.unique
  }

  /** Of unconstrained indexes that serve the same lookups, have different names, and have no other index that could
      replace them, all but the one whose name sorts first are flagged, and that one is not. */
  lemma TwinsButFirstAreFlagged(indexes: seq<IndexInfo>, x: IndexInfo)
    requires x in indexes && !x.primary && !x.unique
    requires forall y :: y in indexes && Serves(y, x) ==> Twins(x, y)
    ensures Flagged(x, indexes) <==> exists y :: y in indexes && Twins(x, y) && Less(y.name, x.name)
  {
    forall y | y in indexes && Twins(x, y) && Less(y.name, x.name)
      ensures Replaces(y, x)
    {
      LessIsAsymmetric(y.name, x.name);
    }
  }

  /** d is the suggestion for the candidate x among its siblings. */
  predicate IsSuggestion(table: string, indexes: seq<IndexInfo>, x: IndexInfo, d: DuplicateIndex)
  {
    && !Constrains(x) && FirstCovering(x, indexes).Some?
    && d == Suggestion(table, x, FirstCovering(x, indexes).value)
  }

  lemma {:induction false} SuggestedAmong(table: string, indexes: seq<IndexInfo>, n: nat, d: DuplicateIndex)
    requires n <= |indexes|
    ensures d in SuggestionsAmong(table, indexes, n) <==>
              exists i :: 0 <= i < n && IsSuggestion(table, indexes, indexes[i], d)
  {
    hide *;
    NoneAmongNone(table, indexes);
    if n > 0 {
      SuggestedAmong(table, indexes, n - 1, d);
      LastSuggested(table, indexes, n, d);
    }
  }

  lemma NoneAmongNone(table: string, indexes: seq<IndexInfo>)
    ensures SuggestionsAmong(table, indexes, 0) == []
  {
  }

  lemma LastSuggested(table: string, indexes: seq<IndexInfo>, n: nat, d: DuplicateIndex)
    requires 0 < n <= |indexes|
    ensures d in SuggestionsAmong(table, indexes, n) <==>
      d in SuggestionsAmong(table, indexes, n - 1) || IsSuggestion(table, indexes, indexes[n - 1], d)
  {
    hide FirstCovering, Constrains, Suggestion;
  }

  ghost predicate SuggestedFor(indexes: seq<IndexInfo>, table: string, d: DuplicateIndex)
  {
    d in SuggestionsAmong(table, OfTable(indexes, table), |OfTable(indexes, table)|)
  }

  lemma {:induction false} SuggestedInOrder(indexes: seq<IndexInfo>, order: seq<string>, d: DuplicateIndex)
    ensures d in InTableOrder(indexes, order) <==> exists table :: table in order && SuggestedFor(indexes, table, d)
  {
    if order != [] {
      var init, last := order[..|order| - 1], order[|order| - 1];
      SuggestedInOrder(indexes, init, d);
      assert d in InTableOrder(indexes, order) <==> d in InTableOrder(indexes, init) || SuggestedFor(indexes, last, d);
      if table :| table in order && SuggestedFor(indexes, table, d) {
        assert table in init || table == last;
      }
    }
  }

  /** d is a suggestion to drop x: it names x and an index that makes x redundant, with the columns of both. */
  ghost predicate Suggests(d: DuplicateIndex, x: IndexInfo, indexes: seq<IndexInfo>)
  {
    && d.table == x.table && d.redundantIndex == x.name && d.redundantColumns == x.columns
    && exists y :: y in indexes && Replaces(y, x) && d.coveringIndex == y.name && d.coveringColumns == y.columns
  }

  // ----- In which order, and because of which index

  predicate IsOfTable(table: string, x: IndexInfo)
  {
    x.table == table
  }

  lemma {:induction false} OfTableIsFilter(indexes: seq<IndexInfo>, table: string)
    ensures IsFilter(OfTable(indexes, table), indexes, (x: IndexInfo) => IsOfTable(table, x))
  {
    hide IsFilter;
    var keep := (x: IndexInfo) => IsOfTable(table, x);
    if indexes == [] {
      NothingFromNothing(keep);
    } else {
      OfTableIsFilter(indexes[..|indexes| - 1], table);
      FilterOfLonger(OfTable(indexes[..|indexes| - 1], table), indexes, keep);
    }
  }

  /** The j-th index is the first one that makes x redundant. */
  predicate IsFirstReplacing(indexes: seq<IndexInfo>, x: IndexInfo, j: nat)
  {
    j < |indexes| && Replaces(indexes[j], x) && forall i :: 0 <= i < j ==> !Replaces(indexes[i], x)
  }

  lemma {:induction false} FirstCoveringIsFirst(x: IndexInfo, indexes: seq<IndexInfo>) returns (j: nat)
    requires !x.primary && !x.unique && forall y :: y in indexes ==> y.table == x.table
    requires FirstCovering(x, indexes).Some?
    ensures IsFirstReplacing(indexes, x, j) && FirstCovering(x, indexes).value == indexes[j]
  {
    CoversIffReplaces(indexes[0], x);
    if Covers(indexes[0], x) {
      j := 0;
    } else {
      var i := FirstCoveringIsFirst(x, indexes[1..]);
      j := i + 1;
      assert forall k :: 0 < k < |indexes| ==> indexes[k] == indexes[1..][k - 1];
    }
  }

  /** d names x and the first index that makes x redundant, with the columns of both. */
  ghost predicate NamesFirst(d: DuplicateIndex, x: IndexInfo, indexes: seq<IndexInfo>)
  {
    && d.table == x.table && d.redundantIndex == x.name && d.redundantColumns == x.columns
    && exists j: nat :: IsFirstReplacing(indexes, x, j) && d.coveringIndex == indexes[j].name
                     && d.coveringColumns == indexes[j].columns
  }

  ghost predicate NamesFirstEach(ds: seq<DuplicateIndex>, xs: seq<IndexInfo>, indexes: seq<IndexInfo>)
  {
    |ds| == |xs| && forall k :: 0 <= k < |ds| ==> NamesFirst(ds[k], xs[k], indexes)
  }

  ghost function IsFlaggedAmong(indexes: seq<IndexInfo>): IndexInfo -> bool
  {
    (x: IndexInfo) => Flagged(x, indexes)
  }

  /** The suggestions for one table are about its flagged indexes, one for each and in their order, and each names the
      first index that makes the flagged one redundant. */
  lemma {:induction false} SuggestionsInOrder(table: string, indexes: seq<IndexInfo>, n: nat)
    returns (flagged: seq<IndexInfo>)
    requires n <= |indexes| && forall x :: x in indexes ==> x.table == table
    ensures IsFilter(flagged, indexes[..n], IsFlaggedAmong(indexes))
    ensures NamesFirstEach(SuggestionsAmong(table, indexes, n), flagged, indexes)
  {
    hide IsFilter, Flagged, FirstCovering, NamesFirst;
    var keep := IsFlaggedAmong(indexes);
    flagged := [];
    if n == 0 {
      NothingFromNothing(keep);
    } else {
      var x := indexes[n - 1];
      var fewer := SuggestionsInOrder(table, indexes, n - 1);
      assert indexes[..n][..n - 1] == indexes[..n - 1];
      FilterOfLonger(fewer, indexes[..n], keep);
      flagged := fewer + if keep(x) then [x] else [];
      SuggestedIffFlagged(table, indexes, x);
    }
  }

  lemma SuggestedIffFlagged(table: string, indexes: seq<IndexInfo>, x: IndexInfo)
    requires x in indexes && forall y :: y in indexes ==> y.table == table
    ensures Flagged(x, indexes) <==> !Constrains(x) && FirstCovering(x, indexes).Some?
    ensures Flagged(x, indexes) ==> NamesFirst(Suggestion(table, x, FirstCovering(x, indexes).value), x, indexes)
  {
    forall y | y in indexes && !Constrains(x)
      ensures Covers(y, x) <==> Replaces(y, x)
    {
      CoversIffReplaces(y, x);
    }
    if !Constrains(x) && FirstCovering(x, indexes).Some? {
      var j := FirstCoveringIsFirst(x, indexes);
    }
  }

  /** Every flagged index is suggested, and every suggestion is about a flagged index. */
  lemma SuggestionsAreFlagged(indexes: seq<IndexInfo>, order: seq<string>)
    requires IsOrderOf(order, TablesOf(indexes))
    ensures forall d :: d in InTableOrder(indexes, order) ==> exists x :: Flagged(x, indexes) && Suggests(d, x, indexes)
    ensures forall x :: Flagged(x, indexes) ==> exists d :: d in InTableOrder(indexes, order) && Suggests(d, x, indexes)
  {
    forall d | d in InTableOrder(indexes, order)
      ensures exists x :: Flagged(x, indexes) && Suggests(d, x, indexes)
    {
      var x := SuggestionIsFlagged(indexes, order, d);
    }
    forall x | Flagged(x, indexes)
      ensures exists d :: d in InTableOrder(indexes, order) && Suggests(d, x, indexes)
    {
      var d := FlaggedIsSuggested(indexes, order, x);
    }
  }

  lemma SuggestionIsFlagged(indexes: seq<IndexInfo>, order: seq<string>, d: DuplicateIndex) returns (x: IndexInfo)
    requires d in InTableOrder(indexes, order)
    ensures Flagged(x, indexes) && Suggests(d, x, indexes)
  {
    hide Covers, Replaces, OfTable, SuggestionsAmong, InTableOrder;
    SuggestedInOrder(indexes, order, d);
    var table :| table in order && SuggestedFor(indexes, table, d);
    var siblings := OfTable(indexes, table);
    SuggestedAmong(table, siblings, |siblings|, d);
    var i :| 0 <= i < |siblings| && IsSuggestion(table, siblings, siblings[i], d);
    x := siblings[i];
    var y := FirstCovering(x, siblings).value;
    InTable(indexes, table, x);
    InTable(indexes, table, y);
    CoversIffReplaces(y, x);
  }

  lemma FlaggedIsSuggestedFor(indexes: seq<IndexInfo>, x: IndexInfo) returns (d: DuplicateIndex)
    requires Flagged(x, indexes)
    ensures SuggestedFor(indexes, x.table, d) && Suggests(d, x, indexes)
  {
    hide Covers, Replaces, OfTable, SuggestionsAmong;
    var siblings := OfTable(indexes, x.table);
    var other :| other in indexes && Replaces(other, x);
    ReplacingIsOfTable(other, x);
    CoversIffReplaces(other, x);
    InTable(indexes, x.table, x);
    InTable(indexes, x.table, other);
    var covering := FirstCovering(x, siblings).value;
    InTable(indexes, x.table, covering);
    CoversIffReplaces(covering, x);
    d := Suggestion(x.table, x, covering);
    var i :| 0 <= i < |siblings| && siblings[i] == x;
    SuggestedAmong(x.table, siblings, |siblings|, d);
  }

  lemma FlaggedIsSuggested(indexes: seq<IndexInfo>, order: seq<string>, x: IndexInfo) returns (d: DuplicateIndex)
    requires IsOrderOf(order, TablesOf(indexes)) && Flagged(x, indexes)
    ensures d in InTableOrder(indexes, order) && Suggests(d, x, indexes)
  {
    d := FlaggedIsSuggestedFor(indexes, x);
    assert x.table in TablesOf(indexes);
    SuggestedInOrder(indexes, order, d);
  }

  // ----- Acting on all suggestions at once

  /** What outranks an index that is itself redundant also outranks whatever that index outranks. */
  lemma OutranksIsTransitive(x: IndexInfo, y: IndexInfo, z: IndexInfo)
    requires !Constrains(x) && !Constrains(y)
    requires Outranks(y, x) && Outranks(z, y)
    ensures Outranks(z, x) && z != y
  {
    if |x.columns| == |z.columns| && !Constrains(z) {
      LessIsTransitive(z.name, y.name, x.name);
    }
    if z.name == y.name {
      LessIsIrreflexive(z.name);
    }
  }

  ghost function Outranking(x: IndexInfo, indexes: seq<IndexInfo>): set<IndexInfo>
  {
    set y | y in indexes && y.table == x.table && Outranks(y, x)
  }

  /** Following "redundant because of" always ends at an index nobody suggests to drop. */
  lemma {:induction false} KeeperOf(x: IndexInfo, indexes: seq<IndexInfo>) returns (keeper: IndexInfo)
    requires Flagged(x, indexes)
    ensures keeper in indexes && !Flagged(keeper, indexes) && keeper.table == x.table && Outranks(keeper, x)
    decreases |Outranking(x, indexes)|
  {
    var y :| y in indexes && Replaces(y, x);
    CoversIffReplaces(y, x);
    keeper := y;
    if Flagged(y, indexes) {
      forall z | z in Outranking(y, indexes)
        ensures z in Outranking(x, indexes) && z != y
      {
        OutranksIsTransitive(x, y, z);
      }
      ProperSubsetIsSmaller(Outranking(y, indexes), Outranking(x, indexes), y);
      keeper := KeeperOf(y, indexes);
      OutranksIsTransitive(x, y, keeper);
    }
  }

  lemma ProperSubsetIsSmaller(a: set<IndexInfo>, b: set<IndexInfo>, y: IndexInfo)
    requires a <= b - {y} && y in b
    ensures |a| < |b|
  {
    SubsetIsNotLarger(a, b - {y});
  }

  /** `keeper` stays when every flagged index is dropped, and serves every lookup of x. */
  ghost predicate Keeps(keeper: IndexInfo, x: IndexInfo, indexes: seq<IndexInfo>)
  {
    keeper in indexes && !Flagged(keeper, indexes) && Serves(keeper, x)
  }

  /** Dropping every flagged index at once is safe: each leaves behind an index on its table with the same access
      method and predicate whose leading columns are exactly its columns. */
  lemma DroppingAllIsSafe(indexes: seq<IndexInfo>)
    ensures forall x :: Flagged(x, indexes) ==> exists keeper :: Keeps(keeper, x, indexes)
  {
    forall x | Flagged(x, indexes)
      ensures exists keeper :: Keeps(keeper, x, indexes)
    {
      var keeper := KeeperOf(x, indexes);
      assert Keeps(keeper, x, indexes);
    }
  }

  ghost predicate DistinctNames(indexes: seq<IndexInfo>)
  {
    forall x, y :: x in indexes && y in indexes && x.table == y.table && x.name == y.name ==> x == y
  }

  /** The index is suggested for dropping by its name. */
  ghost predicate NamedForDrop(x: IndexInfo, indexes: seq<IndexInfo>, order: seq<string>)
  {
    x in indexes && (x.table, x.name) in Named(InTableOrder(indexes, order))
  }

  /** A keeper whose name is not among those suggested for dropping. */
  ghost predicate KeepsByName(keeper: IndexInfo, x: IndexInfo, indexes: seq<IndexInfo>, order: seq<string>)
  {
    Keeps(keeper, x, indexes) && !NamedForDrop(keeper, indexes, order)
  }

  /** With distinct names per table, dropping every name in the output, for whatever order the tables came in, is
      safe. */
  lemma DroppingByNameIsSafe(indexes: seq<IndexInfo>, order: seq<string>)
    requires DistinctNames(indexes) && IsOrderOf(order, TablesOf(indexes))
    ensures forall x :: NamedForDrop(x, indexes, order) ==> exists keeper :: KeepsByName(keeper, x, indexes, order)
  {
    forall x | NamedForDrop(x, indexes, order)
      ensures exists keeper :: KeepsByName(keeper, x, indexes, order)
    {
      NamedIsFlagged(x, indexes, order);
      var keeper := KeeperOf(x, indexes);
      if NamedForDrop(keeper, indexes, order) {
        NamedIsFlagged(keeper, indexes, order);
      }
      assert KeepsByName(keeper, x, indexes, order);
    }
  }

  lemma NamedIsFlagged(x: IndexInfo, indexes: seq<IndexInfo>, order: seq<string>)
    requires DistinctNames(indexes) && IsOrderOf(order, TablesOf(indexes)) && NamedForDrop(x, indexes, order)
    ensures Flagged(x, indexes)
  {
    NamedAreFlagged(indexes, order);
    var y :| Flagged(y, indexes) && (x.table, x.name) == (y.table, y.name);
    assert x == y;
  }

  /** The indexes suggested for dropping do not depend on the order of the input or of the tables. */
  lemma FlaggedSetIgnoresOrder(a: seq<IndexInfo>, b: seq<IndexInfo>, orderA: seq<string>, orderB: seq<string>)
    requires multiset(a) == multiset(b)
    requires IsOrderOf(orderA, TablesOf(a)) && IsOrderOf(orderB, TablesOf(b))
    ensures Named(InTableOrder(a, orderA)) == Named(InTableOrder(b, orderB))
  {
    forall x
      ensures x in a <==> x in b
    {
      assert x in multiset(a) <==> x in multiset(b);
    }
    NamedAreFlagged(a, orderA);
    NamedAreFlagged(b, orderB);
    forall name
      ensures name in Named(InTableOrder(a, orderA)) ==> name in Named(InTableOrder(b, orderB))
      ensures name in Named(InTableOrder(b, orderB)) ==> name in Named(InTableOrder(a, orderA))
    {
    }
  }

  function Named(duplicates: seq<DuplicateIndex>): set<(string, string)>
  {
    set d | d in duplicates :: (d.table, d.redundantIndex)
  }

  lemma NamedAreFlagged(indexes: seq<IndexInfo>, order: seq<string>)
    requires IsOrderOf(order, TablesOf(indexes))
    ensures forall name :: name in Named(InTableOrder(indexes, order)) <==>
      exists x :: Flagged(x, indexes) && name == (x.table, x.name)
  {
    SuggestionsAreFlagged(indexes, order);
  }
}
