/** What it means that a list holds, in order and each once, exactly the items of another list that pass a test. */
module Sublists {

  predicate Increasing(at: seq<int>)
  {
    forall j, k :: 0 <= j < k < |at| ==> at[j] < at[k]
  }

  /** The positions in `whole` that the items of `part` come from. */
  ghost predicate ComesFrom<T>(part: seq<T>, whole: seq<T>, keep: T -> bool, at: seq<int>)
  {
    && |at| == |part| && Increasing(at)
    && (forall k :: 0 <= k < |part| ==> 0 <= at[k] < |whole| && part[k] == whole[at[k]] && keep(part[k]))
    && (forall i :: 0 <= i < |whole| && keep(whole[i]) ==> i in at)
  }

  ghost predicate IsFilter<T>(part: seq<T>, whole: seq<T>, keep: T -> bool)
  {
    exists at :: ComesFrom(part, whole, keep, at)
  }

  lemma NothingFromNothing<T>(keep: T -> bool)
    ensures IsFilter([], [], keep)
  {
    assert ComesFrom([], [], keep, []);
  }

  /** One more item of the whole list is one more of the part if it passes. */
  lemma FilterGrows<T>(part: seq<T>, whole: seq<T>, keep: T -> bool, x: T)
    requires IsFilter(part, whole, keep)
    ensures IsFilter(part + if keep(x) then [x] else [], whole + [x], keep)
  {
    var at :| ComesFrom(part, whole, keep, at);
    if keep(x) {
      PositionsGrow(part, whole, keep, x, at);
    } else {
      assert part + [] == part;
      assert ComesFrom(part, whole + [x], keep, at);
    }
  }

  lemma FilterOfLonger<T>(part: seq<T>, whole: seq<T>, keep: T -> bool)
    requires whole != [] && IsFilter(part, whole[..|whole| - 1], keep)
    ensures IsFilter(part + if keep(whole[|whole| - 1]) then [whole[|whole| - 1]] else [], whole, keep)
  {
    hide IsFilter;
    FilterGrows(part, whole[..|whole| - 1], keep, whole[|whole| - 1]);
    assert whole == whole[..|whole| - 1] + [whole[|whole| - 1]];
  }

  lemma PositionsGrow<T>(part: seq<T>, whole: seq<T>, keep: T -> bool, x: T, at: seq<int>)
    requires ComesFrom(part, whole, keep, at) && keep(x)
    ensures ComesFrom(part + [x], whole + [x], keep, at + [|whole|])
  {
    forall i | 0 <= i < |whole + [x]| && keep((whole + [x])[i])
      ensures i in at + [|whole|]
    {
      assert i < |whole| ==> i in at;
    }
  }

  lemma FilterHolds<T>(part: seq<T>, whole: seq<T>, keep: T -> bool, x: T)
    requires IsFilter(part, whole, keep)
    ensures x in part <==> x in whole && keep(x)
  {
    var at :| ComesFrom(part, whole, keep, at);
    if x in whole && keep(x) {
      var i :| 0 <= i < |whole| && whole[i] == x;
      var k :| 0 <= k < |at| && at[k] == i;
      assert part[k] == x;
    }
  }

  /** The part is determined by the whole and the test. */
  lemma {:induction false} FilterIsUnique<T>(a: seq<T>, b: seq<T>, whole: seq<T>, keep: T -> bool)
    requires IsFilter(a, whole, keep) && IsFilter(b, whole, keep)
    ensures a == b
    decreases |whole|
  {
    if whole == [] {
      FilterIsNotLonger(a, whole, keep);
      FilterIsNotLonger(b, whole, keep);
    } else {
      var shorterA := FilterShrinks(a, whole, keep);
      var shorterB := FilterShrinks(b, whole, keep);
      FilterIsUnique(shorterA, shorterB, whole[..|whole| - 1], keep);
    }
  }

  lemma FilterIsNotLonger<T>(part: seq<T>, whole: seq<T>, keep: T -> bool)
    requires IsFilter(part, whole, keep)
    ensures |part| <= |whole|
  {
    var at :| ComesFrom(part, whole, keep, at);
    if part != [] {
      AtLeastItsIndex(at, |part| - 1);
    }
  }

  lemma {:induction false} AtLeastItsIndex(at: seq<int>, k: nat)
    requires Increasing(at) && k < |at| && 0 <= at[0]
    ensures k <= at[k]
  {
    if k > 0 {
      AtLeastItsIndex(at, k - 1);
    }
  }

  lemma LastIsGreatest(at: seq<int>, n: int)
    requires Increasing(at) && n in at
    ensures n <= at[|at| - 1]
  {
  }

  lemma FilterShrinks<T>(part: seq<T>, whole: seq<T>, keep: T -> bool) returns (shorter: seq<T>)
    requires IsFilter(part, whole, keep) && whole != []
    ensures IsFilter(shorter, whole[..|whole| - 1], keep)
    ensures part == shorter + if keep(whole[|whole| - 1]) then [whole[|whole| - 1]] else []
  {
    hide ComesFrom;
    var at :| ComesFrom(part, whole, keep, at);
    if keep(whole[|whole| - 1]) {
      var k := PositionsShrink(part, whole, keep, at);
      shorter := part[..k];
      assert ComesFrom(shorter, whole[..|whole| - 1], keep, at[..k]);
    } else {
      PositionsStay(part, whole, keep, at);
      shorter := part;
    }
  }

  lemma PositionsShrink<T>(part: seq<T>, whole: seq<T>, keep: T -> bool, at: seq<int>)
    returns (k: nat)
    requires ComesFrom(part, whole, keep, at) && whole != [] && keep(whole[|whole| - 1])
    ensures k < |part| == |at| && part == part[..k] + [whole[|whole| - 1]]
    ensures ComesFrom(part[..k], whole[..|whole| - 1], keep, at[..k])
  {
    LastIsGreatest(at, |whole| - 1);
    k := |at| - 1;
    assert part == part[..k] + [part[k]];
    FrontComesFromFront(part, whole, keep, at);
  }

  lemma FrontComesFromFront<T>(part: seq<T>, whole: seq<T>, keep: T -> bool, at: seq<int>)
    requires whole != [] && part != [] && ComesFrom(part, whole, keep, at) && at[|part| - 1] == |whole| - 1
    ensures ComesFrom(part[..|part| - 1], whole[..|whole| - 1], keep, at[..|part| - 1])
  {
    var k := |part| - 1;
    forall i | 0 <= i < |whole| - 1 && keep(whole[i])
      ensures i in at[..k]
    {
      InFrontPart(at, i);
    }
  }

  lemma InFrontPart(at: seq<int>, i: int)
    requires at != [] && i in at && i != at[|at| - 1]
    ensures i in at[..|at| - 1]
  {
    var m :| 0 <= m < |at| && at[m] == i;
    assert at[..|at| - 1][m] == i;
  }

  lemma PositionsStay<T>(part: seq<T>, whole: seq<T>, keep: T -> bool, at: seq<int>)
    requires ComesFrom(part, whole, keep, at) && whole != [] && !keep(whole[|whole| - 1])
    ensures ComesFrom(part, whole[..|whole| - 1], keep, at)
  {
    forall k | 0 <= k < |part|
      ensures at[k] < |whole| - 1
    {
      assert part[k] == whole[at[k]];
    }
  }
}
