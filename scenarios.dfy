/** The package's example scenarios (ligo_test.go), stated as methods over
    the model whose results are proved. Values are mathematical integers;
    the Go helpers work on int64. */
module Scenarios {
  import opened SeqCore
  import Builders
  import SeqFns
  import HighOrder
  import Equality

  /** `intAdd`: the sum of its arguments. */
  function IntAdd(vals: seq<int>): int
  {
    if |vals| == 0 then 0 else vals[0] + IntAdd(vals[1..])
  }

  /** The sum of a concatenation is the sum of its parts. */
  lemma {:induction false} IntAddConcat(a: seq<int>, b: seq<int>)
    ensures IntAdd(a + b) == IntAdd(a) + IntAdd(b)
  {
    if |a| > 0 {
      var ab := a + b;
      assert ab[0] == a[0];
      assert ab[1..] == a[1..] + b;
      IntAddConcat(a[1..], b);
      calc {
        IntAdd(ab);
        ab[0] + IntAdd(ab[1..]);
        a[0] + IntAdd(a[1..] + b);
        a[0] + (IntAdd(a[1..]) + IntAdd(b));
      }
    } else {
      assert a + b == b;
    }
  }

  /** The accumulation loop of `intAdd`: adds each argument to a running
      total, which ends as the sum of all of them. */
  method IntAddLoop(vals: seq<int>) returns (result: int)
    ensures result == IntAdd(vals)
  {
    result := 0;
    for k := 0 to |vals|
      invariant result == IntAdd(vals[..k])
    {
      IntAddConcat(vals[..k], [vals[k]]);
      assert vals[..k + 1] == vals[..k] + [vals[k]];
      result := result + vals[k];
    }
    assert vals[..|vals|] == vals;
  }

  /** `greaterThan3`: whether some argument exceeds 3. */
  function GreaterThan3(vals: seq<int>): (r: bool)
    ensures r <==> exists k | 0 <= k < |vals| :: vals[k] > 3
  {
    if |vals| == 0 then false
    else
      assert forall k | 1 <= k < |vals| :: vals[1..][k - 1] == vals[k];
      vals[0] > 3 || GreaterThan3(vals[1..])
  }

  /** The loop of `greaterThan3`: the flag is raised by any argument above 3
      and never lowered. */
  method GreaterThan3Loop(vals: seq<int>) returns (result: bool)
    ensures result <==> exists k | 0 <= k < |vals| :: vals[k] > 3
    ensures result == GreaterThan3(vals)
  {
    result := false;
    for k := 0 to |vals|
      invariant result <==> exists j | 0 <= j < k :: vals[j] > 3
    {
      if vals[k] > 3 {
        result := true;
      }
    }
  }

  /** The one-argument form used by the filters. */
  function Above3(x: int): bool
  {
    GreaterThan3([x])
  }

  /** A walk over a single sequence takes one step per element, and each
      column holds just that element. */
  lemma SingleColumns<T>(s: Seq<T>)
    ensures HighOrder.Shortest([s]) == |Elems(s)|
    ensures forall i | 0 <= i < |Elems(s)| :: HighOrder.Column([s], i) == [Elems(s)[i]]
  {
  }

  /** `Equal` holds for two lists, two vectors, and a vector and a list with
      the same elements. */
  method EqualityScenario() returns (lists: bool, vectors: bool, mixed: bool)
    ensures lists && vectors && mixed
  {
    var list1 := Builders.List([1, 2, 3, 4, 5]);
    var list2 := Builders.List([1, 2, 3, 4, 5]);
    var vec1 := Builders.Vector([1, 2, 3, 4, 5]);
    var vec2 := Builders.Vector([1, 2, 3, 4, 5]);
    lists := Equality.Equal([list1, list2]);
    vectors := Equality.Equal([vec1, vec2]);
    mixed := Equality.Equal([vec1, list1]);
  }

  /** Appending two three-element lists gives the six-element list. */
  method AppendScenario() returns (equal: bool)
    ensures equal
  {
    var list1 := Builders.List([1, 2, 3]);
    var list2 := Builders.List([1, 2, 3]);
    var listapp := Builders.List([1, 2, 3, 1, 2, 3]);
    var both := SeqFns.Append([list1, list2]);
    assert [list1, list2] == [list1] + [list2];
    SeqFns.ConcatCons(list1, [list2]);
    SeqFns.ConcatOne(list2);
    equal := Equality.Equal([both, listapp]);
  }

  /** `SubSeq(0, 3)` of the five-element list and vector gives the
      three-element ones. */
  method SubSeqScenario() returns (listSub: bool, vectorSub: bool)
    ensures listSub && vectorSub
  {
    var list1 := Builders.List([1, 2, 3, 4, 5]);
    var list2 := Builders.List([1, 2, 3]);
    var vec1 := Builders.Vector([1, 2, 3, 4, 5]);
    var vec2 := Builders.Vector([1, 2, 3]);
    listSub := Equality.Equal([SeqFns.SubSeq(list1, 0, 3), list2]);
    vectorSub := Equality.Equal([SeqFns.SubSeq(vec1, 0, 3), vec2]);
  }

  /** `Take(3)` agrees with `SubSeq(0, 3)`, and `Drop(3)` of the vector with
      `SubSeq(3, 5)` of the list. */
  method TakeDropScenario() returns (take: bool, drop: bool)
    ensures take && drop
  {
    var list1 := Builders.List([1, 2, 3, 4, 5]);
    var vec1 := Builders.Vector([1, 2, 3, 4, 5]);
    take := Equality.Equal([SeqFns.SubSeq(vec1, 0, 3), SeqFns.Take(vec1, 3)]);
    drop := Equality.Equal([SeqFns.SubSeq(list1, 3, 5), SeqFns.Drop(vec1, 3)]);
  }

  /** Summing (3, 4, 5) and (7, 5) with `Reduce` gives the same value. */
  method ReduceScenario() returns (result1: Option<int>, result2: Option<int>)
    ensures result1 == result2 == Some(12)
  {
    var list1 := Builders.List([3, 4, 5]);
    var list2 := Builders.List([7, 5]);
    FoldSum([3, 4, 5]);
    FoldSum([7, 5]);
    result1 := HighOrder.Reduce(IntAdd, list1);
    result2 := HighOrder.Reduce(IntAdd, list2);
    assert [3, 4, 5][1..] == [4, 5] && [4, 5][1..] == [5] && [7, 5][1..] == [5];
  }

  /** Reducing with `intAdd` sums the elements of any non-empty sequence. */
  lemma {:induction false} FoldSum(xs: seq<int>)
    requires |xs| > 0
    ensures HighOrder.FoldRight(IntAdd, xs) == Some(IntAdd(xs))
  {
    if |xs| > 1 {
      FoldSum(xs[1..]);
      assert [xs[0], IntAdd(xs[1..])][1..] == [IntAdd(xs[1..])];
    }
  }

  /** Mapping `intAdd` over two sequences of equal length adds them pointwise. */
  lemma PairwiseSums(a: Seq<int>, b: Seq<int>, mapped: Seq<int>)
    requires |Elems(a)| == |Elems(b)|
    requires |Elems(mapped)| == HighOrder.Shortest([a, b])
    requires forall i | 0 <= i < HighOrder.Shortest([a, b]) ::
               Elems(mapped)[i] == IntAdd(HighOrder.Column([a, b], i))
    ensures |Elems(mapped)| == |Elems(a)|
    ensures forall i | 0 <= i < |Elems(a)| :: Elems(mapped)[i] == Elems(a)[i] + Elems(b)[i]
  {
    forall i | 0 <= i < |Elems(a)|
      ensures Elems(mapped)[i] == Elems(a)[i] + Elems(b)[i]
    {
      var column := HighOrder.Column([a, b], i);
      assert column == [Elems(a)[i], Elems(b)[i]];
      assert column[1..] == [Elems(b)[i]];
    }
  }

  /** The sum of pointwise sums is the sum of both sums. */
  lemma {:induction false} SumPointwise(xs: seq<int>, ys: seq<int>, zs: seq<int>)
    requires |xs| == |ys| == |zs|
    requires forall i | 0 <= i < |zs| :: zs[i] == xs[i] + ys[i]
    ensures IntAdd(zs) == IntAdd(xs) + IntAdd(ys)
  {
    if |zs| > 0 {
      SumPointwise(xs[1..], ys[1..], zs[1..]);
    }
  }

  /** `Reduce(intAdd, MapCar(intAdd, a, b))`: the total of both sequences. */
  method SumOfPairwiseSums(a: Seq<int>, b: Seq<int>) returns (total: Option<int>)
    requires Valid(a) && Valid(b) && |Elems(a)| == |Elems(b)| > 0
    ensures total.Some? && total.value == IntAdd(Elems(a)) + IntAdd(Elems(b))
  {
    var mapped := HighOrder.MapCar(IntAdd, [a, b]);
    PairwiseSums(a, b, mapped);
    SumPointwise(Elems(a), Elems(b), Elems(mapped));
    FoldSum(Elems(mapped));
    total := HighOrder.Reduce(IntAdd, mapped);
  }

  /** Pointwise sums of two lists and of two vectors reduce to the same total. */
  method MapCarScenario() returns (sum1: Option<int>, sum2: Option<int>)
    ensures sum1 == sum2 == Some(24)
  {
    var list1 := Builders.List([3, 4, 5]);
    var list2 := Builders.List([3, 4, 5]);
    var vec1 := Builders.Vector([5, 4, 3]);
    var vec2 := Builders.Vector([3, 5, 4]);
    sum1 := SumOfPairwiseSums(list1, list2);
    sum2 := SumOfPairwiseSums(vec1, vec2);
    assert [3, 4, 5][1..] == [4, 5] && [4, 5][1..] == [5];
    assert [5, 4, 3][1..] == [4, 3] && [4, 3][1..] == [3];
    assert [3, 5, 4][1..] == [5, 4] && [5, 4][1..] == [4];
  }

  /** The elements of (1..5) above 3 are (4, 5); the others are (1, 2, 3). */
  lemma Above3Selections()
    ensures HighOrder.Select(Above3, [1, 2, 3, 4, 5], false) == [1, 2, 3]
    ensures HighOrder.Select(Above3, [1, 2, 3, 4, 5], true) == [4, 5]
  {
    assert [1, 2, 3, 4, 5][1..] == [2, 3, 4, 5];
    assert [2, 3, 4, 5][1..] == [3, 4, 5];
    assert [3, 4, 5][1..] == [4, 5];
    assert [4, 5][1..] == [5];
    assert [5][1..] == [];
  }

  /** Rejecting the elements of (1..5) above 3 leaves (1, 2, 3). */
  lemma Above3Rejected(whole: Seq<int>, picked: Seq<int>, expected: Seq<int>)
    requires Elems(whole) == [1, 2, 3, 4, 5]
    requires Elems(picked) == HighOrder.Select(Above3, Elems(whole), false)
    requires Elems(expected) == [1, 2, 3]
    ensures Equality.SameElems([expected, picked])
  {
    assert Elems(picked) == Elems(expected) by {
      Above3Selections();
    }
  }

  /** Keeping the elements of (1..5) above 3 leaves (4, 5). */
  lemma Above3Kept(whole: Seq<int>, picked: Seq<int>, expected: Seq<int>)
    requires Elems(whole) == [1, 2, 3, 4, 5]
    requires Elems(picked) == HighOrder.Select(Above3, Elems(whole), true)
    requires Elems(expected) == [4, 5]
    ensures Equality.SameElems([expected, picked])
  {
    assert Elems(picked) == Elems(expected) by {
      Above3Selections();
    }
  }

  /** Removing the elements above 3 from (1..5) leaves (1, 2, 3). */
  method RemoveIfScenario() returns (equal: bool)
    ensures equal
  {
    var list1 := Builders.List([1, 2, 3, 4, 5]);
    var small := Builders.List([1, 2, 3]);
    var kept := HighOrder.RemoveIf(Above3, list1);
    Above3Rejected(list1, kept, small);
    equal := Equality.Equal([small, kept]);
  }

  /** Keeping the elements above 3 of (1..5) leaves (4, 5). */
  method RemoveIfNotScenario() returns (equal: bool)
    ensures equal
  {
    var list1 := Builders.List([1, 2, 3, 4, 5]);
    var large := Builders.List([4, 5]);
    var kept := HighOrder.RemoveIfNot(Above3, list1);
    Above3Kept(list1, kept, large);
    equal := Equality.Equal([large, kept]);
  }

  /** Filtering (1..5) on "above 3" leaves (4, 5). */
  method FilterScenario() returns (equal: bool)
    ensures equal
  {
    var list1 := Builders.List([1, 2, 3, 4, 5]);
    var large := Builders.List([4, 5]);
    var kept := HighOrder.Filter(Above3, list1);
    Above3Kept(list1, kept, large);
    equal := Equality.Equal([large, kept]);
  }

  /** Reversing (3, 4, 5) gives (5, 4, 3). */
  method ReverseScenario() returns (equal: bool)
    ensures equal
  {
    var list1 := Builders.List([3, 4, 5]);
    var list2 := Builders.List([5, 4, 3]);
    assert [3, 4, 5][1..] == [4, 5] && [4, 5][1..] == [5];
    equal := Equality.Equal([SeqFns.Reverse(list1), list2]);
  }

  /** `Every` with the test "above 3": true on (4, 5, 9, 10) and (4, 5, 8),
      false on (1, 2, 3, 4, 5, 8). */
  method EveryScenario() returns (every1: bool, every2: bool, every3: bool)
    ensures every1 && every2 && !every3
  {
    var list1 := Builders.List([4, 5, 9, 10]);
    var list2 := Builders.List([4, 5, 8]);
    var vec1 := Builders.Vector([1, 2, 3, 4, 5, 8]);
    SingleColumns(list1);
    SingleColumns(list2);
    SingleColumns(vec1);
    every1 := HighOrder.Every(GreaterThan3, [list1]);
    every2 := HighOrder.Every(GreaterThan3, [list2]);
    every3 := HighOrder.Every(GreaterThan3, [vec1]);
    assert !GreaterThan3(HighOrder.Column([vec1], 0));
  }

  /** `Some` with the test "above 3": true on (1, 2, 3, 4, 5, 8), false on
      (1, 2, 3). */
  method SomeScenario() returns (some1: bool, some2: bool)
    ensures some1 && !some2
  {
    var vec1 := Builders.Vector([1, 2, 3, 4, 5, 8]);
    var vec2 := Builders.Vector([1, 2, 3]);
    SingleColumns(vec1);
    SingleColumns(vec2);
    some1 := HighOrder.Some(GreaterThan3, [vec1]);
    assert GreaterThan3(HighOrder.Column([vec1], 3));
    some2 := HighOrder.Some(GreaterThan3, [vec2]);
  }
}
