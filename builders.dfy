/** The convenience factories `List` (seqs-list.go) and `Vector`
    (seqs-vector.go). Both cons their arguments from right to left with the
    vector-default `cons`, so any list of two or more values is a vector. */
module Builders {
  import opened SeqCore
  import Pairs
  import Vectors
  import VectorDefault

  /** `List`: Empty for no values; a single pair cell for one value;
      otherwise the right-to-left loop over `cons`, which yields a vector.
      In Go the one-value cell's tail is a typed-nil `*pair`, which a walk
      sees as one more (nil) element; the model ends the cell in `Empty`. */
  method List<T>(a: seq<T>) returns (r: Seq<T>)
    ensures Valid(r) && Elems(r) == a
    ensures |a| == 1 ==> r.Pair? && r.cdr == Empty
    ensures |a| >= 2 ==> r.Vec? && r.items == a
  {
    if |a| == 0 {
      return Empty;
    } else if |a| == 1 {
      assert a == [a[0]];
      return Pairs.ConsPair(a[0], Empty);
    }
    var start := VectorDefault.Cons(a[|a| - 1], Empty);
    for i := |a| - 1 downto 0
      invariant start == Vec(a[i..])
    {
      start := VectorDefault.Cons(a[i], start);
      assert [a[i]] + a[i + 1..] == a[i..];
    }
    assert a[0..] == a;
    return start;
  }

  /** `Vector`: Empty for no values, otherwise a vector whose items are
      exactly the arguments in order. */
  method Vector<T>(a: seq<T>) returns (r: Seq<T>)
    ensures Valid(r) && Elems(r) == a
    ensures |a| >= 1 ==> r.Vec? && r.items == a
  {
    if |a| == 0 {
      return Empty;
    } else if |a| == 1 {
      return Vectors.ConsVector(a[0], Empty);
    }
    var start := VectorDefault.Cons(a[|a| - 1], Empty);
    for i := |a| - 1 downto 0
      invariant start == Vec(a[i..])
    {
      start := VectorDefault.Cons(a[i], start);
      assert [a[i]] + a[i + 1..] == a[i..];
    }
    assert a[0..] == a;
    return start;
  }
}
