/** seqs_types.go: the representation-dispatching `cons` whose default on
    an empty tail is a vector, `ToSlice`, and `valEquality`. The reflection
    on the tail's type name becomes a match over the closed datatype, so the
    source's final `return nil` for an unknown representation has no case. */
module VectorDefault {
  import opened SeqCore
  import opened Protocol
  import Pairs
  import Vectors

  /** `cons`: prepends `x` and keeps the tail's representation; a new
      sequence started from Empty is a one-item vector. */
  function Cons<T>(x: T, rest: Seq<T>): (r: Seq<T>)
    ensures Elems(r) == [x] + Elems(rest)
    ensures Valid(rest) ==> Valid(r)
    ensures rest.Pair? ==> r.Pair? && r.cdr == rest
    ensures !rest.Pair? ==> r.Vec?
    ensures rest.Vec? ==> r.items == [x] + rest.items
  {
    match rest
    case Empty => Vectors.ConsVector(x, Empty)
    case Pair(_, _) => Pairs.ConsPair(x, rest)
    case Vec(_) => Vectors.ConsVector(x, rest)
  }

  /** `ToSlice`: nothing for Empty, the vector's own items for a vector
      (the `slice` helper is taken to return them), otherwise the values met
      by walking the cells with First/Rest. */
  method ToSlice<T>(s: Seq<T>) returns (vector: seq<T>)
    requires Valid(s)
    ensures vector == Elems(s)
  {
    if s == Empty {
      return [];
    }
    if s.Vec? {
      return s.items;
    }
    vector := [];
    var cell := s;
    while cell != Empty
      invariant Valid(cell)
      invariant |vector| <= |Elems(s)|
      invariant vector == Elems(s)[..|vector|]
      invariant Elems(cell) == Elems(s)[|vector|..]
      decreases |Elems(cell)|
    {
      vector := vector + [First(cell).value];
      cell := Rest(cell);
    }
  }

  /** Every value equals every other one. */
  predicate AllSame<T(==)>(vals: seq<T>)
  {
    forall i, j | 0 <= i < |vals| && 0 <= j < |vals| :: vals[i] == vals[j]
  }

  /** `valEquality`: walks the values comparing each with its predecessor and
      stops at the first difference. It reads `vals[0]`, so it needs a value. */
  method ValEquality<T(==)>(vals: seq<T>) returns (result: bool)
    requires |vals| >= 1
    ensures result <==> AllSame(vals)
    ensures result <==> forall i | 0 < i < |vals| :: vals[i] == vals[i - 1]
  {
    result := true;
    var prevVal := vals[0];
    var k := 0;
    while k < |vals|
      invariant 0 <= k <= |vals|
      invariant prevVal == vals[if k == 0 then 0 else k - 1]
      invariant forall i | 0 <= i < k :: vals[i] == vals[0]
    {
      if prevVal != vals[k] {
        result := false;
        break;
      }
      prevVal := vals[k];
      k := k + 1;
    }
  }
}
