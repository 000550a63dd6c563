/** seqs_types.go `Equal`: the lockstep `EqualTest` with `valEquality` as
    the test, so two sequences are equal when they hold the same elements,
    whatever their representation. */
module Equality {
  import opened SeqCore
  import VectorDefault
  import HighOrder

  /** All sequences hold the same elements. */
  ghost predicate SameElems<T>(seqs: seq<Seq<T>>)
  {
    forall j, k | 0 <= j < |seqs| && 0 <= k < |seqs| :: Elems(seqs[j]) == Elems(seqs[k])
  }

  /** Equal lengths and all-equal columns say exactly that the elements agree. */
  lemma EqualColumns<T>(seqs: seq<Seq<T>>)
    ensures (HighOrder.SameLengths(seqs) &&
             forall i | 0 <= i < HighOrder.Shortest(seqs) ::
               VectorDefault.AllSame(HighOrder.Column(seqs, i)))
            <==> SameElems(seqs)
  {
    if HighOrder.SameLengths(seqs) &&
       forall i | 0 <= i < HighOrder.Shortest(seqs) :: VectorDefault.AllSame(HighOrder.Column(seqs, i))
    {
      forall j, k | 0 <= j < |seqs| && 0 <= k < |seqs|
        ensures Elems(seqs[j]) == Elems(seqs[k])
      {
        var j0 :| 0 <= j0 < |seqs| && HighOrder.Shortest(seqs) == |Elems(seqs[j0])|;
        assert |Elems(seqs[j])| == |Elems(seqs[j0])| == |Elems(seqs[k])|;
        forall i | 0 <= i < |Elems(seqs[j])|
          ensures Elems(seqs[j])[i] == Elems(seqs[k])[i]
        {
          var column := HighOrder.Column(seqs, i);
          assert VectorDefault.AllSame(column);
          assert column[j] == column[k];
        }
      }
    }
    if SameElems(seqs) {
      forall i | 0 <= i < HighOrder.Shortest(seqs)
        ensures VectorDefault.AllSame(HighOrder.Column(seqs, i))
      {
        var column := HighOrder.Column(seqs, i);
        forall a, b | 0 <= a < |column| && 0 <= b < |column|
          ensures column[a] == column[b]
        {
          assert Elems(seqs[a]) == Elems(seqs[b]);
        }
      }
    }
  }

  /** `Equal`: true exactly when all sequences hold the same elements; a
      pair chain and a vector with the same elements are equal. */
  method Equal<T(==)>(seqs: seq<Seq<T>>) returns (b: bool)
    requires AllValid(seqs)
    ensures b <==> SameElems(seqs)
  {
    b := HighOrder.EqualTest(vals => VectorDefault.AllSame(vals), seqs);
    EqualColumns(seqs);
  }
}
