/** The `Seq` interface: First and Rest dispatched on the node's variant.
    Calling a method on the nil interface panics in Go, so both require a node. */
module Protocol {
  import opened SeqCore
  import Pairs
  import Vectors

  function First<T>(s: Seq<T>): (r: Option<T>)
    requires s != Empty
    ensures Valid(s) ==> r == Some(Elems(s)[0])
  {
    match s
    case Pair(_, _) => Pairs.PairFirst(s)
    case Vec(_) => Vectors.VecFirst(s)
  }

  function Rest<T>(s: Seq<T>): (r: Seq<T>)
    requires s != Empty
    ensures Valid(s) ==> Valid(r) && Elems(r) == Elems(s)[1..]
    ensures Valid(s) ==> (r == Empty <==> |Elems(s)| == 1)
    ensures s.Pair? ==> r == s.cdr
  {
    match s
    case Pair(_, _) => Pairs.PairRest(s)
    case Vec(_) => Vectors.VecRest(s)
  }

  /** A non-empty sequence is its First followed by the elements of its Rest. */
  lemma Unfold<T>(s: Seq<T>)
    requires Valid(s) && s != Empty
    ensures Elems(s) == [First(s).value] + Elems(Rest(s))
  {
    assert Elems(s) == [Elems(s)[0]] + Elems(s)[1..];
  }
}
