/** seqs-common.go: the alternative revision of `cons`, whose default on an
    empty tail is a pair cell. Pairs and vectors keep their representation. */
module PairDefault {
  import opened SeqCore
  import Vectors

  function Cons<T>(x: T, rest: Seq<T>): (r: Seq<T>)
    ensures Elems(r) == [x] + Elems(rest)
    ensures Valid(rest) ==> Valid(r)
    ensures rest.Empty? ==> r.Pair? && r.cdr == Empty
    ensures rest.Pair? ==> r.Pair? && r.cdr == rest
    ensures rest.Vec? ==> r.Vec? && r.items == [x] + rest.items
    ensures AllPairs(rest) ==> AllPairs(r)
  {
    match rest
    case Empty => Pair(x, rest)
    case Pair(_, _) => Pair(x, rest)
    case Vec(_) => Vectors.ConsVector(x, rest)
  }

  /** Consing the values of `xs` from right to left onto Empty builds an
      all-pair chain holding them in order. */
  function ConsAll<T>(xs: seq<T>): (r: Seq<T>)
  {
    if xs == [] then Empty else Cons(xs[0], ConsAll(xs[1..]))
  }

  lemma {:induction false} ConsAllIsPairChain<T>(xs: seq<T>)
    ensures AllPairs(ConsAll(xs)) && Valid(ConsAll(xs)) && Elems(ConsAll(xs)) == xs
  {
    if xs != [] {
      ConsAllIsPairChain(xs[1..]);
    }
  }
}
