/** The value model shared by every revision of the library.

    A Go `Seq` is either the nil interface (the canonical empty sequence),
    a `*pair` cons cell or a `*vec` node over a slice. Nodes are never
    mutated after construction, so each one is modelled as an immutable
    datatype value; sharing a tail is simply reusing the value. */
module SeqCore {

  /** Go's `interface{}` result that is `nil` when there is no element. */
  datatype Option<T> = None | Some(value: T)

  datatype Seq<T> = Empty | Pair(car: T, cdr: Seq<T>) | Vec(items: seq<T>)

  /** Representation invariant: no vector node ever holds zero items
      (an empty vector is always represented by the canonical Empty). */
  predicate Valid<T>(s: Seq<T>)
  {
    match s
    case Empty => true
    case Pair(_, rest) => Valid(rest)
    case Vec(items) => |items| >= 1
  }

  /** Abstraction function: the elements in First/Rest walk order. */
  function Elems<T>(s: Seq<T>): (xs: seq<T>)
    ensures Valid(s) ==> (xs == [] <==> s == Empty)
  {
    match s
    case Empty => []
    case Pair(x, rest) => [x] + Elems(rest)
    case Vec(items) => items
  }

  /** A chain built only of pair cells, as the older all-pair revision produces. */
  predicate AllPairs<T>(s: Seq<T>)
  {
    match s
    case Empty => true
    case Pair(_, rest) => AllPairs(rest)
    case Vec(_) => false
  }

  /** Every sequence of a variadic argument list satisfies the invariant. */
  predicate AllValid<T>(seqs: seq<Seq<T>>)
  {
    forall i | 0 <= i < |seqs| :: Valid(seqs[i])
  }

  /** The elements of several sequences, one after the other. */
  function Concat<T>(seqs: seq<Seq<T>>): seq<T>
  {
    if |seqs| == 0 then [] else Elems(seqs[0]) + Concat(seqs[1..])
  }

  function Min(a: nat, b: nat): nat
  {
    if a <= b then a else b
  }
}
