/** ligo_accessor_fns.go: positional access built on `Drop` and `First`.
    Go's `uint` index is a `nat`. */
module Accessors {
  import opened SeqCore
  import Protocol
  import SeqFns

  /** `NthRest`: the suffix after `n` elements, shared with `s`. */
  function NthRest<T>(s: Seq<T>, n: nat): (r: Seq<T>)
    requires Valid(s)
    ensures Valid(r) && Elems(r) == Elems(s)[Min(n, |Elems(s)|)..]
    ensures n == 0 ==> r == s
  {
    SeqFns.Drop(s, n)
  }

  /** `First`: no value for the empty sequence, else the node's first value. */
  function First<T>(s: Seq<T>): (r: Option<T>)
    requires Valid(s)
    ensures r == if s == Empty then None else Some(Elems(s)[0])
  {
    if s == Empty then None else Protocol.First(s)
  }

  /** `Nth`: element `n` when there is one, no value otherwise. */
  function Nth<T>(s: Seq<T>, n: nat): (r: Option<T>)
    requires Valid(s)
    ensures r == if n < |Elems(s)| then Some(Elems(s)[n]) else None
    ensures n == 0 ==> r == First(s)
  {
    First(NthRest(s, n))
  }

  function Second<T>(s: Seq<T>): (r: Option<T>)
    requires Valid(s)
    ensures r == if 1 < |Elems(s)| then Some(Elems(s)[1]) else None
  {
    Nth(s, 1)
  }

  function Third<T>(s: Seq<T>): (r: Option<T>)
    requires Valid(s)
    ensures r == if 2 < |Elems(s)| then Some(Elems(s)[2]) else None
  {
    Nth(s, 2)
  }

  function Fourth<T>(s: Seq<T>): (r: Option<T>)
    requires Valid(s)
    ensures r == if 3 < |Elems(s)| then Some(Elems(s)[3]) else None
  {
    Nth(s, 3)
  }

  function Fifth<T>(s: Seq<T>): (r: Option<T>)
    requires Valid(s)
    ensures r == if 4 < |Elems(s)| then Some(Elems(s)[4]) else None
  {
    Nth(s, 4)
  }
}
