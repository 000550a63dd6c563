/** The `pair` cons cell of seqs-list.go: its First/Rest methods, which
    tolerate a nil receiver, and the raw constructor consPair. */
module Pairs {
  import opened SeqCore

  /** `(*pair).First`: the car of a cell; a nil cell yields None. */
  function PairFirst<T>(p: Seq<T>): (r: Option<T>)
    requires !p.Vec?
    ensures r.Some? <==> p.Pair?
    ensures r.Some? ==> r.value == Elems(p)[0]
  {
    if p.Pair? then Some(p.car) else None
  }

  /** `(*pair).Rest`: the cdr itself (shared, not copied); a nil cell yields Empty. */
  function PairRest<T>(p: Seq<T>): (r: Seq<T>)
    requires !p.Vec?
    ensures p.Pair? ==> r == p.cdr && Elems(p) == [p.car] + Elems(r)
    ensures p.Empty? ==> r == Empty
    ensures Valid(p) ==> Valid(r)
  {
    if p.Pair? then p.cdr else Empty
  }

  /** `consPair`: a fresh cell whose First is `x` and whose Rest is exactly `rest`.
      The Go parameter is a `*pair`, so the tail is a pair chain or nil. */
  function ConsPair<T>(x: T, rest: Seq<T>): (r: Seq<T>)
    requires !rest.Vec?
    ensures r.Pair? && PairFirst(r) == Some(x) && PairRest(r) == rest
    ensures Elems(r) == [x] + Elems(rest)
    ensures Valid(rest) ==> Valid(r)
  {
    Pair(x, rest)
  }
}
