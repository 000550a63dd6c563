/** The `vec` node of seqs-vector.go: a contiguous slice that shrinks by
    re-slicing and grows by copying into a fresh slice. */
module Vectors {
  import opened SeqCore

  /** `(*vec).First`: the first item, or None for a nil node or an empty slice. */
  function VecFirst<T>(v: Seq<T>): (r: Option<T>)
    requires !v.Pair?
    ensures r.Some? <==> v.Vec? && |v.items| > 0
    ensures r.Some? ==> r.value == Elems(v)[0]
  {
    if v.Vec? && |v.items| > 0 then Some(v.items[0]) else None
  }

  /** `(*vec).Rest`: a vector over `items[1..]` when at least two items remain,
      otherwise Empty; so it never produces a vector with zero items. */
  function VecRest<T>(v: Seq<T>): (r: Seq<T>)
    requires !v.Pair?
    ensures Valid(r) && !r.Pair?
    ensures v.Vec? && |v.items| >= 2 ==> r.Vec? && r.items == v.items[1..]
    ensures v.Vec? && |v.items| >= 1 ==> Elems(r) == Elems(v)[1..] && |Elems(r)| == |Elems(v)| - 1
    ensures v.Empty? ==> r == Empty
  {
    if v.Vec? && |v.items| > 1 then Vec(v.items[1..]) else Empty
  }

  /** `(*vec).pushNew`: a new vector holding `x` followed by the old items;
      `v` is a value and is left as it was. */
  function PushNew<T>(v: Seq<T>, x: T): (r: Seq<T>)
    requires v.Vec?
    ensures r.Vec? && r.items == [x] + v.items
    ensures Valid(r) && |r.items| == |v.items| + 1
  {
    Vec([x] + v.items)
  }

  /** `consVector`: a one-item vector on a nil tail, otherwise pushNew.
      The Go parameter is a `*vec`, so the tail is a vector or nil. */
  function ConsVector<T>(x: T, rest: Seq<T>): (r: Seq<T>)
    requires !rest.Pair?
    ensures r.Vec? && Valid(r)
    ensures Elems(r) == [x] + Elems(rest)
    ensures rest.Empty? ==> r.items == [x]
  {
    if rest.Empty? then Vec([x]) else PushNew(rest, x)
  }
}
