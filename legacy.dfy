/** ligo.go: the older revision of the package, in which a pair cell is the
    only kind of node. Its public `Cons` always builds a pair, so `List`,
    `MapCar`, `CopySeq` and `Append` all return pair chains. The walks go
    through the same `First`/`Rest` of a pair cell as seqs-list.go. */
module Legacy {
  import opened SeqCore
  import opened Protocol
  import Pairs
  import HighOrder
  import SeqFns

  /** `Cons`: a fresh pair with `val` in front of `rest`, whatever `rest` is. */
  function Cons<T>(val: T, rest: Seq<T>): (r: Seq<T>)
    ensures r.Pair? && Pairs.PairFirst(r) == Some(val) && Pairs.PairRest(r) == rest
    ensures Elems(r) == [val] + Elems(rest)
    ensures Valid(rest) ==> Valid(r)
    ensures AllPairs(rest) ==> AllPairs(r)
  {
    Pair(val, rest)
  }

  /** `List`: Empty for no values, otherwise the right-to-left loop of
      `Cons`, which yields a pair chain holding the values in order. */
  method List<T>(a: seq<T>) returns (r: Seq<T>)
    ensures AllPairs(r) && Valid(r) && Elems(r) == a
  {
    if |a| == 0 {
      return Empty;
    } else if |a| == 1 {
      assert a == [a[0]];
      return Cons(a[0], Empty);
    }
    var start := Cons(a[|a| - 1], Empty);
    for i := |a| - 1 downto 0
      invariant AllPairs(start) && Valid(start) && Elems(start) == a[i..]
    {
      start := Cons(a[i], start);
      assert [a[i]] + a[i + 1..] == a[i..];
    }
    assert a[0..] == a;
    return start;
  }

  /** `Reduce`: the same right fold as the current revision. */
  function Reduce<T>(fn: seq<T> -> T, s: Seq<T>): (r: Option<T>)
    requires Valid(s)
    ensures r == HighOrder.FoldRight(fn, Elems(s))
    decreases |Elems(s)|
  {
    if s != Empty then
      if Rest(s) != Empty then Option.Some(fn([First(s).value, Reduce(fn, Rest(s)).value]))
      else Option.Some(fn([First(s).value]))
    else None
  }

  /** `MapCar`: as in the current revision, one value per step of the
      shortest sequence, but built with the pair `Cons`: with no sequences
      it is the single pair holding `fn([])`. */
  method MapCar<T>(fn: seq<T> -> T, seqs: seq<Seq<T>>) returns (r: Seq<T>)
    requires AllValid(seqs)
    ensures AllPairs(r) && Valid(r)
    ensures |seqs| == 0 ==> Elems(r) == [fn([])]
    ensures |seqs| > 0 ==> |Elems(r)| == HighOrder.Shortest(seqs)
    ensures |seqs| > 0 ==> forall i | 0 <= i < HighOrder.Shortest(seqs) ::
                             Elems(r)[i] == fn(HighOrder.Column(seqs, i))
    decreases HighOrder.Shortest(seqs)
  {
    var complete, seqvals, newseqs := HighOrder.StepAll(seqs);
    if !complete {
      HighOrder.NoSteps(seqs);
      return Empty;
    }
    if |newseqs| > 0 {
      HighOrder.Shortens(seqs, seqvals, newseqs);
      var tail := MapCar(fn, newseqs);
      r := Cons(fn(seqvals), tail);
      HighOrder.MapCons(fn, seqs, seqvals, newseqs, Elems(tail), Elems(r));
    } else {
      r := Cons(fn(seqvals), Empty);
    }
  }

  /** `CopySeq`: a fresh pair chain with the same elements. */
  function CopySeq<T>(s: Seq<T>): (r: Seq<T>)
    requires Valid(s)
    ensures AllPairs(r) && Valid(r) && Elems(r) == Elems(s)
    decreases |Elems(s)|
  {
    if s == Empty then Empty
    else if Rest(s) == Empty then Cons(First(s).value, Empty)
    else Cons(First(s).value, CopySeq(Rest(s)))
  }

  /** `Append` of this revision: the concatenation as a fresh pair chain.
      It calls `Rest` on every argument without a nil check, so every
      argument must be non-empty. */
  function Append<T>(seqs: seq<Seq<T>>): (r: Seq<T>)
    requires AllValid(seqs) && forall i | 0 <= i < |seqs| :: seqs[i] != Empty
    ensures AllPairs(r) && Valid(r) && Elems(r) == Concat(seqs)
    ensures |seqs| > 0 ==> r.Pair?
    decreases |Concat(seqs)|, |seqs|
  {
    if |seqs| == 0 then Empty
    else
      var s0 := seqs[0];
      var x, t := First(s0).value, Rest(s0);
      Unfold(s0);
      if |seqs| == 1 then
        if t != Empty then
          SeqFns.ConcatOne(t);
          var rest := Append([t]);
          SeqFns.ConsOntoConcat(x, Elems(t), rest, seqs);
          Cons(x, rest)
        else
          SeqFns.ConsOntoConcat(x, [], Empty, seqs);
          Cons(x, Empty)
      else if t != Empty then
        SeqFns.ConcatOne(t);
        var inner := Append([t]);
        SeqFns.ConcatCons(inner, seqs[1..]);
        var rest := Append([inner] + seqs[1..]);
        SeqFns.ConsOntoConcat(x, Elems(t), rest, seqs);
        Cons(x, rest)
      else
        var rest := Append(seqs[1..]);
        SeqFns.ConsOntoConcat(x, [], rest, seqs);
        Cons(x, rest)
  }
}
