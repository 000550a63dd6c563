/** high-order-fns.go: folds, lockstep walks and filters over sequences.

    A Go `MultiArgFn` receives the values of one step as variadic
    arguments. A mapping function is modelled as `seq<T> -> T` and a test
    as `seq<T> -> bool` (or `T -> bool` for the one-argument filters);
    results that are not booleans, which the Go code tells apart with
    `!= false` and `== true`, are not modelled. */
module HighOrder {
  import opened SeqCore
  import opened Protocol
  import VectorDefault
  import Builders

  /** Right fold over plain values: the reference definition of `Reduce`. */
  function FoldRight<T>(fn: seq<T> -> T, xs: seq<T>): (r: Option<T>)
    ensures r.None? <==> |xs| == 0
  {
    if |xs| == 0 then None
    else if |xs| == 1 then Option.Some(fn([xs[0]]))
    else Option.Some(fn([xs[0], FoldRight(fn, xs[1..]).value]))
  }

  /** `Reduce`: no value for an empty sequence, `fn(e)` for a single
      element, otherwise `fn(first, Reduce(rest))`. It depends only on the
      elements, never on whether they sit in pairs or in a vector. */
  function Reduce<T>(fn: seq<T> -> T, s: Seq<T>): (r: Option<T>)
    requires Valid(s)
    ensures r == FoldRight(fn, Elems(s))
    ensures r.None? <==> s == Empty
    decreases |Elems(s)|
  {
    if s == Empty then None
    else if Rest(s) != Empty then Option.Some(fn([First(s).value, Reduce(fn, Rest(s)).value]))
    else Option.Some(fn([First(s).value]))
  }

  /** The number of steps a lockstep walk over `seqs` takes: the length of
      the shortest sequence (0 when there are none). */
  function Shortest<T>(seqs: seq<Seq<T>>): (n: nat)
    ensures forall j | 0 <= j < |seqs| :: n <= |Elems(seqs[j])|
    ensures |seqs| > 0 ==> exists j | 0 <= j < |seqs| :: n == |Elems(seqs[j])|
    ensures |seqs| == 0 ==> n == 0
  {
    if |seqs| == 0 then 0
    else if |seqs| == 1 then |Elems(seqs[0])|
    else
      var m := Shortest(seqs[1..]);
      assert forall j | 1 <= j < |seqs| :: seqs[1..][j - 1] == seqs[j];
      Min(|Elems(seqs[0])|, m)
  }

  /** The values that step `i` of a lockstep walk hands to the function:
      element `i` of every sequence, in argument order. */
  ghost function Column<T>(seqs: seq<Seq<T>>, i: nat): seq<T>
    requires i < Shortest(seqs)
  {
    seq(|seqs|, j requires 0 <= j < |seqs| => Elems(seqs[j])[i])
  }

  /** All sequences have the same number of elements. */
  ghost predicate SameLengths<T>(seqs: seq<Seq<T>>)
  {
    forall j, k | 0 <= j < |seqs| && 0 <= k < |seqs| :: |Elems(seqs[j])| == |Elems(seqs[k])|
  }

  /** The sequences of `seqs` that are not empty, in argument order. */
  ghost function Live<T>(seqs: seq<Seq<T>>): seq<Seq<T>>
  {
    if |seqs| == 0 then []
    else Live(seqs[..|seqs| - 1]) + (if seqs[|seqs| - 1] != Empty then [seqs[|seqs| - 1]] else [])
  }

  lemma {:induction false} LiveCount<T>(seqs: seq<Seq<T>>)
    ensures |Live(seqs)| <= |seqs|
    ensures |Live(seqs)| == 0 <==> forall j | 0 <= j < |seqs| :: seqs[j] == Empty
    ensures |Live(seqs)| == |seqs| <==> forall j | 0 <= j < |seqs| :: seqs[j] != Empty
    ensures (forall j | 0 <= j < |seqs| :: seqs[j] != Empty) ==> Live(seqs) == seqs
  {
    LiveNone(seqs);
    LiveAll(seqs);
  }

  /** No sequence is live exactly when all of them are empty. */
  lemma {:induction false} LiveNone<T>(seqs: seq<Seq<T>>)
    ensures |Live(seqs)| == 0 <==> forall j | 0 <= j < |seqs| :: seqs[j] == Empty
  {
    if |seqs| > 0 {
      var init, last := seqs[..|seqs| - 1], seqs[|seqs| - 1];
      LiveNone(init);
      assert forall j | 0 <= j < |init| :: init[j] == seqs[j];
      if |Live(seqs)| == 0 {
        assert |Live(init)| == 0 && last == Empty;
      }
    }
  }

  /** At most every sequence is live, and all are exactly when none is empty. */
  lemma {:induction false} LiveAll<T>(seqs: seq<Seq<T>>)
    ensures |Live(seqs)| <= |seqs|
    ensures |Live(seqs)| == |seqs| <==> forall j | 0 <= j < |seqs| :: seqs[j] != Empty
    ensures (forall j | 0 <= j < |seqs| :: seqs[j] != Empty) ==> Live(seqs) == seqs
  {
    if |seqs| > 0 {
      var init, last := seqs[..|seqs| - 1], seqs[|seqs| - 1];
      LiveAll(init);
      assert forall j | 0 <= j < |init| :: init[j] == seqs[j];
      assert seqs == init + [last];
      if |Live(seqs)| == |seqs| {
        assert |Live(init)| == |init| && last != Empty;
      }
    }
  }

  /** The loop that opens `Every`, `Some` and `EqualTest`: the first value
      and the rest of every sequence that is not empty, in argument order. */
  method Heads<T>(seqs: seq<Seq<T>>) returns (vals: seq<T>, nexts: seq<Seq<T>>)
    requires AllValid(seqs)
    ensures |vals| == |nexts| == |Live(seqs)|
    ensures forall j | 0 <= j < |vals| ::
              Valid(Live(seqs)[j]) && Live(seqs)[j] != Empty &&
              vals[j] == First(Live(seqs)[j]).value && nexts[j] == Rest(Live(seqs)[j])
  {
    vals, nexts := [], [];
    for k := 0 to |seqs|
      invariant |vals| == |nexts| == |Live(seqs[..k])|
      invariant forall j | 0 <= j < |vals| ::
                  Valid(Live(seqs[..k])[j]) && Live(seqs[..k])[j] != Empty &&
                  vals[j] == First(Live(seqs[..k])[j]).value && nexts[j] == Rest(Live(seqs[..k])[j])
    {
      assert seqs[..k + 1][..k] == seqs[..k];
      if seqs[k] != Empty {
        vals := vals + [First(seqs[k]).value];
        nexts := nexts + [Rest(seqs[k])];
      }
    }
    assert seqs[..|seqs|] == seqs;
  }

  /** When every sequence loses exactly its first element, the shortest
      walk is one step shorter. */
  lemma ShortestShift<T>(seqs: seq<Seq<T>>, nexts: seq<Seq<T>>)
    requires |nexts| == |seqs| > 0
    requires forall j | 0 <= j < |seqs| :: |Elems(seqs[j])| == |Elems(nexts[j])| + 1
    ensures Shortest(nexts) + 1 == Shortest(seqs)
  {
    var j0 :| 0 <= j0 < |seqs| && Shortest(seqs) == |Elems(seqs[j0])|;
    var j1 :| 0 <= j1 < |nexts| && Shortest(nexts) == |Elems(nexts[j1])|;
    assert Shortest(nexts) <= |Elems(nexts[j0])|;
    assert Shortest(seqs) <= |Elems(seqs[j1])|;
  }

  /** `nexts` holds the rests of `seqs`, as far as their elements go. */
  ghost predicate Stepped<T>(seqs: seq<Seq<T>>, nexts: seq<Seq<T>>)
  {
    |nexts| == |seqs| &&
    forall j | 0 <= j < |seqs| :: |Elems(seqs[j])| >= 1 && Elems(nexts[j]) == Elems(seqs[j])[1..]
  }

  /** Column `i` of the rests is column `i + 1` of the sequences. */
  lemma ColumnShift<T>(seqs: seq<Seq<T>>, nexts: seq<Seq<T>>, i: nat)
    requires Stepped(seqs, nexts)
    requires i < Shortest(nexts) && i + 1 < Shortest(seqs)
    ensures Column(nexts, i) == Column(seqs, i + 1)
  {
  }

  /** One step of a lockstep walk over sequences that are all non-empty:
      the gathered heads are column 0, and the rests have one step fewer,
      the later columns and the same length agreement. */
  lemma Advance<T>(seqs: seq<Seq<T>>, vals: seq<T>, nexts: seq<Seq<T>>)
    requires AllValid(seqs) && |seqs| > 0
    requires |vals| == |nexts| == |seqs|
    requires forall j | 0 <= j < |seqs| ::
               seqs[j] != Empty && vals[j] == First(seqs[j]).value && nexts[j] == Rest(seqs[j])
    ensures AllValid(nexts)
    ensures Shortest(seqs) > 0 && vals == Column(seqs, 0)
    ensures Shortest(nexts) == Shortest(seqs) - 1
    ensures forall i | 0 <= i < Shortest(nexts) :: Column(nexts, i) == Column(seqs, i + 1)
    ensures SameLengths(nexts) <==> SameLengths(seqs)
  {
    forall j | 0 <= j < |seqs|
      ensures Valid(nexts[j]) && Elems(nexts[j]) == Elems(seqs[j])[1..]
      ensures |Elems(seqs[j])| == |Elems(nexts[j])| + 1
      ensures vals[j] == Elems(seqs[j])[0]
    {
    }
    ShortestShift(seqs, nexts);
    ColumnsShift(seqs, nexts);
  }

  /** A walk in which some sequence is empty, or over no sequences, takes no step. */
  lemma NoSteps<T>(seqs: seq<Seq<T>>)
    requires |seqs| == 0 || exists j | 0 <= j < |seqs| :: seqs[j] == Empty
    ensures Shortest(seqs) == 0
  {
    if |seqs| > 0 {
      var j :| 0 <= j < |seqs| && seqs[j] == Empty;
      assert |Elems(seqs[j])| == 0;
    }
  }

  /** Column `i` of the rests is column `i + 1` of the sequences, for
      every step of the rests. */
  lemma ColumnsShift<T>(seqs: seq<Seq<T>>, nexts: seq<Seq<T>>)
    requires Stepped(seqs, nexts)
    requires Shortest(seqs) > 0 && Shortest(nexts) == Shortest(seqs) - 1
    ensures forall i | 0 <= i < Shortest(nexts) :: Column(nexts, i) == Column(seqs, i + 1)
  {
    forall i | 0 <= i < Shortest(nexts)
      ensures Column(nexts, i) == Column(seqs, i + 1)
    {
      ColumnShift(seqs, nexts, i);
    }
  }

  /** A test holds on every column iff it holds on the first one and on
      every column of the rests. */
  lemma ForallStep<T>(fn: seq<T> -> bool, seqs: seq<Seq<T>>, nexts: seq<Seq<T>>)
    requires Shortest(seqs) > 0 && Shortest(nexts) == Shortest(seqs) - 1
    requires forall i | 0 <= i < Shortest(nexts) :: Column(nexts, i) == Column(seqs, i + 1)
    ensures (forall i | 0 <= i < Shortest(seqs) :: fn(Column(seqs, i))) <==>
            fn(Column(seqs, 0)) && forall i | 0 <= i < Shortest(nexts) :: fn(Column(nexts, i))
  {
    if fn(Column(seqs, 0)) && forall i | 0 <= i < Shortest(nexts) :: fn(Column(nexts, i)) {
      forall i | 0 < i < Shortest(seqs)
        ensures fn(Column(seqs, i))
      {
        assert fn(Column(nexts, i - 1));
      }
    }
  }

  /** A test holds on some column iff it holds on the first one or on some
      column of the rests. */
  lemma ExistsStep<T>(fn: seq<T> -> bool, seqs: seq<Seq<T>>, nexts: seq<Seq<T>>)
    requires Shortest(seqs) > 0 && Shortest(nexts) == Shortest(seqs) - 1
    requires forall i | 0 <= i < Shortest(nexts) :: Column(nexts, i) == Column(seqs, i + 1)
    ensures (exists i | 0 <= i < Shortest(seqs) :: fn(Column(seqs, i))) <==>
            fn(Column(seqs, 0)) || exists i | 0 <= i < Shortest(nexts) :: fn(Column(nexts, i))
  {
    if i :| 0 < i < Shortest(seqs) && fn(Column(seqs, i)) {
      assert fn(Column(nexts, i - 1));
    }
  }

  /** A sequence whose first value maps column 0 and whose later values map
      the columns of the rests maps every column. */
  lemma MapStep<T>(fn: seq<T> -> T, seqs: seq<Seq<T>>, nexts: seq<Seq<T>>, mapped: seq<T>)
    requires Shortest(seqs) > 0 && Shortest(nexts) == Shortest(seqs) - 1
    requires forall i | 0 <= i < Shortest(nexts) :: Column(nexts, i) == Column(seqs, i + 1)
    requires |mapped| == Shortest(seqs) && mapped[0] == fn(Column(seqs, 0))
    requires forall i | 0 <= i < Shortest(nexts) :: mapped[i + 1] == fn(Column(nexts, i))
    ensures forall i | 0 <= i < Shortest(seqs) :: mapped[i] == fn(Column(seqs, i))
  {
    forall i | 0 < i < Shortest(seqs)
      ensures mapped[i] == fn(Column(seqs, i))
    {
      assert mapped[i] == fn(Column(nexts, i - 1));
    }
  }

  /** The rests of sequences that are all non-empty are valid and have a
      shortest walk one step shorter. */
  lemma Shortens<T>(seqs: seq<Seq<T>>, vals: seq<T>, nexts: seq<Seq<T>>)
    requires AllValid(seqs) && |seqs| > 0
    requires |vals| == |nexts| == |seqs|
    requires forall j | 0 <= j < |seqs| ::
               seqs[j] != Empty && vals[j] == First(seqs[j]).value && nexts[j] == Rest(seqs[j])
    ensures AllValid(nexts) && Shortest(nexts) < Shortest(seqs)
  {
    Advance(seqs, vals, nexts);
  }

  /** `fn` of the heads in front of the mapping of the rests maps every
      column of the sequences. */
  lemma MapCons<T>(fn: seq<T> -> T, seqs: seq<Seq<T>>, vals: seq<T>, nexts: seq<Seq<T>>,
                   tail: seq<T>, mapped: seq<T>)
    requires AllValid(seqs) && |seqs| > 0
    requires |vals| == |nexts| == |seqs|
    requires forall j | 0 <= j < |seqs| ::
               seqs[j] != Empty && vals[j] == First(seqs[j]).value && nexts[j] == Rest(seqs[j])
    requires |tail| == Shortest(nexts)
    requires forall i | 0 <= i < Shortest(nexts) :: tail[i] == fn(Column(nexts, i))
    requires mapped == [fn(vals)] + tail
    ensures |mapped| == Shortest(seqs)
    ensures forall i | 0 <= i < Shortest(seqs) :: mapped[i] == fn(Column(seqs, i))
  {
    assert Shortest(seqs) > 0 && Shortest(nexts) == Shortest(seqs) - 1 && vals == Column(seqs, 0) &&
           forall i | 0 <= i < Shortest(nexts) :: Column(nexts, i) == Column(seqs, i + 1)
    by {
      Advance(seqs, vals, nexts);
    }
    assert mapped[0] == fn(vals);
    assert forall i | 0 <= i < |tail| :: mapped[i + 1] == tail[i];
    MapStep(fn, seqs, nexts, mapped);
  }

  /** The loop that opens `MapCar`: the first value and the rest of each
      sequence in turn, stopping at the first empty one. `complete` says
      whether no sequence was empty. */
  method StepAll<T>(seqs: seq<Seq<T>>) returns (complete: bool, vals: seq<T>, nexts: seq<Seq<T>>)
    requires AllValid(seqs)
    ensures complete <==> forall j | 0 <= j < |seqs| :: seqs[j] != Empty
    ensures complete ==> |vals| == |nexts| == |seqs|
    ensures complete ==> forall j | 0 <= j < |seqs| ::
              seqs[j] != Empty && vals[j] == First(seqs[j]).value && nexts[j] == Rest(seqs[j])
  {
    vals, nexts := [], [];
    for k := 0 to |seqs|
      invariant |nexts| == |vals| == k
      invariant forall j | 0 <= j < k ::
                  seqs[j] != Empty && vals[j] == First(seqs[j]).value && nexts[j] == Rest(seqs[j])
    {
      if seqs[k] == Empty {
        return false, vals, nexts;
      }
      vals := vals + [First(seqs[k]).value];
      nexts := nexts + [Rest(seqs[k])];
    }
    complete := true;
  }

  /** `MapCar`: with no sequences, the one value `fn([])`; otherwise, as
      soon as some sequence is empty, Empty, and else `fn` of the heads
      consed onto the mapping of the rests. The result has one value per
      step of the shortest sequence: value `i` is `fn` of column `i`. */
  method MapCar<T>(fn: seq<T> -> T, seqs: seq<Seq<T>>) returns (r: Seq<T>)
    requires AllValid(seqs)
    ensures Valid(r) && (r.Empty? || r.Vec?)
    ensures |seqs| == 0 ==> Elems(r) == [fn([])]
    ensures |seqs| > 0 ==> |Elems(r)| == Shortest(seqs)
    ensures |seqs| > 0 ==> forall i | 0 <= i < Shortest(seqs) :: Elems(r)[i] == fn(Column(seqs, i))
    decreases Shortest(seqs)
  {
    var complete, seqvals, newseqs := StepAll(seqs);
    if !complete {
      NoSteps(seqs);
      return Empty;
    }
    if |newseqs| > 0 {
      Shortens(seqs, seqvals, newseqs);
      var tail := MapCar(fn, newseqs);
      r := VectorDefault.Cons(fn(seqvals), tail);
      MapCons(fn, seqs, seqvals, newseqs, Elems(tail), Elems(r));
    } else {
      r := VectorDefault.Cons(fn(seqvals), Empty);
    }
  }

  /** `Every`: true as soon as some sequence runs out (at once when there
      are no sequences); false as soon as `fn` fails on a step. So it is
      true exactly when `fn` holds on every column of the shortest walk. */
  method Every<T>(fn: seq<T> -> bool, seqs: seq<Seq<T>>) returns (b: bool)
    requires AllValid(seqs)
    ensures b <==> forall i | 0 <= i < Shortest(seqs) :: fn(Column(seqs, i))
    decreases Shortest(seqs)
  {
    var vals, nexts := Heads(seqs);
    LiveCount(seqs);
    if |vals| == 0 || |vals| < |seqs| {
      NoSteps(seqs);
      return true;
    }
    Advance(seqs, vals, nexts);
    ForallStep(fn, seqs, nexts);
    if !fn(vals) {
      return false;
    }
    b := Every(fn, nexts);
  }

  /** `Some`: false as soon as some sequence runs out (at once when there
      are no sequences); true as soon as `fn` holds on a step. So it is true
      exactly when `fn` holds on some column of the shortest walk. */
  method Some<T>(fn: seq<T> -> bool, seqs: seq<Seq<T>>) returns (b: bool)
    requires AllValid(seqs)
    ensures b <==> exists i | 0 <= i < Shortest(seqs) :: fn(Column(seqs, i))
    decreases Shortest(seqs)
  {
    var vals, nexts := Heads(seqs);
    LiveCount(seqs);
    if |vals| == 0 || |vals| < |seqs| {
      NoSteps(seqs);
      return false;
    }
    Advance(seqs, vals, nexts);
    ExistsStep(fn, seqs, nexts);
    if fn(vals) {
      return true;
    }
    b := Some(fn, nexts);
  }

  /** `EqualTest`: true when every sequence runs out at the same step,
      false when only some of them do, and otherwise the test on the heads
      and on the rests. So it is true exactly when all lengths agree and
      the test holds on every column. */
  method EqualTest<T>(equalityFn: seq<T> -> bool, seqs: seq<Seq<T>>) returns (b: bool)
    requires AllValid(seqs)
    ensures b <==> SameLengths(seqs) &&
                   forall i | 0 <= i < Shortest(seqs) :: equalityFn(Column(seqs, i))
    decreases Shortest(seqs)
  {
    var vals, nexts := Heads(seqs);
    LiveCount(seqs);
    if |vals| == 0 {
      NoSteps(seqs);
      return true;
    } else if |vals| < |seqs| {
      NoSteps(seqs);
      var e :| 0 <= e < |seqs| && seqs[e] == Empty;
      var f :| 0 <= f < |seqs| && seqs[f] != Empty;
      assert |Elems(seqs[e])| != |Elems(seqs[f])|;
      return false;
    }
    Advance(seqs, vals, nexts);
    ForallStep(equalityFn, seqs, nexts);
    if !equalityFn(vals) {
      return false;
    }
    b := EqualTest(equalityFn, nexts);
  }

  /** The elements `x` of `xs` with `keep(x) == want`, in their original
      order: the reference definition of the filters. */
  ghost function Select<T>(keep: T -> bool, xs: seq<T>, want: bool): seq<T>
  {
    if |xs| == 0 then []
    else (if keep(xs[0]) == want then [xs[0]] else []) + Select(keep, xs[1..], want)
  }

  /** Selecting from a sequence extended by one value extends the selection
      by that value exactly when it passes. */
  lemma {:induction false} SelectSnoc<T>(keep: T -> bool, init: seq<T>, last: T, want: bool)
    ensures Select(keep, init + [last], want) ==
            Select(keep, init, want) + (if keep(last) == want then [last] else [])
    decreases |init|
  {
    if |init| == 0 {
      assert [last][1..] == [];
    } else {
      var head := if keep(init[0]) == want then [init[0]] else [];
      var tail := if keep(last) == want then [last] else [];
      SelectSnoc(keep, init[1..], last, want);
      assert (init + [last])[1..] == init[1..] + [last];
      calc {
        Select(keep, init + [last], want);
        head + Select(keep, init[1..] + [last], want);
        head + (Select(keep, init[1..], want) + tail);
        (head + Select(keep, init[1..], want)) + tail;
      }
    }
  }

  /** Every element lands in exactly one of the two selections. */
  lemma {:induction false} SelectPartition<T>(keep: T -> bool, xs: seq<T>)
    ensures multiset(Select(keep, xs, true)) + multiset(Select(keep, xs, false)) == multiset(xs)
    ensures |Select(keep, xs, true)| + |Select(keep, xs, false)| == |xs|
    decreases |xs|
  {
    if |xs| > 0 {
      SelectPartition(keep, xs[1..]);
      assert xs == [xs[0]] + xs[1..];
    }
  }

  /** A selection holds exactly the elements of `xs` that pass the test. */
  lemma {:induction false} SelectMembers<T>(keep: T -> bool, xs: seq<T>, want: bool)
    ensures forall x :: x in Select(keep, xs, want) <==> x in xs && keep(x) == want
  {
    if |xs| > 0 {
      SelectMembers(keep, xs[1..], want);
      assert xs == [xs[0]] + xs[1..];
    }
  }

  /** Selecting again keeps everything. */
  lemma {:induction false} SelectIdempotent<T>(keep: T -> bool, xs: seq<T>, want: bool)
    ensures Select(keep, Select(keep, xs, want), want) == Select(keep, xs, want)
  {
    if |xs| > 0 {
      SelectIdempotent(keep, xs[1..], want);
      var rest := Select(keep, xs[1..], want);
      if keep(xs[0]) == want {
        assert ([xs[0]] + rest)[1..] == rest;
      } else {
        assert Select(keep, xs, want) == rest;
      }
    }
  }

  /** `RemoveIf`: the elements on which `fn` is false, gathered by a walk
      over the cells and packed into a new vector (Empty when none is left). */
  method RemoveIf<T>(fn: T -> bool, s: Seq<T>) returns (r: Seq<T>)
    requires Valid(s)
    ensures Valid(r) && (r.Empty? || r.Vec?)
    ensures Elems(r) == Select(fn, Elems(s), false)
  {
    if s == Empty {
      return Empty;
    }
    var vals: seq<T> := [];
    var cell := s;
    ghost var walked: nat := 0;
    while cell != Empty
      invariant Valid(cell) && walked <= |Elems(s)|
      invariant Elems(cell) == Elems(s)[walked..]
      invariant vals == Select(fn, Elems(s)[..walked], false)
      decreases |Elems(cell)|
    {
      var val := First(cell).value;
      assert Elems(s)[..walked + 1] == Elems(s)[..walked] + [val];
      SelectSnoc(fn, Elems(s)[..walked], val, false);
      if fn(val) == false {
        vals := vals + [val];
      }
      cell := Rest(cell);
      walked := walked + 1;
    }
    assert Elems(s)[..walked] == Elems(s);
    r := Builders.Vector(vals);
  }

  /** `RemoveIfNot`: the elements on which `fn` holds, gathered by the same
      walk and packed into a new vector (Empty when none is left). */
  method RemoveIfNot<T>(fn: T -> bool, s: Seq<T>) returns (r: Seq<T>)
    requires Valid(s)
    ensures Valid(r) && (r.Empty? || r.Vec?)
    ensures Elems(r) == Select(fn, Elems(s), true)
  {
    if s == Empty {
      return Empty;
    }
    var vals: seq<T> := [];
    var cell := s;
    ghost var walked: nat := 0;
    while cell != Empty
      invariant Valid(cell) && walked <= |Elems(s)|
      invariant Elems(cell) == Elems(s)[walked..]
      invariant vals == Select(fn, Elems(s)[..walked], true)
      decreases |Elems(cell)|
    {
      var val := First(cell).value;
      assert Elems(s)[..walked + 1] == Elems(s)[..walked] + [val];
      SelectSnoc(fn, Elems(s)[..walked], val, true);
      if fn(val) != false {
        vals := vals + [val];
      }
      cell := Rest(cell);
      walked := walked + 1;
    }
    assert Elems(s)[..walked] == Elems(s);
    r := Builders.Vector(vals);
  }

  /** `Filter` is `RemoveIfNot`: the elements that satisfy `fn`. */
  method Filter<T>(fn: T -> bool, s: Seq<T>) returns (r: Seq<T>)
    requires Valid(s)
    ensures Valid(r) && (r.Empty? || r.Vec?)
    ensures Elems(r) == Select(fn, Elems(s), true)
  {
    r := RemoveIfNot(fn, s);
  }
}
