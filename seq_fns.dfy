/** seqs-fns.go: structural algorithms written only with First, Rest and the
    vector-default `cons`. */
module SeqFns {
  import opened SeqCore
  import opened Protocol
  import VectorDefault

  /** `r` is `s` itself or one of the cells reached from it by following cdrs. */
  ghost predicate IsCellOf<T>(r: Seq<T>, s: Seq<T>)
  {
    r == s || (s.Pair? && IsCellOf(r, s.cdr))
  }

  /** `CopySeq`: a fresh sequence with the same elements; every cell is
      rebuilt with `cons`, so a non-empty copy is a vector. */
  function CopySeq<T>(s: Seq<T>): (r: Seq<T>)
    requires Valid(s)
    ensures Valid(r) && Elems(r) == Elems(s)
    ensures s != Empty ==> r.Vec?
    decreases |Elems(s)|
  {
    if s == Empty then Empty
    else if Rest(s) == Empty then VectorDefault.Cons(First(s).value, Empty)
    else VectorDefault.Cons(First(s).value, CopySeq(Rest(s)))
  }

  lemma ConcatOne<T>(x: Seq<T>)
    ensures Concat([x]) == Elems(x)
  {
    assert [x][1..] == [];
  }

  lemma ConcatCons<T>(x: Seq<T>, more: seq<Seq<T>>)
    ensures Concat([x] + more) == Elems(x) + Concat(more)
  {
    assert ([x] + more)[1..] == more;
  }

  /** Putting the first element of `seqs[0]` in front of the concatenation
      of its remaining elements and the other arguments gives their
      concatenation. Both revisions' `Append` rely on it, whichever `cons`
      they use. */
  lemma ConsOntoConcat<T>(x: T, middle: seq<T>, rest: Seq<T>, seqs: seq<Seq<T>>)
    requires |seqs| >= 1 && Elems(seqs[0]) == [x] + middle
    requires Elems(rest) == middle + Concat(seqs[1..])
    ensures [x] + Elems(rest) == Concat(seqs)
  {
    assert [x] + (middle + Concat(seqs[1..])) == ([x] + middle) + Concat(seqs[1..]);
  }

  /** `Append`: the concatenation of all arguments, rebuilt cell by cell;
      empty arguments are skipped and no argument is shared with the result. */
  function Append<T>(seqs: seq<Seq<T>>): (r: Seq<T>)
    requires AllValid(seqs)
    ensures Valid(r) && Elems(r) == Concat(seqs)
    ensures r.Empty? || r.Vec?
    decreases |Concat(seqs)|, |seqs|
  {
    if |seqs| == 0 then Empty
    else if |seqs| == 1 then
      var s0 := seqs[0];
      if s0 != Empty then
        var x, t := First(s0).value, Rest(s0);
        Unfold(s0);
        if t != Empty then
          ConcatOne(t);
          var rest := Append([t]);
          ConsOntoConcat(x, Elems(t), rest, seqs);
          VectorDefault.Cons(x, rest)
        else
          ConsOntoConcat(x, [], Empty, seqs);
          VectorDefault.Cons(x, Empty)
      else Empty
    else if seqs[0] == Empty then Append(seqs[1..])
    else
      var s0 := seqs[0];
      var x, t := First(s0).value, Rest(s0);
      Unfold(s0);
      if t != Empty then
        ConcatOne(t);
        var inner := Append([t]);
        ConcatCons(inner, seqs[1..]);
        var rest := Append([inner] + seqs[1..]);
        ConsOntoConcat(x, Elems(t), rest, seqs);
        VectorDefault.Cons(x, rest)
      else
        var rest := Append(seqs[1..]);
        ConsOntoConcat(x, [], rest, seqs);
        VectorDefault.Cons(x, rest)
  }

  /** Reference definition of reversal on plain sequences. */
  function Reversed<T>(xs: seq<T>): seq<T>
  {
    if xs == [] then [] else Reversed(xs[1..]) + [xs[0]]
  }

  /** `RevAppend`: conses the elements of `s` onto `tail` one by one, so the
      result holds `s` reversed followed by `tail`; it is `tail` itself when
      `s` is empty, and it keeps the tail's representation. */
  function RevAppend<T>(s: Seq<T>, tail: Seq<T>): (r: Seq<T>)
    requires Valid(s) && Valid(tail)
    ensures Valid(r) && Elems(r) == Reversed(Elems(s)) + Elems(tail)
    ensures s == Empty ==> r == tail
    ensures s != Empty ==> if tail.Pair? then r.Pair? else r.Vec?
    decreases |Elems(s)|
  {
    if s == Empty then tail
    else
      var x, rest := First(s).value, Rest(s);
      assert Elems(s) == [x] + Elems(rest);
      assert Reversed(Elems(s)) + Elems(tail) == Reversed(Elems(rest)) + ([x] + Elems(tail));
      RevAppend(rest, VectorDefault.Cons(x, tail))
  }

  /** `Reverse`: the elements in reverse order. */
  function Reverse<T>(s: Seq<T>): (r: Seq<T>)
    requires Valid(s)
    ensures Valid(r) && Elems(r) == Reversed(Elems(s))
    ensures s != Empty ==> r.Vec?
  {
    RevAppend(s, Empty)
  }

  lemma {:induction false} ReversedAt<T>(xs: seq<T>, k: nat)
    requires k < |xs|
    ensures |Reversed(xs)| == |xs| && Reversed(xs)[k] == xs[|xs| - 1 - k]
  {
    if |xs| > 1 {
      ReversedLength(xs[1..]);
      if k < |xs| - 1 {
        ReversedAt(xs[1..], k);
      }
    }
  }

  lemma {:induction false} ReversedLength<T>(xs: seq<T>)
    ensures |Reversed(xs)| == |xs|
  {
    if xs != [] {
      ReversedLength(xs[1..]);
    }
  }

  lemma ReversedTwice<T>(xs: seq<T>)
    ensures Reversed(Reversed(xs)) == xs
  {
    ReversedLength(xs);
    ReversedLength(Reversed(xs));
    forall k | 0 <= k < |xs|
      ensures Reversed(Reversed(xs))[k] == xs[k]
    {
      ReversedAt(Reversed(xs), k);
      ReversedAt(xs, |xs| - 1 - k);
    }
  }

  /** Reversing twice gives back the original elements (ligo_test.go TestReverse). */
  lemma ReverseInvolution<T>(s: Seq<T>)
    requires Valid(s)
    ensures Elems(Reverse(Reverse(s))) == Elems(s)
  {
    ReversedTwice(Elems(s));
  }

  /** The range `[start, min(end, |xs|))` of `xs`, empty when `start` lies
      at or past either bound: what a sub-sequence is meant to be. */
  ghost function Slice<T>(xs: seq<T>, start: nat, end: nat): seq<T>
  {
    if start < end && start < |xs| then xs[start..Min(end, |xs|)] else []
  }

  /** What `SubSeq` as written yields on the elements `xs`: `Slice`, except
      that a non-empty range starting at or past the end of a non-empty
      sequence yields its last element. */
  ghost function SubSeqAsWritten<T>(xs: seq<T>, start: nat, end: nat): seq<T>
  {
    if start < end && |xs| > 0 && start >= |xs| then [xs[|xs| - 1]]
    else Slice(xs, start, end)
  }

  /** Skipping the first element shifts both bounds down by one. */
  lemma SliceSkip<T>(xs: seq<T>, start: nat, end: nat)
    requires |xs| >= 1 && 0 < start < end
    ensures Slice(xs[1..], start - 1, end - 1) == Slice(xs, start, end)
  {
    if start < |xs| {
      assert xs[1..][start - 1..Min(end - 1, |xs| - 1)] == xs[start..Min(end, |xs|)];
    }
  }

  /** The same shift for the as-written range, once at least two elements
      are left (with one left the last-cell shortcut applies instead). */
  lemma AsWrittenSkip<T>(xs: seq<T>, start: nat, end: nat)
    requires |xs| >= 2 && 0 < start < end
    ensures SubSeqAsWritten(xs[1..], start - 1, end - 1) == SubSeqAsWritten(xs, start, end)
  {
    SliceSkip(xs, start, end);
  }

  /** A range from 0 is the first element followed by the range from 0 of
      the remaining elements. */
  lemma SliceKeep<T>(xs: seq<T>, end: nat)
    requires |xs| >= 1 && 0 < end
    ensures [xs[0]] + Slice(xs[1..], 0, end - 1) == Slice(xs, 0, end)
  {
    if end - 1 > 0 && |xs| > 1 {
      assert [xs[0]] + xs[1..][0..Min(end - 1, |xs| - 1)] == xs[0..Min(end, |xs|)];
    }
  }

  /** `SubSeq` as written: elements `start` up to `end` (exclusive), truncated
      at the end of `s`. Once the walk reaches the last cell with
      `start < end`, that cell is returned as it is, even when `start` lies
      beyond it. The source's final `return nil` is unreachable for unsigned
      `start`, so the branch on `start == 0` is the plain else. */
  function SubSeq<T>(s: Seq<T>, start: nat, end: nat): (r: Seq<T>)
    requires Valid(s)
    ensures Valid(r)
    ensures Elems(r) == SubSeqAsWritten(Elems(s), start, end)
    ensures start < |Elems(s)| ==> Elems(r) == Slice(Elems(s), start, end)
    decreases |Elems(s)|
  {
    if s == Empty || start >= end then Empty
    else
      var t := Rest(s);
      Unfold(s);
      if t == Empty then s
      else if start > 0 then
        AsWrittenSkip(Elems(s), start, end);
        SubSeq(t, start - 1, end - 1)
      else
        SliceKeep(Elems(s), end);
        VectorDefault.Cons(First(s).value, SubSeq(t, start, end - 1))
  }

  /** The `SubSeq` the documentation describes: the last-cell shortcut is
      taken only once the walk has reached `start`, so a range that starts
      past the end is empty. */
  function SubSeqCorrected<T>(s: Seq<T>, start: nat, end: nat): (r: Seq<T>)
    requires Valid(s)
    ensures Valid(r)
    ensures Elems(r) == Slice(Elems(s), start, end)
    decreases |Elems(s)|
  {
    if s == Empty || start >= end then Empty
    else
      var t := Rest(s);
      Unfold(s);
      if start > 0 then
        SliceSkip(Elems(s), start, end);
        SubSeqCorrected(t, start - 1, end - 1)
      else if t == Empty then s
      else
        SliceKeep(Elems(s), end);
        VectorDefault.Cons(First(s).value, SubSeqCorrected(t, start, end - 1))
  }

  /** The two definitions build the very same value whenever the range
      starts inside the sequence (in particular for every `Take`). */
  lemma {:induction false} SubSeqAgrees<T>(s: Seq<T>, start: nat, end: nat)
    requires Valid(s) && start < |Elems(s)|
    ensures SubSeq(s, start, end) == SubSeqCorrected(s, start, end)
    decreases |Elems(s)|
  {
    if s != Empty && start < end {
      var t := Rest(s);
      if t != Empty {
        if start > 0 {
          SubSeqAgrees(t, start - 1, end - 1);
        } else {
          SubSeqAgrees(t, start, end - 1);
        }
      }
    }
  }

  /** As written, a range that starts past the end of a three-element
      sequence still yields its last element. */
  lemma SubSeqPastEnd()
    ensures Elems(SubSeq(Pair(1, Pair(2, Pair(3, Empty))), 5, 7)) == [3]
    ensures Elems(SubSeqCorrected(Pair(1, Pair(2, Pair(3, Empty))), 5, 7)) == []
  {
  }

  /** `Take`: the first `n` elements (all of them when `n` is larger). */
  function Take<T>(s: Seq<T>, n: nat): (r: Seq<T>)
    requires Valid(s)
    ensures Valid(r) && Elems(r) == Elems(s)[..Min(n, |Elems(s)|)]
  {
    SubSeq(s, 0, n)
  }

  /** `Drop`: the suffix after the first `n` elements, returned without
      copying: `s` itself for `n == 0`, one of its own cells for a pair chain. */
  function Drop<T>(s: Seq<T>, n: nat): (r: Seq<T>)
    requires Valid(s)
    ensures Valid(r) && Elems(r) == Elems(s)[Min(n, |Elems(s)|)..]
    ensures n == 0 ==> r == s
    ensures AllPairs(s) ==> IsCellOf(r, s)
    decreases n
  {
    if n == 0 || s == Empty then s else Drop(Rest(s), n - 1)
  }

  /** `Length`: the size of the slice `ToSlice` materialises. */
  method Length<T>(s: Seq<T>) returns (n: nat)
    requires Valid(s)
    ensures n == |Elems(s)|
  {
    var vals := VectorDefault.ToSlice(s);
    n := |vals|;
  }

  /** Appending the first `k` elements to the rest gives back `s`. */
  lemma TakeDropComplement<T>(s: Seq<T>, k: nat)
    requires Valid(s) && k <= |Elems(s)|
    ensures Elems(Append([Take(s, k), Drop(s, k)])) == Elems(s)
  {
    var a, b := Take(s, k), Drop(s, k);
    var xs := Elems(s);
    assert [a, b] == [a] + [b];
    ConcatCons(a, [b]);
    ConcatOne(b);
    assert Elems(a) == xs[..k] && Elems(b) == xs[k..];
    calc {
      Elems(Append([a, b]));
      Concat([a] + [b]);
      xs[..k] + xs[k..];
      { assert xs == xs[..k] + xs[k..]; }
      xs;
    }
  }

  /** An empty argument on either side leaves the elements unchanged. */
  lemma AppendEmptyIdentity<T>(s: Seq<T>)
    requires Valid(s)
    ensures Elems(Append([s, Empty])) == Elems(s)
    ensures Elems(Append([Empty, s])) == Elems(s)
  {
    ConcatCons(s, [Empty]);
    ConcatOne<T>(Empty);
    ConcatCons(Empty, [s]);
    ConcatOne(s);
  }
}
