# ligo sequences in Dafny

This project models the core of ligo ("Lisp in Go"), a small Go library of
Lisp-style sequences. A sequence is either nil (empty), a chain of `pair`
cons cells, or a `vec` node over a slice. Every algorithm works through the
two-method `Seq` protocol, `First` and `Rest`, so it behaves the same on
either representation.

The model is one Dafny module per concern:

- **SeqCore.** The value `Seq<T> = Empty | Pair(car, cdr) | Vec(items)`.
  - `Valid` is the representation invariant: no vector node holds zero items.
  - `Elems` is the abstraction function: the elements in `First`/`Rest` order.
  - `Option<T>` stands for a Go `interface{}` result that may be nil.
- **Pairs** (`seqs-list.go`) and **Vectors** (`seqs-vector.go`). The
  node-level `First`/`Rest` methods and the raw constructors `consPair`,
  `pushNew` and `consVector`.
- **Protocol.** The interface dispatch of `First` and `Rest`.
- **VectorDefault** (`seqs_types.go`). The representation-dispatching
  `cons`, which starts a new sequence as a vector, plus `ToSlice` and
  `valEquality`.
- **PairDefault** (`seqs-common.go`). The alternative `cons`, which starts a
  new sequence as a pair.
- **Builders.** The `List` and `Vector` factories.
- **SeqFns** (`seqs-fns.go`). `CopySeq`, `Append`, `RevAppend`, `Reverse`,
  `SubSeq`, `Take`, `Drop` and `Length`.
- **HighOrder** (`high-order-fns.go`). `Reduce`, `MapCar`, `Every`,
  `Some`, `EqualTest`, `RemoveIf`, `RemoveIfNot` and `Filter`.
- **Equality.** `Equal`.
- **Accessors** (`ligo_accessor_fns.go`). `NthRest`, `Nth`, `First` and
  `Second` to `Fifth`.
- **Legacy** (`ligo.go`). The older revision, in which every node is a pair.
- **Scenarios** (`ligo_test.go`). The package's test cases, stated as
  methods whose results are proved.

Nodes are never changed after they are built, so the core is modelled as
values. Sharing a tail is reusing a value.

Where the Go code loops, the model is a method with a loop and invariants:
- `ToSlice`, `valEquality`, `List` and `Vector`;
- the head-gathering loops of `MapCar`, `Every`, `Some` and `EqualTest`;
- `RemoveIf` and `RemoveIfNot`.

Each method is proved against a reference function:
- `Elems` and `FoldRight`;
- `Shortest` and `Column`, the lockstep walk over several sequences;
- `Select`, the filters.

A caller's `MultiArgFn` is modelled as a Dafny function. A mapping function
is `seq<T> -> T`, a test is `seq<T> -> bool`, and a one-argument filter test
is `T -> bool`.

The revision that contains `seqs_types.go` (vector default) is the one the
generic algorithms are modelled on. The pair-default `cons` of
`seqs-common.go` is modelled and proved on its own.

`Valid` is a precondition of the algorithms. It is not a restriction on
callers: every sequence the package builds satisfies it, because `(*vec).Rest`
returns nil rather than an empty vector.

Where the doc comments and the code disagree, the model follows the code:

- `SubSeq` with a range that starts past the end of the sequence. Its doc
  comment (seqs-fns.go:62) promises a copy "bounded by start and end", and
  `Take` (seqs-fns.go:78) is documented to take the first `n` elements, so
  a range past the end should be empty. The code returns the last cell
  instead; see Findings.
- `List` with two or more values. The doc comments of `cons`
  (seqs_types.go:23-25) and of the older `List` (ligo.go:51-55) show a list
  as a chain of cons cells: `List(1, 2, 3)` equals
  `Cons(1, Cons(2, Cons(3, nil)))`. The code conses with the vector-default
  `cons`, so the result is a vector; only a one-value `List` is a pair cell.

## Model

| member | source | states |
|---|---|---|
| SeqCore.Elems | seqs_types.go:14-21 | A valid sequence has no elements exactly when it is the nil sequence |
| Pairs.PairFirst | seqs-list.go:14-19 | A cell yields its car, which is the first element; a nil cell yields nothing |
| Pairs.PairRest | seqs-list.go:22-27 | A cell yields its own cdr, shared rather than copied, and the elements split as car then cdr; a nil cell yields nil; validity is kept |
| Pairs.ConsPair | seqs-list.go:29-31 | A fresh cell whose First is the value and whose Rest is exactly the given tail; elements are the value followed by the tail's |
| Vectors.VecFirst | seqs-vector.go:13-18 | A value exactly when the node is non-nil with a non-empty slice, and then it is the first element |
| Vectors.VecRest | seqs-vector.go:21-26 | A vector over `items[1..]` when two or more items remain, otherwise nil; never an empty vector; elements drop the first |
| Vectors.PushNew | seqs-vector.go:28-33 | A new vector holding the value followed by all old items, one item longer |
| Vectors.ConsVector | seqs-vector.go:35-43 | Always a valid vector: a one-item vector on a nil tail, otherwise the value followed by the tail's items |
| Protocol.First | seqs_types.go:18-21 | Dispatching on the node gives the first element of any valid non-empty sequence |
| Protocol.Rest | seqs_types.go:18-21 | Dispatching gives a valid sequence holding all elements but the first; it is nil exactly when one element was left; a pair's Rest is its cdr |
| Protocol.Unfold | seqs_types.go:14-21 | A non-empty sequence is its First followed by the elements of its Rest |
| VectorDefault.Cons | seqs_types.go:27-47 | Prepends the value and keeps the tail's representation: pair on pair (sharing the tail), vector on vector; a vector on nil |
| VectorDefault.ToSlice | seqs_types.go:50-70 | The slice holds exactly the elements in order, for nil, vectors and pair chains alike |
| VectorDefault.ValEquality | seqs_types.go:86-97 | True exactly when all values are equal, equivalently when each equals its predecessor |
| PairDefault.Cons | seqs-common.go:26-46 | Prepends the value: a pair on nil or on a pair (sharing the tail), a vector on a vector; pair chains stay pair chains |
| PairDefault.ConsAllIsPairChain | seqs-common.go:22-26 | Consing values right to left onto nil builds a valid pair chain holding them in order |
| Builders.List | seqs-list.go:34-45 | Holds the arguments in order; nil for none, one pair cell for one, a vector over the arguments for two or more |
| Builders.Vector | seqs-vector.go:46-57 | Holds the arguments in order; nil for none, otherwise a vector over exactly the arguments |
| SeqFns.CopySeq | seqs-fns.go:10-17 | A valid copy with the same elements; a non-empty copy is a vector |
| SeqFns.Append | seqs-fns.go:22-46 | The concatenation of all arguments in order (nil arguments contribute nothing); the result is nil or a vector |
| SeqFns.AppendEmptyIdentity | seqs-fns.go:22-46 | Appending nil on either side leaves the elements unchanged |
| SeqFns.RevAppend | seqs-fns.go:50-55 | The elements of the first argument reversed, followed by the tail; the tail itself when the first is nil |
| SeqFns.Reverse | seqs-fns.go:58-60 | The elements in reverse order; a non-empty result is a vector |
| SeqFns.ReverseInvolution | seqs-fns.go:58-60 | Reversing twice gives back the original elements |
| SeqFns.SubSeq | seqs-fns.go:63-76 | As written: the elements from start to end (truncated at the sequence's end) whenever start lies inside the sequence; the last element when a non-empty range starts past the end |
| SeqFns.SubSeqCorrected | seqs-fns.go:62-76 | The documented behaviour: exactly the elements from start up to min(end, length), empty when start is past either bound |
| SeqFns.SubSeqAgrees | seqs-fns.go:63-76 | Whenever start lies inside the sequence, the code as written and the corrected definition build the same value |
| SeqFns.SubSeqPastEnd | seqs-fns.go:67-69 | On the list (1, 2, 3) with range 5 to 7, the code as written yields (3) where the corrected definition yields nothing |
| SeqFns.Take | seqs-fns.go:79-81 | The first n elements, or all of them when n exceeds the length |
| SeqFns.Drop | seqs-fns.go:84-89 | The elements after the first n; the sequence itself for n = 0; on a pair chain, one of its own cells (no copy) |
| SeqFns.TakeDropComplement | seqs-fns.go:78-89 | Appending Take(k) and Drop(k) gives back the original elements |
| SeqFns.Length | seqs-fns.go:92-94 | The number of elements |
| HighOrder.Reduce | high-order-fns.go:18-26 | The right fold of the elements (depends only on the elements, not the representation); no value exactly for nil |
| HighOrder.Shortest | high-order-fns.go:28-35 | The number of steps of a lockstep walk: at most every length and equal to one of them (0 when there are no sequences) |
| HighOrder.LiveCount | high-order-fns.go:61-69 | The loop gathers at most one value per sequence: none exactly when all are nil, all exactly when none is nil |
| HighOrder.Heads | high-order-fns.go:59-66 | Gathers the first value and the rest of each non-nil sequence, in argument order |
| HighOrder.StepAll | high-order-fns.go:37-45 | Complete exactly when no sequence is nil, and then holds every first value and every rest in order |
| HighOrder.MapCar | high-order-fns.go:36-50 | One value per step of the shortest sequence, value i being fn of column i; fn of no arguments when there are no sequences; the result is nil or a vector |
| HighOrder.Every | high-order-fns.go:58-71 | True exactly when fn holds on every column of the shortest walk (so true at once if some sequence is empty) |
| HighOrder.Some | high-order-fns.go:79-95 | True exactly when fn holds on some column of the shortest walk (so false at once if some sequence is empty) |
| HighOrder.EqualTest | high-order-fns.go:99-114 | True exactly when all sequences have the same length and the test holds on every column |
| HighOrder.RemoveIf | high-order-fns.go:118-130 | A nil-or-vector result holding, in order, exactly the elements on which fn is false |
| HighOrder.RemoveIfNot | high-order-fns.go:134-146 | A nil-or-vector result holding, in order, exactly the elements on which fn holds |
| HighOrder.Filter | high-order-fns.go:149-151 | The elements on which fn holds, in order |
| HighOrder.SelectPartition | high-order-fns.go:116-146 | RemoveIf and RemoveIfNot split the elements: together they are a permutation of the input and their lengths add up |
| HighOrder.SelectMembers | high-order-fns.go:116-146 | A value is kept exactly when it occurs in the input and passes (or fails) the test as asked |
| HighOrder.SelectIdempotent | high-order-fns.go:132-146 | Filtering a filtered result again changes nothing |
| Equality.EqualColumns | seqs_types.go:86-103 | Equal lengths plus all-equal columns is the same as all sequences holding the same elements |
| Equality.Equal | seqs_types.go:99-103 | True exactly when all sequences hold the same elements, whatever their representation |
| Accessors.NthRest | ligo_accessor_fns.go:7-11 | The elements after the first n; the sequence itself for n = 0 |
| Accessors.First | ligo_accessor_fns.go:19-25 | No value for nil, otherwise the first element |
| Accessors.Nth | ligo_accessor_fns.go:13-17 | Element n when there is one, otherwise no value; n = 0 is First |
| Accessors.Second | ligo_accessor_fns.go:27-30 | Element 1 when the sequence has at least two elements, otherwise no value |
| Accessors.Third | ligo_accessor_fns.go:32-35 | Element 2 when present, otherwise no value |
| Accessors.Fourth | ligo_accessor_fns.go:37-40 | Element 3 when present, otherwise no value |
| Accessors.Fifth | ligo_accessor_fns.go:42-45 | Element 4 when present, otherwise no value |
| Legacy.Cons | ligo.go:39-49 | Always a fresh pair whose First is the value and whose Rest is the given tail; pair chains stay pair chains |
| Legacy.List | ligo.go:51-67 | A valid pair chain holding the arguments in order (nil for none) |
| Legacy.Reduce | ligo.go:80-88 | The same right fold of the elements as the current revision |
| Legacy.MapCar | ligo.go:98-112 | A pair chain with one value per step of the shortest sequence, value i being fn of column i; fn of no arguments when there are none |
| Legacy.CopySeq | ligo.go:117-124 | A fresh pair chain with the same elements |
| Legacy.Append | ligo.go:129-148 | A pair chain holding the concatenation of the arguments; defined only for non-nil arguments, since every one has Rest called on it |
| Scenarios.GreaterThan3 | ligo_test.go:89-99 | True exactly when some argument exceeds 3 |
| Scenarios.GreaterThan3Loop | ligo_test.go:89-99 | The loop that raises a flag on any argument above 3 returns true exactly when some argument exceeds 3 |
| Scenarios.IntAddLoop | ligo_test.go:59-67 | The accumulation loop returns the sum of all arguments, as the recursive `IntAdd` defines it |
| Scenarios.IntAddConcat | ligo_test.go:59-67 | The sum of a concatenation of argument lists is the sum of the two sums |
| Scenarios.EqualityScenario | ligo_test.go:12-27 | Two lists, two vectors, and a vector and a list of (1..5) are all Equal |
| Scenarios.AppendScenario | ligo_test.go:29-37 | Appending (1, 2, 3) to (1, 2, 3) is Equal to (1, 2, 3, 1, 2, 3) |
| Scenarios.SubSeqScenario | ligo_test.go:39-50 | SubSeq(0, 3) of (1..5), as list and as vector, is Equal to (1, 2, 3) |
| Scenarios.TakeDropScenario | ligo_test.go:51-56 | Take(3) agrees with SubSeq(0, 3), and Drop(3) of the vector with SubSeq(3, 5) of the list |
| Scenarios.FoldSum | ligo_test.go:59-67 | Reducing a non-empty sequence with intAdd gives the sum of its elements |
| Scenarios.ReduceScenario | ligo_test.go:69-77 | Reduce(intAdd) of (3, 4, 5) and of (7, 5) are both 12 |
| Scenarios.PairwiseSums | ligo_test.go:79-87 | MapCar(intAdd) over two sequences of equal length adds them element by element |
| Scenarios.SumPointwise | ligo_test.go:79-87 | The sum of the element-wise sums is the sum of both sums |
| Scenarios.SumOfPairwiseSums | ligo_test.go:84 | Reduce(intAdd, MapCar(intAdd, a, b)) is the total of a and b |
| Scenarios.MapCarScenario | ligo_test.go:79-87 | Both lists and both vectors map and reduce to the same total, 24 |
| Scenarios.Above3Selections | ligo_test.go:101-112 | Of (1..5), the elements not above 3 are (1, 2, 3) and those above 3 are (4, 5) |
| Scenarios.Above3Rejected | ligo_test.go:103 | Rejecting the elements above 3 from (1..5) leaves the elements of (1, 2, 3) |
| Scenarios.Above3Kept | ligo_test.go:106-111 | Keeping the elements above 3 of (1..5) leaves the elements of (4, 5) |
| Scenarios.RemoveIfScenario | ligo_test.go:102-105 | RemoveIf(greaterThan3) of (1..5) is Equal to (1, 2, 3) |
| Scenarios.RemoveIfNotScenario | ligo_test.go:106-108 | RemoveIfNot(greaterThan3) of (1..5) is Equal to (4, 5) |
| Scenarios.FilterScenario | ligo_test.go:109-111 | Filter(greaterThan3) of (1..5) is Equal to (4, 5) |
| Scenarios.ReverseScenario | ligo_test.go:114-120 | Reverse of (3, 4, 5) is Equal to (5, 4, 3) |
| Scenarios.EveryScenario | ligo_test.go:122-135 | Every(greaterThan3) holds on (4, 5, 9, 10) and (4, 5, 8) and fails on (1, 2, 3, 4, 5, 8) |
| Scenarios.SomeScenario | ligo_test.go:136-141 | Some(greaterThan3) holds on (1, 2, 3, 4, 5, 8) and fails on (1, 2, 3) |

## Left out

- `printSeq` (seqs_types.go:72-84) builds a display string with `fmt`; formatting is not modelled.
- The representation dispatch in `cons` and `ToSlice` uses `reflect` and `unsafe` to read the dynamic type name. It is modelled as a match over the closed datatype. The final `return nil` for an unknown type (seqs_types.go:46, seqs-common.go:45) has no case, because there is no other representation.
- The `return nil` at seqs-fns.go:75 is unreachable for an unsigned `start`, so it is not modelled.
- `reflect.DeepEqual` in `valEquality` is modelled as Dafny equality `==` on the element type.
- `Equal` passes the test as the predicate that `ValEquality` is proved to compute (`AllSame`), rather than calling the method from inside a function value.
- A `MultiArgFn` returns `interface{}`. `Every`, `Some` and the filters test it with `!= false`, while `EqualTest` tests it with `== true`. The two differ only for non-boolean results, which are not modelled: a test returns a `bool`.
- The Go functions are variadic. A call with one argument list is modelled as a sequence argument; `fn` of no values is `fn([])`.
- Slice aliasing: `(*vec).Rest` re-slices the same backing array. Since nothing writes to a slice after it is built, aliasing is unobservable and the model copies values.
- `List(x)` with one value stores a typed-nil `*pair` as the cell's `cdr` (seqs-list.go:38). That `cdr` is a non-nil `Seq` whose `First` is nil and whose `Rest` is nil, so Go sees one more element, a nil, at the end. The model uses the canonical empty sequence instead, so it does not capture these consequences:
  - `ToSlice(List(x))` is `[x, nil]` and `Length` counts 2.
  - `Reverse(List(1))` is `(nil 1)`.
  - `Equal(List(1), Vector(1))` is false.
  - `Reduce(fn, List(x))` is `fn(x, fn(nil))` rather than `fn(x)`.
  - `SubSeq(List(1), 0, 5)`, and so `Take`, panics in `cons`, where `Elem().UnsafeAddr()` reads through the nil pointer (seqs_types.go:32-33).
  - In the vector-default revision, a pair chain can only be built by consing onto a one-value `List`, because `cons` onto a pair keeps the pair representation (seqs_types.go:38). So every pair chain ends in such a cell and shows the same extra nil.
- `ToSlice` calls `(*vec).slice()` and `Length` calls `GetSlice`, neither of which is part of this model. Both are taken to return the vector's items, as `ToSlice` does.
- `uint` parameters (`SubSeq`, `Take`, `Drop`, the accessors) are modelled as `nat`. `end - 1` never wraps around, because `end > start >= 0` holds wherever it is computed.
- Scenarios.IntAdd, Scenarios.IntAddLoop: the test helper sums `int64` values and would wrap around on overflow. The model sums unbounded integers; the scenarios never come near overflow.
- A Go panic is a precondition in the model:
  - `Protocol.First` and `Protocol.Rest` require a node, because Go panics on a method called on a nil interface.
  - `Legacy.Append` requires non-nil arguments, for the same reason.
  - `ValEquality` requires at least one value, because `vals[0]` (seqs_types.go:88) panics with an index out of range on an empty argument list.
- `ligo.go`'s own pair `First`/`Rest` (ligo.go:24-37) are the same code as seqs-list.go:14-27, so they are modelled once, by `Pairs.PairFirst` and `Pairs.PairRest`.
- The `Seq` interface declarations (seqs_types.go:18-21, seqs-common.go:17-20, ligo.go:12-15) are the `Protocol` module.
- The library is modelled with the vector-default `cons` of seqs_types.go. The pair-default `cons` of seqs-common.go is modelled on its own and not substituted into the algorithms.

## Findings

| source | as written | input that shows it | evidently intended | confidence | as-written member | corrected member |
|---|---|---|---|---|---|---|
| seqs-fns.go:67-69 | `SubSeq` returns the current cell as soon as its Rest is nil, before checking whether `start` has been reached | `SubSeq(List(1, 2, 3), 5, 7)` yields `(3)` | A range that starts past the end is empty, as the doc comments of `SubSeq` (seqs-fns.go:62) and `Take` (seqs-fns.go:78) say | high (proved on the model, not executed) | SeqFns.SubSeqPastEnd | SeqFns.SubSeqCorrected |
