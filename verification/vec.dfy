/** A growable array, `MyVec<T>`, as a value: the live elements (slots `[0, length)`)
    as a sequence, the number of reserved slots `cap`, and whether the element type is
    zero-sized. Raw storage, the allocator and the element layout are not modelled:
    a reallocation that moves the elements is the identity on `contents`.
 */
module Vec {
  import opened Wrappers

  /** The capacity sentinel `!0` of a 64-bit `usize`, reported for zero-sized elements. */
  const USIZE_MAX: nat := 0xFFFF_FFFF_FFFF_FFFF

  /** `contents` are the live slots, so `|contents|` is the source's `length`;
      `zst` records `size_of::<T>() == 0`. */
  datatype MyVec<T> = MyVec(contents: seq<T>, cap: nat, zst: bool)

  /** The diagnostic of a fatal out-of-range operator access: "index {i} is out of bounds". */
  datatype Panic = IndexOutOfBounds(index: nat)

  /** The state invariant: live slots fit in the reserved ones, the length fits a `usize`,
      and a zero-sized element type always reports the sentinel capacity. */
  predicate Valid<T>(v: MyVec<T>)
  {
    && |v.contents| <= v.cap
    && |v.contents| <= USIZE_MAX
    && (v.zst ==> v.cap == USIZE_MAX)
  }

  /** `MyVec::new`: empty, no allocation; capacity 0, or the sentinel for a zero-sized type. */
  function New<T>(zst: bool): (r: MyVec<T>)
    ensures Valid(r)
    ensures |r.contents| == 0 && r.zst == zst
    ensures !zst ==> r.cap == 0
  {
    MyVec([], if zst then USIZE_MAX else 0, zst)
  }

  /** `MyVec::with_capacity(n)` exactly as the source writes it: it reserves `n` slots
      whatever the element size, so a zero-sized type does not get the sentinel. */
  function WithCapacityAsWritten<T>(n: nat, zst: bool): (r: MyVec<T>)
    ensures |r.contents| == 0 && r.zst == zst
    ensures r.cap == n
    ensures Valid(r) <==> !zst || n == USIZE_MAX
  {
    MyVec([], n, zst)
  }

  /** `MyVec::with_capacity(n)` with the zero-sized case treated as in `new`: the
      capacity is the sentinel, so `grow` can never be reached for such a type. */
  function WithCapacity<T>(n: nat, zst: bool): (r: MyVec<T>)
    ensures Valid(r)
    ensures |r.contents| == 0 && r.zst == zst
    ensures !zst ==> r.cap == n
    ensures r.cap >= n || r.cap == USIZE_MAX
  {
    MyVec([], if zst then USIZE_MAX else n, zst)
  }

  /** The private `grow`: the first growth reserves one slot, every later one doubles.
      The elements are carried over unchanged (the realloc moves them). */
  function Grow<T>(v: MyVec<T>): (r: MyVec<T>)
    ensures r.contents == v.contents && r.zst == v.zst
    ensures v.cap < r.cap
    ensures v.cap > 0 ==> r.cap == 2 * v.cap
    ensures v.cap == 0 ==> r.cap == 1
  {
    if v.cap != 0 then v.(cap := v.cap * 2) else v.(cap := 1)
  }

  /** `MyVec::push`: grow only when every reserved slot is live, then store `x` at
      index `length` and count it. The source's `length` is a `usize`, so pushing onto
      a vector of `USIZE_MAX` elements is outside the model. */
  function Push<T>(v: MyVec<T>, x: T): (r: MyVec<T>)
    requires |v.contents| < USIZE_MAX
    ensures |r.contents| == |v.contents| + 1
    ensures r.contents[|v.contents|] == x
    ensures forall i :: 0 <= i < |v.contents| ==> r.contents[i] == v.contents[i]
    ensures r.zst == v.zst
    ensures v.cap <= r.cap
    ensures |v.contents| <= v.cap ==> |r.contents| <= r.cap
    ensures r.cap != v.cap <==> |v.contents| == v.cap
    ensures Valid(v) ==> Valid(r)
  {
    var w := if |v.contents| == v.cap then Grow(v) else v;
    w.(contents := w.contents + [x])
  }

  /** `MyVec::pop`: `None` and no change on an empty vector; otherwise the last live
      element, which stops being live. Capacity is never given back. */
  function Pop<T>(v: MyVec<T>): (r: (MyVec<T>, Option<T>))
    ensures r.0.cap == v.cap && r.0.zst == v.zst
    ensures |v.contents| == 0 ==> r == (v, None)
    ensures |v.contents| > 0 ==>
              && r.1 == Some(v.contents[|v.contents| - 1])
              && r.0.contents == v.contents[..|v.contents| - 1]
    ensures Valid(v) ==> Valid(r.0)
  {
    if |v.contents| == 0 then (v, None)
    else (v.(contents := v.contents[..|v.contents| - 1]), Some(v.contents[|v.contents| - 1]))
  }

  /** `MyVec::get`: the element at `i`, or `None` exactly when `i` is not a live slot. */
  function Get<T>(v: MyVec<T>, i: nat): (r: Option<T>)
    ensures r.None? <==> i >= |v.contents|
    ensures r.Some? ==> r.value == v.contents[i]
  {
    if i >= |v.contents| then None else Some(v.contents[i])
  }

  /** `MyVec::get_mut` followed by a store of `x` through the borrow it hands out:
      `None` exactly when `i` is not a live slot, otherwise the vector with slot `i`
      holding `x` and nothing else changed. */
  function GetMut<T>(v: MyVec<T>, i: nat, x: T): (r: Option<MyVec<T>>)
    ensures r.None? <==> i >= |v.contents|
    ensures r.Some? ==>
              && |r.value.contents| == |v.contents|
              && r.value.contents[i] == x
              && (forall j :: 0 <= j < |v.contents| && j != i ==> r.value.contents[j] == v.contents[j])
              && r.value.cap == v.cap && r.value.zst == v.zst
  {
    if i >= |v.contents| then None else Some(v.(contents := v.contents[i := x]))
  }

  /** `Index::index` as it runs: the value `get` finds, or a panic naming the index. */
  function IndexOrPanic<T>(v: MyVec<T>, i: nat): (r: Result<T, Panic>)
    ensures r.Failure? <==> i >= |v.contents|
    ensures r.Failure? ==> r.error == IndexOutOfBounds(i)
    ensures r.Success? ==> Get(v, i) == Some(r.value)
  {
    match Get(v, i)
    case Some(x) => Success(x)
    case None => Failure(IndexOutOfBounds(i))
  }

  /** `IndexMut::index_mut` followed by a store of `x`, as it runs: the updated vector,
      or a panic naming the index. */
  function IndexMutOrPanic<T>(v: MyVec<T>, i: nat, x: T): (r: Result<MyVec<T>, Panic>)
    ensures r.Failure? <==> i >= |v.contents|
    ensures r.Failure? ==> r.error == IndexOutOfBounds(i)
    ensures r.Success? ==> GetMut(v, i, x) == Some(r.value)
  {
    match GetMut(v, i, x)
    case Some(w) => Success(w)
    case None => Failure(IndexOutOfBounds(i))
  }

  /** `v[i]`: an out-of-range index is a fatal contract violation, so callers must
      stay in range; in range it reads what `get` reads. */
  function Index<T>(v: MyVec<T>, i: nat): (r: T)
    requires i < |v.contents|
    ensures Get(v, i) == Some(r)
    ensures r == v.contents[i]
  {
    IndexOrPanic(v, i).value
  }

  /** `v[i] = x`: in range only; it writes what a store through `get_mut` writes. */
  function IndexMut<T>(v: MyVec<T>, i: nat, x: T): (r: MyVec<T>)
    requires i < |v.contents|
    ensures GetMut(v, i, x) == Some(r)
    ensures r.contents == v.contents[i := x]
    ensures r.cap == v.cap && r.zst == v.zst
  {
    IndexMutOrPanic(v, i, x).value
  }

  /** `b` lists the elements of `a` last to first. */
  ghost predicate IsReverseOf<T>(b: seq<T>, a: seq<T>)
  {
    |b| == |a| && forall k :: 0 <= k < |a| ==> b[k] == a[|a| - 1 - k]
  }

  /** Listing a sequence backwards neither loses nor duplicates an element. */
  lemma {:induction false} ReverseIsPermutation<T>(b: seq<T>, a: seq<T>)
    requires IsReverseOf(b, a)
    ensures multiset(b) == multiset(a)
    decreases |a|
  {
    if |a| > 0 {
      var a', b' := a[..|a| - 1], b[1..];
      assert IsReverseOf(b', a');
      ReverseIsPermutation(b', a');
      assert a == a' + [a[|a| - 1]];
      assert b == [b[0]] + b';
    }
  }

  /** The logical half of `Drop::drop`: pop until `pop` answers `None`. `finalized`
      lists the popped elements in the order they are dropped; `w` is the drained vector. */
  method Drop<T>(v: MyVec<T>) returns (finalized: seq<T>, w: MyVec<T>)
    ensures IsReverseOf(finalized, v.contents)
    ensures multiset(finalized) == multiset(v.contents)
    ensures |w.contents| == 0 && w.cap == v.cap && w.zst == v.zst
    ensures Valid(v) ==> Valid(w)
  {
    w := v;
    finalized := [];
    var done := false;
    while !done
      invariant w.cap == v.cap && w.zst == v.zst
      invariant |w.contents| + |finalized| == |v.contents|
      invariant w.contents == v.contents[..|w.contents|]
      invariant forall k :: 0 <= k < |finalized| ==> finalized[k] == v.contents[|v.contents| - 1 - k]
      invariant done ==> |w.contents| == 0
      decreases |w.contents|, !done
    {
      var (rest, top) := Pop(w);
      w := rest;
      match top
      case None =>
        done := true;
      case Some(x) =>
        finalized := finalized + [x];
    }
    ReverseIsPermutation(finalized, v.contents);
  }
}
