/** Laws that relate several `MyVec` operations: the capacity growth law, LIFO order of
    push and pop, the bounds law of `get`, the reservation promise of `with_capacity`,
    and the zero-sized-element law.
 */
module VecLaws {
  import opened Wrappers
  import opened Vec

  /** The vector after pushing `xs` onto `v` in order (the last element of `xs` is
      pushed last). */
  function PushAll<T>(v: MyVec<T>, xs: seq<T>): (r: MyVec<T>)
    requires |v.contents| + |xs| <= USIZE_MAX
    ensures r.contents == v.contents + xs
    ensures r.zst == v.zst && v.cap <= r.cap
    ensures Valid(v) ==> Valid(r)
    decreases |xs|
  {
    if |xs| == 0 then v
    else Push(PushAll(v, xs[..|xs| - 1]), xs[|xs| - 1])
  }

  /** The vector and the answers after calling `pop` `n` times (first answer first). */
  function Pops<T>(v: MyVec<T>, n: nat): (r: (MyVec<T>, seq<Option<T>>))
    ensures |r.1| == n
    ensures r.0.cap == v.cap && r.0.zst == v.zst
    decreases n
  {
    if n == 0 then (v, [])
    else
      var (w, top) := Pop(v);
      var (u, rest) := Pops(w, n - 1);
      (u, [top] + rest)
  }

  /** `n` is a power of two. */
  predicate IsPow2(n: nat)
    decreases n
  {
    n == 1 || (n > 1 && n % 2 == 0 && IsPow2(n / 2))
  }

  /** Powers of two are spaced at least a factor of two apart. */
  lemma {:induction false} Pow2Spacing(a: nat, b: nat)
    requires IsPow2(a) && IsPow2(b) && a < 2 * b
    ensures a <= b
    decreases b
  {
    if b > 1 && a > 1 {
      Pow2Spacing(a / 2, b / 2);
    }
  }

  /** The growth law: starting from `new` for a sized element type, after `k > 0`
      pushes the capacity is the power of two in `[k, 2k)`, that is, the least power
      of two not below `k`; so it runs 1, 2, 4, 4, 8, ... */
  lemma {:induction false} CapacityDoublingLaw<T>(xs: seq<T>)
    requires 0 < |xs| <= USIZE_MAX
    ensures var v := PushAll(New<T>(false), xs);
            IsPow2(v.cap) && |xs| <= v.cap < 2 * |xs|
    decreases |xs|
  {
    var init := xs[..|xs| - 1];
    var u := PushAll(New<T>(false), init);
    if |init| == 0 {
      assert u.cap == 0;
    } else {
      CapacityDoublingLaw(init);
      if |init| == u.cap {
        assert IsPow2(2 * u.cap) by {
          assert (2 * u.cap) / 2 == u.cap;
        }
      }
    }
  }

  /** No power of two at or above the length sits below the grown capacity. */
  lemma CapacityIsLeastPow2<T>(xs: seq<T>, p: nat)
    requires 0 < |xs| <= USIZE_MAX
    requires IsPow2(p) && |xs| <= p
    ensures PushAll(New<T>(false), xs).cap <= p
  {
    CapacityDoublingLaw(xs);
    Pow2Spacing(PushAll(New<T>(false), xs).cap, p);
  }

  /** While reserved slots remain, pushes never reallocate; in particular pushing up
      to `n` elements after `with_capacity(n)` keeps capacity `n`. */
  lemma {:induction false} NoGrowthWhileRoom<T>(v: MyVec<T>, xs: seq<T>)
    requires |v.contents| + |xs| <= v.cap
    requires |v.contents| + |xs| <= USIZE_MAX
    ensures PushAll(v, xs).cap == v.cap
    decreases |xs|
  {
    if |xs| > 0 {
      NoGrowthWhileRoom(v, xs[..|xs| - 1]);
    }
  }

  /** The reservation promise of `with_capacity(n)`. */
  lemma ReservedCapacityNoGrowth<T>(n: nat, zst: bool, xs: seq<T>)
    requires |xs| <= n && |xs| <= USIZE_MAX
    ensures PushAll(WithCapacity<T>(n, zst), xs).cap == WithCapacity<T>(n, zst).cap
    ensures PushAll(WithCapacity<T>(n, zst), xs).contents == xs
  {
    NoGrowthWhileRoom(WithCapacity<T>(n, zst), xs);
  }

  /** For a zero-sized element type the capacity stays the sentinel however many
      elements are pushed, while the length counts them exactly. */
  lemma ZstCapacityPinned<T>(xs: seq<T>)
    requires |xs| <= USIZE_MAX
    ensures PushAll(New<T>(true), xs).cap == USIZE_MAX
    ensures |PushAll(New<T>(true), xs).contents| == |xs|
  {
  }

  /** `with_capacity` as the source writes it lets a zero-sized element type reach
      `grow`: after `with_capacity(0)` the first push finds `length == cap` and the
      capacity becomes 1 instead of staying the sentinel. */
  lemma ZstWithCapacityAsWrittenGrows<T>(x: T)
    ensures var v := WithCapacityAsWritten<T>(0, true);
            && |v.contents| == v.cap
            && Push(v, x).cap == 1
            && !Valid(Push(v, x))
  {
  }

  /** A push undone by a pop: the pushed value comes back and the contents are as
      before, with whatever capacity the push reserved. */
  lemma PopAfterPush<T>(v: MyVec<T>, x: T)
    requires |v.contents| < USIZE_MAX
    ensures Pop(Push(v, x)) == (Push(v, x).(contents := v.contents), Some(x))
  {
    assert Push(v, x).contents[..|v.contents|] == v.contents;
  }

  /** `n` pops on a vector of at least `n` elements return its last `n` elements,
      last first, and leave the rest in place. */
  lemma {:induction false} PopsTakeFromTop<T>(v: MyVec<T>, n: nat)
    requires n <= |v.contents|
    ensures Pops(v, n).0 == v.(contents := v.contents[..|v.contents| - n])
    ensures forall k :: 0 <= k < n ==> Pops(v, n).1[k] == Some(v.contents[|v.contents| - 1 - k])
    decreases n
  {
    if n > 0 {
      var (w, top) := Pop(v);
      PopsTakeFromTop(w, n - 1);
      assert w.contents[..|w.contents| - (n - 1)] == v.contents[..|v.contents| - n];
    }
  }

  /** Pops on an empty vector answer `None` every time and change nothing. */
  lemma {:induction false} PopsOnEmpty<T>(v: MyVec<T>, n: nat)
    requires |v.contents| == 0
    ensures Pops(v, n).0 == v
    ensures forall k :: 0 <= k < n ==> Pops(v, n).1[k] == None
    decreases n
  {
    if n > 0 {
      PopsOnEmpty(v, n - 1);
    }
  }

  /** Push/pop inverse law: pushing `xs` onto an empty vector and then popping
      `|xs| + 1` times returns `xs` in reverse order followed by `None`, leaves the
      vector empty and keeps the capacity the pushes reached. */
  lemma PushesThenPopsReverse<T>(v: MyVec<T>, xs: seq<T>)
    requires |v.contents| == 0 && |xs| <= USIZE_MAX
    ensures var w := PushAll(v, xs);
            var (u, out) := Pops(w, |xs| + 1);
            && |u.contents| == 0 && u.cap == w.cap
            && (forall k :: 0 <= k < |xs| ==> out[k] == Some(xs[|xs| - 1 - k]))
            && out[|xs|] == None
  {
    var w := PushAll(v, xs);
    PopsTakeFromTop(w, |xs|);
    var (m, first) := Pops(w, |xs|);
    PopsOnEmpty(m, 1);
    PopsThenPops(w, |xs|, 1);
  }

  /** Popping `n` times and then `m` times is popping `n + m` times. */
  lemma {:induction false} PopsThenPops<T>(v: MyVec<T>, n: nat, m: nat)
    ensures Pops(v, n + m).0 == Pops(Pops(v, n).0, m).0
    ensures Pops(v, n + m).1 == Pops(v, n).1 + Pops(Pops(v, n).0, m).1
    decreases n
  {
    if n > 0 {
      var (w, top) := Pop(v);
      PopsThenPops(w, n - 1, m);
      assert Pops(v, n + m) == (Pops(w, n - 1 + m).0, [top] + Pops(w, n - 1 + m).1);
    }
  }

  /** Bounds law of `get` across a push: old slots read as before, the new slot
      reads the pushed value, and everything beyond is absent. */
  lemma GetAfterPush<T>(v: MyVec<T>, x: T, i: nat)
    requires |v.contents| < USIZE_MAX
    ensures Get(Push(v, x), i) ==
              if i < |v.contents| then Get(v, i)
              else if i == |v.contents| then Some(x)
              else None
  {
  }

  /** A store through `get_mut` (or `v[i] = x`) is seen by `get` at `i` and by no
      other index. */
  lemma GetAfterGetMut<T>(v: MyVec<T>, i: nat, x: T, j: nat)
    requires i < |v.contents|
    ensures Get(GetMut(v, i, x).value, j) == if j == i then Some(x) else Get(v, j)
  {
  }
}
