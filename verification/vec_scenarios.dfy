/** The concrete runs the repository's tests pin down, stated as lemmas over the model.
    `int` stands for the tests' `u32` and `()` for their zero-sized element type. A test
    marked `should_panic` becomes a statement that the operator access fails with
    `IndexOutOfBounds` (equivalently, that `Index`/`IndexMut`'s precondition is false).
 */
module VecScenarios {
  import opened Wrappers
  import opened Vec
  import opened VecLaws

  /** Pushing 1, 2, 3, 4 onto a new vector. */
  function FourPushed(): (r: MyVec<int>)
    ensures r.contents == [1, 2, 3, 4]
  {
    Push(Push(Push(Push(New<int>(false), 1), 2), 3), 4)
  }

  /** `simple_vec`: capacities 0, 1, 2, 4, 4 and lengths 0..4 along the pushes; `get`
      and `get_mut` find the elements (storing back through `get_mut` what its borrow
      holds leaves the vector unchanged) and nothing at 10; pops return 4, 3, 2, 1, then
      `None`, leaving length 0 and capacity 4. */
  lemma SimpleVec()
    ensures var v0 := New<int>(false);
            var v1 := Push(v0, 1);
            var v2 := Push(v1, 2);
            var v3 := Push(v2, 3);
            var v4 := Push(v3, 4);
            && v0.cap == 0 && |v0.contents| == 0
            && v1.cap == 1 && |v1.contents| == 1
            && v2.cap == 2 && |v2.contents| == 2
            && v3.cap == 4 && |v3.contents| == 3
            && v4.cap == 4 && |v4.contents| == 4
            && Get(v4, 0) == Some(1) && Get(v4, 1) == Some(2)
            && Get(v4, 2) == Some(3) && Get(v4, 3) == Some(4)
            && Get(v4, 10) == None
            && GetMut(v4, 0, 1) == Some(v4) && GetMut(v4, 1, 2) == Some(v4)
            && GetMut(v4, 2, 3) == Some(v4) && GetMut(v4, 3, 4) == Some(v4)
            && GetMut(v4, 10, 0) == None
            && Pops(v4, 5).1 == [Some(4), Some(3), Some(2), Some(1), None]
            && |Pops(v4, 5).0.contents| == 0 && Pops(v4, 5).0.cap == 4
  {
    var v4 := FourPushed();
    assert v4.contents == [1, 2, 3, 4];
    assert v4.contents[0 := 1] == v4.contents;
    assert v4.contents[1 := 2] == v4.contents;
    assert v4.contents[2 := 3] == v4.contents;
    assert v4.contents[3 := 4] == v4.contents;
  }

  /** `vec_index`: `v[0..3]` read 1..4, and after `v[0] = 10`, `v[0]` reads 10. */
  lemma VecIndex()
    ensures var v := FourPushed();
            && Index(v, 0) == 1 && Index(v, 1) == 2 && Index(v, 2) == 3 && Index(v, 3) == 4
            && Index(IndexMut(v, 0, 10), 0) == 10
  {
  }

  /** `vec_index_oob`: `v[10] = 10` on four elements panics naming index 10. */
  lemma VecIndexOob()
    ensures IndexMutOrPanic(FourPushed(), 10, 10) == Failure(IndexOutOfBounds(10))
  {
  }

  /** The zero-sized vector after four pushes of `()`. */
  function FourUnitsPushed(): (r: MyVec<()>)
    ensures |r.contents| == 4 && r.zst
  {
    Push(Push(Push(Push(New<()>(true), ()), ()), ()), ())
  }

  /** `zst_vec_index`: capacity stays `!0` through four pushes while the length
      counts 1..4; all four slots index, and `v[0] = ()` succeeds. */
  lemma ZstVecIndex()
    ensures var v0 := New<()>(true);
            var v1 := Push(v0, ());
            var v2 := Push(v1, ());
            var v3 := Push(v2, ());
            var v4 := Push(v3, ());
            && v0.cap == USIZE_MAX && |v0.contents| == 0
            && v1.cap == USIZE_MAX && |v1.contents| == 1
            && v2.cap == USIZE_MAX && |v2.contents| == 2
            && v3.cap == USIZE_MAX && |v3.contents| == 3
            && v4.cap == USIZE_MAX && |v4.contents| == 4
            && Index(v4, 0) == () && Index(v4, 1) == () && Index(v4, 2) == () && Index(v4, 3) == ()
            && Index(IndexMut(v4, 0, ()), 0) == ()
  {
  }

  /** `zst_vec_index_oob`: `v[10] = ()` on four zero-sized elements panics. */
  lemma ZstVecIndexOob()
    ensures IndexMutOrPanic(FourUnitsPushed(), 10, ()) == Failure(IndexOutOfBounds(10))
  {
  }

  /** `vec_empty_index_oob` and `vec_empty_index_mut_oob`: on a new vector both
      `v[0]` and `v[0] = 1` panic. */
  lemma VecEmptyIndexOob()
    ensures IndexOrPanic(New<int>(false), 0) == Failure(IndexOutOfBounds(0))
    ensures IndexMutOrPanic(New<int>(false), 0, 1) == Failure(IndexOutOfBounds(0))
  {
  }

  /** `vec_with_capacity_empty_index_mut_oob`: reserving 16 slots makes none of them
      live, so `v[0] = 1` still panics. */
  lemma VecWithCapacityEmptyIndexMutOob()
    ensures WithCapacityAsWritten<int>(16, false).cap == 16
    ensures IndexMutOrPanic(WithCapacityAsWritten<int>(16, false), 0, 1) == Failure(IndexOutOfBounds(0))
  {
  }
}
