# MyVec: a verified model of a hand-rolled growable array

`MyVec<T>` (src/vec.rs) is a growable contiguous array. It keeps a raw block for
`cap` elements and a count `length` of live elements. It offers:

- `new` and `with_capacity`;
- `push`, which calls a private `grow` when the vector is full;
- `pop`;
- `get` and `get_mut`, which return `None` out of range;
- the operators `v[i]` and `v[i] = x`, which panic out of range;
- `Drop`, which drains the vector by popping until `pop` answers `None`.

Zero-sized element types get the capacity sentinel `!0` from `new`.

The model is functional. A `MyVec<T>` value holds three things:

- `contents: seq<T>`, the live slots, so `|contents|` is `length`;
- `cap: nat`, the number of reserved slots;
- `zst: bool`, which records `size_of::<T>() == 0`.

`Valid` is the state invariant:

- `length <= cap`;
- `length` fits a `usize`;
- a zero-sized type reports `cap == USIZE_MAX` (`!0` on a 64-bit target).

Every operation is a pure function returning the new vector, except the drain of
`Drop`, which is a method with a loop. Operator indexing appears in two forms:

- `Index` and `IndexMut` take the precondition `i < length`;
- `IndexOrPanic` and `IndexMutOrPanic` give the whole behaviour, with
  `IndexOutOfBounds(i)` standing for the panic "index {i} is out of bounds".

`get_mut` is modelled as "borrow slot `i` and store `x` through the borrow".

Files:

- `wrappers.dfy`: `Option` and `Result`.
- `vec.dfy`: module `Vec`, the state and its operations.
- `vec_laws.dfy`: module `VecLaws`, lemmas that relate several operations.
- `vec_scenarios.dfy`: module `VecScenarios`, the repository's tests as lemmas.

## Model

| member | source | states |
|---|---|---|
| Vec.New | src/vec.rs:17-27 | a new vector is empty and valid; its capacity is 0 for a sized type and the sentinel `!0` for a zero-sized one |
| Vec.WithCapacityAsWritten | src/vec.rs:29-39 | `with_capacity(n)` as written: empty, capacity `n` for every element type; it is valid for a zero-sized type only when `n == !0` |
| Vec.WithCapacity | src/vec.rs:29-39 | corrected `with_capacity(n)`: empty and valid; capacity `n` for a sized type and the sentinel for a zero-sized one, so it never reports fewer than `n` slots |
| Vec.Grow | src/vec.rs:61-82 | growth keeps the elements and strictly enlarges the capacity: 0 becomes 1, and a non-zero capacity doubles |
| Vec.Push | src/vec.rs:41-50 | the length grows by one and the new slot holds `x`; earlier slots are unchanged; capacity never shrinks and changes exactly when `length == cap`; validity is preserved |
| Vec.Pop | src/vec.rs:52-59 | on an empty vector it returns `None` and changes nothing; otherwise it returns the last element and drops it from the contents; capacity and validity are kept |
| Vec.Get | src/vec.rs:84-90 | `None` exactly when `i >= length`, otherwise the element at `i` |
| Vec.GetMut | src/vec.rs:92-98 | `None` exactly when `i >= length`; otherwise only slot `i` changes, to `x`, and the length and capacity stay the same |
| Vec.IndexOrPanic | src/vec.rs:101-110 | `v[i]` panics, naming `i`, exactly when `i >= length`; otherwise it yields what `get` yields |
| Vec.IndexMutOrPanic | src/vec.rs:112-119 | `v[i] = x` panics, naming `i`, exactly when `i >= length`; otherwise it does what a store through `get_mut` does |
| Vec.Index | src/vec.rs:104-109 | with `i < length` as the caller's obligation, `v[i]` agrees with `get(i)` |
| Vec.IndexMut | src/vec.rs:113-118 | with `i < length` as the caller's obligation, `v[i] = x` agrees with `get_mut` and replaces slot `i` only |
| Vec.ReverseIsPermutation | src/vec.rs:121-123 | the elements drained last-to-first are exactly the live elements, each once |
| Vec.Drop | src/vec.rs:121-123 | draining pops every live element exactly once, last first; the vector ends empty with the same capacity |
| VecLaws.PushAll | src/vec.rs:41-50 | pushing a sequence appends it to the contents, never lowers the capacity and keeps validity |
| VecLaws.Pops | src/vec.rs:52-59 | `n` pops give `n` answers and leave the capacity alone |
| VecLaws.CapacityDoublingLaw | src/vec.rs:61-82 | after `k > 0` pushes from `new`, the capacity is a power of two in `[k, 2k)` |
| VecLaws.CapacityIsLeastPow2 | src/vec.rs:139-150 | that capacity is the least power of two not below `k`, which gives the sequence 1, 2, 4, 4 |
| VecLaws.NoGrowthWhileRoom | src/vec.rs:42-44 | pushes that fit in the reserved slots never change the capacity |
| VecLaws.ReservedCapacityNoGrowth | src/vec.rs:29-39 | after `with_capacity(n)`, up to `n` pushes keep the reserved capacity and store exactly the pushed elements |
| VecLaws.ZstCapacityPinned | src/vec.rs:17-18 | for a zero-sized type the capacity stays `!0` across any number of pushes, and the length counts them exactly |
| VecLaws.ZstWithCapacityAsWrittenGrows | src/vec.rs:29-43 | as written, `with_capacity(0)` for a zero-sized type is full, and the next push grows it to capacity 1, which breaks the sentinel invariant |
| VecLaws.PopAfterPush | src/vec.rs:41-59 | a pop right after `push(x)` returns `x` and restores the previous contents |
| VecLaws.PopsTakeFromTop | src/vec.rs:52-59 | `n <= length` pops return the last `n` elements, last first, and keep the others |
| VecLaws.PopsOnEmpty | src/vec.rs:53-54 | pops on an empty vector answer `None` and change nothing |
| VecLaws.PushesThenPopsReverse | src/vec.rs:164-170 | after pushing `xs` onto an empty vector, `|xs| + 1` pops return `xs` reversed and then `None`; the vector ends empty and the capacity is kept |
| VecLaws.GetAfterPush | src/vec.rs:84-90 | after a push, `get` reads old slots as before, the new slot as the pushed value, and nothing beyond |
| VecLaws.GetAfterGetMut | src/vec.rs:92-98 | a store through `get_mut` at `i` is visible to `get` at `i` and at no other index |
| VecScenarios.SimpleVec | src/vec.rs:134-171 | pushing 1..4 gives capacities 1, 2, 4, 4; `get` finds 1..4, `get_mut` borrows slots 0..3 holding 1..4 (storing that value back changes nothing), and both find nothing at 10; pops give 4, 3, 2, 1 then `None`; the end state has length 0 and capacity 4 |
| VecScenarios.VecIndex | src/vec.rs:173-198 | `v[0..3]` read 1..4, and `v[0] = 10` is then read back |
| VecScenarios.VecIndexOob | src/vec.rs:200-226 | `v[10] = 10` on four elements panics naming index 10 |
| VecScenarios.ZstVecIndex | src/vec.rs:228-253 | for `()` the capacity stays `!0` through four pushes while the length counts 1..4, and every live slot indexes |
| VecScenarios.ZstVecIndexOob | src/vec.rs:255-281 | `v[10] = ()` on four zero-sized elements panics |
| VecScenarios.VecEmptyIndexOob | src/vec.rs:283-295 | on a new vector, both `v[0]` and `v[0] = 1` panic |
| VecScenarios.VecWithCapacityEmptyIndexMutOob | src/vec.rs:297-302 | `with_capacity(16)` reserves 16 slots but makes none live, so `v[0] = 1` panics |

## Left out

- Raw pointers, `ptr::write`, `ptr::read` and `PhantomData`: storage is the `contents` sequence, and a reallocation leaves it unchanged.
- The allocator (`alloc`, `realloc`, `dealloc`, `Layout::array(..).unwrap()`) and its failure paths, including the "realloc failed" panic. The model assumes allocation succeeds.
- The source's `with_capacity(0)` passes a zero-size layout to `alloc`, for every element type. This is allocator behaviour and is outside the model; the model only keeps the capacity it reports.
- The deallocation half of `Drop` (src/vec.rs:124-130). Only the drain loop is modelled.
- The `println!` debug output in `push` and `grow`. It has no functional effect.
- Borrow lifetimes, and references invalidated by growth. Rust's borrow checker enforces these; they are not value-level behaviour.
- Vec.Push: requires `length < !0`. At that length the source overflows a `usize`: `length += 1` for every type, and `cap * 2` in `grow` for a zero-sized type.
- Vec.Grow: capacity is an unbounded `nat`. For large sized vectors the source's `cap * 2` and `Layout::array` fail and panic; the model has no such limit.
- Vec.WithCapacity: `n` is an unbounded `nat`. The source panics in `Layout::array` when `n` elements do not fit the address space.
- Vec.Index and Vec.IndexMut: the panic is a precondition. The total behaviour, panic included, is in Vec.IndexOrPanic and Vec.IndexMutOrPanic.
- `get_mut` is modelled as one store through the returned borrow. Other uses of a `&mut T` are not modelled.

## Findings

| source | as written | input that shows it | evidently intended | confidence | as-written member | corrected member |
|---|---|---|---|---|---|---|
| src/vec.rs:29-39 | `with_capacity(n)` sets `cap = n` for every element type. Unlike `new`, it does not pin a zero-sized type's capacity to `!0`. | `MyVec::<()>::with_capacity(0)` then `push(())`: `length == cap == 0`, so `grow` runs for a zero-sized type and sets `cap = 1`. That calls `alloc` with a zero-size layout. | the zero-sized case handled as in `new` (`cap = !0`), so that `grow` is never reached for such a type | not executed; high | VecLaws.ZstWithCapacityAsWrittenGrows (over Vec.WithCapacityAsWritten) | Vec.WithCapacity (with VecLaws.ReservedCapacityNoGrowth) |
