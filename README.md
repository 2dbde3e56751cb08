# array-bin-ops in Dafny: elementwise operations that stay sound under unwinding

This project models the core of the Rust crate `array-bin-ops`. The crate
provides elementwise arithmetic on fixed-size arrays. There are two forms:

- `[T; N] op [U; N] -> [O; N]`;
- the compound assignment `[T; N] op= [U; N]`.

The hard part is ownership. The combining function may unwind at any step.
When it does, every element still owned by the operation must be finalised
exactly once:

- nothing leaks;
- nothing is dropped twice;
- the output slot that was never written is not touched.

The crate does this with an alive-range tracking buffer, `Slice<T, N>`.

The model has five modules.

- `Iter` (`iter.dfy`) models `Slice` as a class.
  - Its state is an array of slots and the alive range `start..end`. A slot is `Some(v)` when initialised and `None` when not.
  - The ghost sequence `Owned` holds the values in the alive range.
  - The object invariant `Valid()` says that `start <= end <= N` and that exactly the slots of the alive range are initialised, holding `Owned`.
  - `PopFront`, `Push`, `Output` and the destructor `Drop` are methods that update this state in place.
  - The helpers `mu_array`, `uninit_array`, `assume_array_init` and `take` are functions on slot sequences.
- `Calls` (`calls.dfy`) models one call of the combining function as an outcome: it returns a value or it unwinds. It also states what it means for calls to be made "on the first k index pairs, in index order".
- `Simple` (`simple.dfy`) models `binop_impl`, its tracked path `binop_impl_drop` and its copy path `binop_impl_copy`.
  - The reference definition `Apply` combines the inputs front to back and stops at the first call that unwinds.
  - Both paths are proved to produce `Apply`'s outcome, calling `op` on index pairs `0, 1, ...` in order.
  - The tracked path is also proved to finalise exactly:
    - the inputs not yet handed to a call;
    - the outputs already produced.
- `Assign` (`assign.dfy`) models `binop_assign_impl` and its two paths in the same way.
  - `lhs` is an `array` updated in place.
  - The reference definition is `AssignAll`.
- `Scenarios` (`scenarios.dfy`) states the four behaviours checked by `src/tests.rs` on concrete inputs.

Unwinding out of the combining function is modelled as a value, not as
control flow.

- A by-value call returns `Call<O>`, which is `Return(v)` or `Unwind`.
- An in-place call returns `MutCall<T>`. This is `Done(v)`, or `UnwindWith(residue)`, where `residue` is what the `&mut` slot holds when the unwinding starts.

Each operation returns a run record with:

- the arguments of every call, in call order;
- the outcome;
- the values finalised by the operation itself, per buffer and in the order they are finalised.

An unwinding step drops the live `Slice`s in reverse declaration order, as
Rust does: output first, then `rhs`, then `lhs`. Each buffer keeps its own
log, so this order across buffers is not part of any contract (see
"## Left out").

`needs_drop::<X>()` is a compile-time query on the element types. It is
modelled by boolean parameters of `BinopImpl` and `BinopAssignImpl`.

The crate has one tracking type, `Slice`, used in three roles:

- a full input consumed from the front;
- an empty output filled from the back;
- the right-hand side of the assignment.

## Model

| member | source | states |
|---|---|---|
| Iter.MuArray | src/iter.rs:83-85 | every slot of the result is initialised with the array element at the same index, and the length is N |
| Iter.UninitArray | src/iter.rs:88-92 | N slots, none initialised |
| Iter.AssumeArrayInit | src/iter.rs:95-99 | only for storage whose every slot is initialised; the result holds, at each index, the value of that slot |
| Iter.AssumeArrayInitOfMuArray | src/iter.rs:83-99 | storage built by `mu_array` is fully initialised, and reading it back with `assume_array_init` gives the original array |
| Iter.Take | src/iter.rs:75-79 | only for an initialised slot; returns the value it holds |
| Iter.Layout | src/iter.rs:15 | the slot layout a valid Slice must have: uninitialised slots before `start`, the owned values from `start` on, uninitialised slots after them |
| Iter.Slice.Valid | src/iter.rs:6-19 | the Slice invariant: `start <= end <= N`, and exactly the slots of the alive range are initialised, holding the owned values in index order |
| Iter.Slice.New | src/iter.rs:24-29 | a valid Slice of N uninitialised slots with alive range `0..0`, owning nothing (so dropping it finalises nothing) |
| Iter.Slice.Full | src/iter.rs:32-37 | a valid Slice with alive range `0..N` whose slot `i` holds `arr[i]`, owning exactly `arr` |
| Iter.Slice.PopFront | src/iter.rs:52-61 | requires a non-empty alive range with `start < N`; returns the value at slot `start`, marks that slot uninitialised, advances `start` by one, leaves `end` and every other slot unchanged, and keeps the invariant |
| Iter.Slice.Push | src/iter.rs:64-71 | requires `end < N`; writes the value at slot `end`, advances `end` by one, leaves `start` and every other slot unchanged, and keeps the invariant |
| Iter.Slice.Output | src/iter.rs:42-49 | requires alive range `0..N`; returns the N owned values in index order, and the Slice is left owning nothing, so no value is finalised afterwards |
| Iter.Slice.Drop | src/iter.rs:11-19 | finalises exactly the values of the alive range, each once, in index order, and leaves the Slice valid with an empty alive range |
| Iter.Slice.OwnsNothing | src/iter.rs:11-19 | once the alive range is empty, every slot of a valid Slice is uninitialised |
| Calls.InIndexOrderNext | src/simple.rs:30-35 | a call on the next index pair extends calls made in index order |
| Calls.ArgumentsThenRest | src/simple.rs:30-36 | after calls on the first k pairs in index order, the arguments handed to calls followed by the elements from k on are exactly the inputs, so each element went to one call or is still left |
| Simple.Apply | src/simple.rs:30-36 | reference definition; a completed outcome has N outputs, and an unwound one stops at a step below N |
| Simple.ApplyCompleted | src/simple.rs:30-38 | the operation completes with `out` iff every call returns and `out[i]` is the value `op(lhs[i], rhs[i])` returned (both directions) |
| Simple.ApplyUnwound | src/simple.rs:30-36 | the operation unwinds at step k iff the calls before k return and the call at k unwinds (both directions) |
| Simple.ApplyTotal | src/simple.rs:7-19 | for a combining function that never unwinds, the result is `f(lhs[i], rhs[i])` at every index |
| Simple.ProducedNext | src/simple.rs:32-34 | a returning call on the next index pair extends the produced outputs by its value |
| Simple.BinopImplDrop | src/simple.rs:21-39 | the tracked path produces `Apply`'s outcome; it calls `op` on pairs `0..k` in index order, where k is N, or the failing step plus one; every `lhs` and `rhs` element is handed to exactly one call or finalised exactly once; on completion no output is finalised; on unwinding at k exactly the k outputs produced are finalised |
| Simple.Step | src/simple.rs:31-35 | one loop iteration: pops the front of both inputs, calls `op` on them, and pushes the result iff the call returns; all three Slices stay valid |
| Simple.Unwinding | src/simple.rs:26-36 | unwinding out of the loop drops the output, `rhs` and `lhs` Slices, finalising exactly what each still owns |
| Simple.Completion | src/simple.rs:36-38 | normal exit: the output Slice is moved out without being dropped, and the two input Slices are dropped |
| Simple.UnwoundRun | src/simple.rs:30-36 | from the loop state at an unwinding step k, the run meets every postcondition of the tracked path |
| Simple.CompletedRun | src/simple.rs:30-38 | from the state after N returning steps, the run meets every postcondition of the tracked path |
| Simple.BinopImplCopy | src/simple.rs:43-61 | the copy path produces `Apply`'s outcome with the same calls in index order; every output slot is written before the storage is read as an array; nothing is finalised |
| Simple.BinopImpl | src/simple.rs:7-19 | takes the tracked path iff some element type needs dropping; either way the outcome is `Apply`'s and the calls are in index order; for each element type that needs dropping, every element is accounted for exactly once |
| Simple.CopyAgreesWithTracked | src/simple.rs:12-18 | the copy path and the tracked path give the same outcome through the same calls |
| Assign.AssignAll | src/assign.rs:25-31 | reference definition; `lhs` keeps its length, and an unwound run stops at a step below N |
| Assign.UpdatedNext | src/assign.rs:27-30 | a returning call on slot `i` extends the updated prefix of `lhs` by one |
| Assign.AssignAllAssigned | src/assign.rs:25-31 | the operation completes leaving `out` iff every call returns and leaves `out[i]` in slot `i` (both directions) |
| Assign.AssignAllUnwound | src/assign.rs:25-31 | the operation unwinds at step k leaving `out` iff the slots before k hold what their returning calls left, slot k holds the residue of the unwinding call, and the slots after k are unchanged (both directions) |
| Assign.SlotsAfter | src/assign.rs:25-31 | slot by slot: a slot whose call ran holds what the call left in it; a slot after the unwinding step holds its original value |
| Assign.BinopAssignImplDrop | src/assign.rs:20-32 | updates `lhs` in place to `AssignAll` of its old contents; calls `op` on `(old lhs[i], rhs[i])` in index order; every `rhs` element is handed to exactly one call or finalised exactly once |
| Assign.BinopAssignImplCopy | src/assign.rs:36-49 | updates `lhs` in place to `AssignAll` of its old contents with the same calls in index order, and finalises nothing |
| Assign.BinopAssignImpl | src/assign.rs:6-18 | takes the tracked path iff the `rhs` element type needs dropping; either way `lhs` ends as `AssignAll` says; on the tracked path every `rhs` element is accounted for exactly once |
| Assign.AssignUnwoundRun | src/assign.rs:27-31 | from the loop state at an unwinding step k, the outcome is `AssignAll`'s, the calls are in index order, and the `rhs` elements after k are the ones left |
| Assign.AssignedRun | src/assign.rs:27-31 | from the state after N returning steps, the outcome is `AssignAll`'s and every `rhs` element went to a call |
| Assign.CopyAgreesWithTracked | src/assign.rs:11-17 | on equal starting arrays, the copy path and the tracked path leave the same `lhs` after the same calls |
| Scenarios.Plus | src/tests.rs:14 | `i32` addition, used by `+` in the test `add`, as a combining function that always returns the sum |
| Scenarios.PlusAssign | src/tests.rs:24 | `i32` compound addition, used by `+=` in the test `add_assign`, as an in-place call that always leaves the sum in the slot |
| Scenarios.HeapAdd | src/tests.rs:56-65 | `HeapAdd::add` unwinds exactly when the right operand is 8, and otherwise returns the sum |
| Scenarios.Add | src/tests.rs:9-15 | `[0, 1, 2, 3] + [4, 5, 6, 7]` on `i32` is `[4, 6, 8, 10]`, by the copy path |
| Scenarios.AddAssign | src/tests.rs:17-27 | `[0, 1, 2, 3] += [4, 5, 6, 7]` on `i32` leaves `[4, 6, 8, 10]`, by the copy path |
| Scenarios.NoPanicNoDoubleFree | src/tests.rs:29-37 | on `HeapAdd` the tracked path yields `[4, 6, 8, 10]`, every input goes to one call, and nothing else is finalised |
| Scenarios.PanicNoDoubleFree | src/tests.rs:39-46 | `[0, 1, 2, 3] + [6, 7, 8, 9]` on `HeapAdd` unwinds at step 2 after the calls `(0, 6), (1, 7), (2, 8)`; the operation finalises `lhs` `[3]`, `rhs` `[9]` and outputs `[6, 8]`, each once |

## Left out

- Raw memory is not modelled. This covers `MaybeUninit`, `ManuallyDrop`, `transmute_copy`, `ptr::read`, `get_unchecked_mut` and `slice_assume_init_mut` (src/iter.rs:75-106, src/simple.rs:54-55, src/simple.rs:60, src/assign.rs:45). A slot is an `Option` value instead, and a slice reinterpretation has no counterpart.
- Iter.Slice.Output: the Rust method consumes the Slice and disarms its destructor with `ManuallyDrop`. The model leaves the Slice valid and owning nothing, so a later `Drop` would finalise nothing. The Slice object itself does not disappear.
- Iter.Slice.Drop: dropping a Slice ends its life in Rust. In the model the emptied Slice stays valid.
- The `debug_assert`s of `output`, `pop_front_unchecked` and `push_unchecked` become preconditions. They are proved at every call site rather than checked at run time.
- Unwinding is a returned outcome, not control flow. `resume_unwind` and `catch_unwind` are not modelled. Neither is what the combining function does with the arguments it owns when it unwinds.
- `needs_drop` is a boolean parameter, not a query on the element types.
- Simple.BinopImplCopy and Assign.BinopAssignImplCopy record no finalisation. This path runs only for element types that need no dropping, so there is nothing to finalise.
- Scenarios.Plus, Scenarios.PlusAssign and Scenarios.HeapAdd: `i32` addition is modelled on unbounded integers, so overflow panics are not modelled. The test values are far from the bounds.
- The operator macros `binop!` and `binop_assign!` (src/simple.rs:63-92, src/assign.rs:51-76) are left out. So are the `Array` newtype and the `new_mut` cast in src/lib.rs. They only wire the trait methods to `binop_impl` and `binop_assign_impl`.
- The benchmark in benches/sum.rs is left out.
- The `Mockalloc` allocator of src/tests.rs is left out. The tests appear only as the concrete scenarios above.
- Simple.Unwinding: the order in which the three Slices are dropped (output, then `rhs`, then `lhs`) is in its body only. No contract states it, because each buffer keeps its own log of finalised values.
