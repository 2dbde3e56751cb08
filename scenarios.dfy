/**
 * The behaviours exercised by src/tests.rs, stated on the model.
 *
 * `i32` elements need no dropping, so `+` and `+=` on them take the copy
 * paths; the heap-allocated `HeapAdd` elements need dropping, so `+` on
 * them takes the tracked path. A `HeapAdd` is modelled by the integer it
 * boxes.
 */
module Scenarios {
  import opened Calls
  import opened Simple
  import opened Assign

  /** Addition of two `i32` elements as a combining function that always returns. */
  function Plus(l: int, r: int): Call<int>
  {
    Return(l + r)
  }

  /** `+=` on an `i32` slot as an in-place combining function that always returns. */
  function PlusAssign(l: int, r: int): MutCall<int>
  {
    Done(l + r)
  }

  /** `HeapAdd::add`: unwinds exactly when the right operand is 8, and otherwise returns the sum. */
  function HeapAdd(l: int, r: int): Call<int>
  {
    if r == 8 then Unwind else Return(l + r)
  }

  /** The test `add`: `[0, 1, 2, 3] + [4, 5, 6, 7]` on `i32` is `[4, 6, 8, 10]`, by the copy path. */
  method Add() returns (out: seq<int>, tracked: bool)
    ensures out == [4, 6, 8, 10]
    ensures !tracked
  {
    var lhs, rhs := [0, 1, 2, 3], [4, 5, 6, 7];
    var run;
    run, tracked := BinopImpl(lhs, rhs, Plus, false, false, false);
    ApplyCompleted(lhs, rhs, Plus, [4, 6, 8, 10]);
    out := run.outcome.output;
  }

  /** The test `add_assign`: `a += [4, 5, 6, 7]` on `a = [0, 1, 2, 3]` of `i32` leaves `a == [4, 6, 8, 10]`. */
  method AddAssign() returns (a: array<int>, tracked: bool)
    ensures a[..] == [4, 6, 8, 10]
    ensures !tracked
  {
    a := new int[4];
    a[0], a[1], a[2], a[3] := 0, 1, 2, 3;
    var lhs, rhs := a[..], [4, 5, 6, 7];
    assert lhs == [0, 1, 2, 3];
    var run;
    run, tracked := BinopAssignImpl(a, rhs, PlusAssign, false);
    AssignAllAssigned(lhs, rhs, PlusAssign, [4, 6, 8, 10]);
  }

  /**
   * The test `no_panic_no_double_free`: `+` on `HeapAdd` elements takes the
   * tracked path and, as no call unwinds, yields `[4, 6, 8, 10]`; every
   * input element is moved into exactly one call and the operation itself
   * finalises nothing.
   */
  method NoPanicNoDoubleFree() returns (run: Run<int, int, int>, tracked: bool)
    ensures tracked
    ensures run.outcome == Completed([4, 6, 8, 10])
    ensures Lefts(run.calls) == [0, 1, 2, 3] && Rights(run.calls) == [4, 5, 6, 7]
    ensures run.finalised == Finalised([], [], [])
  {
    var lhs, rhs := [0, 1, 2, 3], [4, 5, 6, 7];
    run, tracked := BinopImpl(lhs, rhs, HeapAdd, true, true, true);
    ApplyCompleted(lhs, rhs, HeapAdd, [4, 6, 8, 10]);
    assert Lefts(run.calls) + run.finalised.lhs == lhs;
    assert Rights(run.calls) + run.finalised.rhs == rhs;
  }

  /**
   * The test `panic_no_double_free`: `[0, 1, 2, 3] + [6, 7, 8, 9]` on
   * `HeapAdd` unwinds out of the third call, `add(2, 8)`. The first three
   * pairs went to calls; the operation finalises the remaining inputs `3`
   * and `9` and the outputs already produced, `6` and `8`, each once.
   */
  method PanicNoDoubleFree() returns (run: Run<int, int, int>, tracked: bool)
    ensures tracked
    ensures run.outcome == Unwound(2)
    ensures run.calls == [(0, 6), (1, 7), (2, 8)]
    ensures run.finalised == Finalised([3], [9], [6, 8])
  {
    var lhs, rhs := [0, 1, 2, 3], [6, 7, 8, 9];
    run, tracked := BinopImpl(lhs, rhs, HeapAdd, true, true, true);
    ApplyUnwound(lhs, rhs, HeapAdd, 2);
    assert run.calls == [(0, 6), (1, 7), (2, 8)];
    assert Lefts(run.calls) == [0, 1, 2];
    assert Rights(run.calls) == [6, 7, 8];
    assert run.finalised.lhs == [3] by {
      assert [0, 1, 2] + run.finalised.lhs == [0, 1, 2, 3];
    }
    assert run.finalised.rhs == [9] by {
      assert [6, 7, 8] + run.finalised.rhs == [6, 7, 8, 9];
    }
    assert run.finalised.out == [6, 8];
  }
}
