/**
 * Invocations of the caller's combining function.
 *
 * The combining function may terminate abnormally (unwind). The model
 * makes that an explicit outcome of each call instead of control flow,
 * and records the arguments of every call so that the order and number
 * of calls can be stated.
 */
module Calls {

  /** Outcome of one call `op(l, r)` of a by-value combining function. */
  datatype Call<O> = Return(value: O) | Unwind

  /**
   * Outcome of one call `op(&mut l, r)` of an in-place combining function.
   * An unwinding call may already have changed the slot it was given;
   * `residue` is what that slot holds when the unwinding starts.
   */
  datatype MutCall<T> = Done(value: T) | UnwindWith(residue: T)

  /** The value a slot holds after an in-place call, however it ended. */
  function SlotAfter<T>(c: MutCall<T>): T
  {
    match c
    case Done(v) => v
    case UnwindWith(v) => v
  }

  /** The left-hand arguments of a sequence of calls, in call order. */
  function Lefts<T, U>(calls: seq<(T, U)>): (ls: seq<T>)
    ensures |ls| == |calls|
    ensures forall i :: 0 <= i < |calls| ==> ls[i] == calls[i].0
  {
    if calls == [] then [] else [calls[0].0] + Lefts(calls[1..])
  }

  /** The right-hand arguments of a sequence of calls, in call order. */
  function Rights<T, U>(calls: seq<(T, U)>): (rs: seq<U>)
    ensures |rs| == |calls|
    ensures forall i :: 0 <= i < |calls| ==> rs[i] == calls[i].1
  {
    if calls == [] then [] else [calls[0].1] + Rights(calls[1..])
  }

  /** The calls `op(lhs[0], rhs[0]), ..., op(lhs[k-1], rhs[k-1])`, in that order. */
  ghost predicate InIndexOrder<T, U>(calls: seq<(T, U)>, lhs: seq<T>, rhs: seq<U>, k: nat)
  {
    |calls| == k && k <= |lhs| && k <= |rhs| &&
    forall i :: 0 <= i < k ==> calls[i] == (lhs[i], rhs[i])
  }

  /** Extending in-index-order calls by the call on the next index pair keeps them in index order. */
  lemma InIndexOrderNext<T, U>(calls: seq<(T, U)>, lhs: seq<T>, rhs: seq<U>, k: nat)
    requires InIndexOrder(calls, lhs, rhs, k)
    requires k < |lhs| && k < |rhs|
    ensures InIndexOrder(calls + [(lhs[k], rhs[k])], lhs, rhs, k + 1)
  {
  }

  /**
   * When the calls were made on the first `k` index pairs in order, the
   * arguments they received followed by the elements from index `k` on
   * are exactly the inputs: every element was handed to exactly one call
   * or is among those left.
   */
  lemma ArgumentsThenRest<T, U>(calls: seq<(T, U)>, lhs: seq<T>, rhs: seq<U>, k: nat)
    requires InIndexOrder(calls, lhs, rhs, k)
    ensures Lefts(calls) + lhs[k..] == lhs
    ensures Rights(calls) + rhs[k..] == rhs
  {
  }
}
