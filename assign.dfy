/**
 * The elementwise compound assignment of src/assign.rs.
 *
 * `lhs` is updated in place: the combining function receives slot `i` of
 * `lhs` by mutable reference and element `i` of `rhs` by value. Only the
 * `rhs` elements are moved, so only their element type decides between
 * the tracked path (`BinopAssignImplDrop`, which consumes `rhs` through a
 * `Slice`) and the untracked copy path (`BinopAssignImplCopy`). Both are
 * proved against the reference definition `AssignAll`.
 */
module Assign {
  import opened Iter
  import opened Calls

  /**
   * How an in-place elementwise operation ends, with the contents of `lhs`
   * at that moment: all N calls returned, or the call at `step` unwound.
   */
  datatype AssignOutcome<T> = Assigned(lhs: seq<T>) | UnwoundInPlace(step: nat, lhs: seq<T>)

  /** One run: the arguments of every call in call order, the outcome, and the `rhs` elements finalised by the operation. */
  datatype AssignRun<T, U> = AssignRun(calls: seq<(T, U)>, outcome: AssignOutcome<T>, finalisedRhs: seq<U>)

  /**
   * Reference definition: update `lhs` front to back, stopping at the first
   * call that unwinds. The slot of an unwinding call keeps what the call
   * left in it; the slots after it are untouched.
   */
  function AssignAll<T, U>(lhs: seq<T>, rhs: seq<U>, op: (T, U) -> MutCall<T>): (r: AssignOutcome<T>)
    requires |lhs| == |rhs|
    ensures |r.lhs| == |lhs|
    ensures r.UnwoundInPlace? ==> r.step < |lhs|
  {
    if lhs == [] then Assigned([])
    else
      match op(lhs[0], rhs[0])
      case UnwindWith(v) => UnwoundInPlace(0, [v] + lhs[1..])
      case Done(v) =>
        match AssignAll(lhs[1..], rhs[1..], op)
        case Assigned(rest) => Assigned([v] + rest)
        case UnwoundInPlace(k, rest) => UnwoundInPlace(k + 1, [v] + rest)
  }

  /** How many calls of `op` an operation over N elements makes before it ends this way. */
  function StepsInPlace<T>(outcome: AssignOutcome<T>, n: nat): nat
  {
    match outcome
    case Assigned(_) => n
    case UnwoundInPlace(step, _) => step + 1
  }

  /**
   * `cur` is `orig` after the calls on the first `i` index pairs returned:
   * slot `j < i` holds what `op(orig[j], rhs[j])` left in it, the other
   * slots are untouched.
   */
  ghost predicate UpdatedUpTo<T, U>(orig: seq<T>, rhs: seq<U>, op: (T, U) -> MutCall<T>, cur: seq<T>, i: nat)
  {
    |cur| == |orig| && i <= |orig| && i <= |rhs| &&
    (forall j :: 0 <= j < i ==> op(orig[j], rhs[j]) == Done(cur[j])) &&
    (forall j :: i <= j < |orig| ==> cur[j] == orig[j])
  }

  /** A returning call on slot `i` extends the updated prefix by one. */
  lemma UpdatedNext<T, U>(orig: seq<T>, rhs: seq<U>, op: (T, U) -> MutCall<T>, cur: seq<T>, i: nat, v: T)
    requires UpdatedUpTo(orig, rhs, op, cur, i)
    requires i < |orig| && i < |rhs|
    requires op(orig[i], rhs[i]) == Done(v)
    ensures UpdatedUpTo(orig, rhs, op, cur[i := v], i + 1)
  {
  }

  /** The operation completes with `out` iff every call returns and leaves `out[i]` in slot `i`. */
  lemma {:induction false} AssignAllAssigned<T, U>(lhs: seq<T>, rhs: seq<U>, op: (T, U) -> MutCall<T>, out: seq<T>)
    requires |lhs| == |rhs|
    ensures AssignAll(lhs, rhs, op) == Assigned(out) <==> UpdatedUpTo(lhs, rhs, op, out, |lhs|)
  {
    if lhs != [] {
      var c := op(lhs[0], rhs[0]);
      if c.Done? && out != [] {
        AssignAllAssigned(lhs[1..], rhs[1..], op, out[1..]);
        if UpdatedUpTo(lhs, rhs, op, out, |lhs|) {
          forall j | 0 <= j < |lhs| - 1
            ensures op(lhs[1..][j], rhs[1..][j]) == Done(out[1..][j])
          {
            assert op(lhs[j + 1], rhs[j + 1]) == Done(out[j + 1]);
          }
          assert out == [out[0]] + out[1..];
        }
      }
    }
  }

  /**
   * `out` is `lhs` after the calls before `k` returned and the call at `k`
   * unwound: slot `j < k` holds what its call left, slot `k` the residue
   * of the unwinding call, and the slots after `k` are untouched.
   */
  ghost predicate UnwoundAt<T, U>(lhs: seq<T>, rhs: seq<U>, op: (T, U) -> MutCall<T>, k: nat, out: seq<T>)
  {
    k < |lhs| == |out| && k < |rhs| &&
    op(lhs[k], rhs[k]) == UnwindWith(out[k]) &&
    (forall j :: 0 <= j < k ==> op(lhs[j], rhs[j]) == Done(out[j])) &&
    (forall j :: k < j < |lhs| ==> out[j] == lhs[j])
  }

  /** The operation unwinds at `k` with `lhs` left as `out` iff `UnwoundAt` describes them. */
  lemma {:induction false} AssignAllUnwound<T, U>(lhs: seq<T>, rhs: seq<U>, op: (T, U) -> MutCall<T>, k: nat, out: seq<T>)
    requires |lhs| == |rhs|
    ensures AssignAll(lhs, rhs, op) == UnwoundInPlace(k, out) <==> UnwoundAt(lhs, rhs, op, k, out)
  {
    if lhs != [] && out != [] {
      var c := op(lhs[0], rhs[0]);
      if k == 0 {
        if UnwoundAt(lhs, rhs, op, k, out) {
          assert out == [out[0]] + lhs[1..];
        }
      } else if c.Done? {
        AssignAllUnwound(lhs[1..], rhs[1..], op, k - 1, out[1..]);
        if UnwoundAt(lhs, rhs, op, k, out) {
          assert op(lhs[0], rhs[0]) == Done(out[0]);
          forall j | 0 <= j < k - 1
            ensures op(lhs[1..][j], rhs[1..][j]) == Done(out[1..][j])
          {
            assert op(lhs[j + 1], rhs[j + 1]) == Done(out[j + 1]);
          }
          assert out == [out[0]] + out[1..];
        }
      }
    }
  }

  /**
   * Slot by slot: after the operation, a slot whose call returned holds
   * what the call left, the slot of the unwinding call holds its residue,
   * and every slot after it holds its original value.
   */
  lemma SlotsAfter<T, U>(lhs: seq<T>, rhs: seq<U>, op: (T, U) -> MutCall<T>, i: nat)
    requires |lhs| == |rhs| && i < |lhs|
    ensures var r := AssignAll(lhs, rhs, op);
      r.lhs[i] == if r.Assigned? || i <= r.step then SlotAfter(op(lhs[i], rhs[i])) else lhs[i]
  {
    var r := AssignAll(lhs, rhs, op);
    if r.Assigned? {
      AssignAllAssigned(lhs, rhs, op, r.lhs);
    } else {
      AssignAllUnwound(lhs, rhs, op, r.step, r.lhs);
    }
  }

  /**
   * `binop_assign_impl_drop`: the tracked path. `rhs` becomes a full
   * Slice; step `i` pops its front element and calls `op` on slot `i` of
   * `lhs` and that element.
   *
   * If the call at step `k` unwinds, the popped element belongs to the
   * failed call and the Slice finalises `rhs[k+1..]`; `lhs` keeps the
   * updated slots `0..k`, the residue of the failed call and the
   * untouched slots after it.
   */
  method BinopAssignImplDrop<T, U>(lhs: array<T>, rhs: seq<U>, op: (T, U) -> MutCall<T>) returns (run: AssignRun<T, U>)
    requires lhs.Length == |rhs|
    modifies lhs
    ensures run.outcome == AssignAll(old(lhs[..]), rhs, op)
    ensures lhs[..] == run.outcome.lhs
    ensures InIndexOrder(run.calls, old(lhs[..]), rhs, StepsInPlace(run.outcome, |rhs|))
    ensures Rights(run.calls) + run.finalisedRhs == rhs
  {
    ghost var orig := lhs[..];
    var n := lhs.Length;
    var rhsSlice := new Slice<U>.Full(rhs);
    var calls: seq<(T, U)> := [];
    for i := 0 to n
      invariant rhsSlice.slots as object != lhs
      invariant rhsSlice.Valid()
      invariant rhsSlice.start == i && rhsSlice.end == n
      invariant rhsSlice.Owned == rhs[i..]
      invariant InIndexOrder(calls, orig, rhs, i)
      invariant UpdatedUpTo(orig, rhs, op, lhs[..], i)
    {
      var r := rhsSlice.PopFront();
      assert r == rhs[i];
      var l := lhs[i];
      InIndexOrderNext(calls, orig, rhs, i);
      calls := calls + [(l, r)];
      var c := op(l, r);
      ghost var before := lhs[..];
      lhs[i] := SlotAfter(c);
      assert lhs[..] == before[i := SlotAfter(c)];
      if c.UnwindWith? {
        // `r` now belongs to the failed call.
        var finalised := rhsSlice.Drop();
        run := AssignRun(calls, UnwoundInPlace(i, lhs[..]), finalised);
        AssignUnwoundRun(orig, rhs, op, run, before, c.residue);
        return;
      }
      UpdatedNext(orig, rhs, op, before, i, c.value);
    }
    var finalised := rhsSlice.Drop();
    run := AssignRun(calls, Assigned(lhs[..]), finalised);
    AssignedRun(orig, rhs, op, run);
  }

  /**
   * `binop_assign_impl_copy`: the untracked path, for an `rhs` element type
   * that needs no dropping. Element `i` is copied out of `rhs` and handed
   * to the call on slot `i`; nothing is finalised.
   */
  method BinopAssignImplCopy<T, U>(lhs: array<T>, rhs: seq<U>, op: (T, U) -> MutCall<T>) returns (run: AssignRun<T, U>)
    requires lhs.Length == |rhs|
    modifies lhs
    ensures run.outcome == AssignAll(old(lhs[..]), rhs, op)
    ensures lhs[..] == run.outcome.lhs
    ensures InIndexOrder(run.calls, old(lhs[..]), rhs, StepsInPlace(run.outcome, |rhs|))
    ensures run.finalisedRhs == []
  {
    ghost var orig := lhs[..];
    var n := lhs.Length;
    var calls: seq<(T, U)> := [];
    for i := 0 to n
      invariant InIndexOrder(calls, orig, rhs, i)
      invariant UpdatedUpTo(orig, rhs, op, lhs[..], i)
    {
      var r := rhs[i];
      var l := lhs[i];
      InIndexOrderNext(calls, orig, rhs, i);
      calls := calls + [(l, r)];
      var c := op(l, r);
      ghost var before := lhs[..];
      lhs[i] := SlotAfter(c);
      assert lhs[..] == before[i := SlotAfter(c)];
      if c.UnwindWith? {
        run := AssignRun(calls, UnwoundInPlace(i, lhs[..]), []);
        AssignUnwoundRun(orig, rhs, op, run, before, c.residue);
        return;
      }
      UpdatedNext(orig, rhs, op, before, i, c.value);
    }
    run := AssignRun(calls, Assigned(lhs[..]), []);
    AssignedRun(orig, rhs, op, run);
  }

  /**
   * `binop_assign_impl`: take the copy path iff the `rhs` element type
   * needs no dropping. Either way `lhs` ends up the same and the calls are
   * the same; on the tracked path every `rhs` element is handed to exactly
   * one call or finalised exactly once.
   */
  method BinopAssignImpl<T, U>(lhs: array<T>, rhs: seq<U>, op: (T, U) -> MutCall<T>, rhsNeedsDrop: bool)
    returns (run: AssignRun<T, U>, tracked: bool)
    requires lhs.Length == |rhs|
    modifies lhs
    ensures tracked == rhsNeedsDrop
    ensures run.outcome == AssignAll(old(lhs[..]), rhs, op)
    ensures lhs[..] == run.outcome.lhs
    ensures InIndexOrder(run.calls, old(lhs[..]), rhs, StepsInPlace(run.outcome, |rhs|))
    ensures rhsNeedsDrop ==> Rights(run.calls) + run.finalisedRhs == rhs
    ensures !tracked ==> run.finalisedRhs == []
  {
    tracked := rhsNeedsDrop;
    if !tracked {
      run := BinopAssignImplCopy(lhs, rhs, op);
    } else {
      run := BinopAssignImplDrop(lhs, rhs, op);
    }
  }

  /** The accounting of a run that unwound at its last call, from the state of the loop at that call. */
  lemma AssignUnwoundRun<T, U>(orig: seq<T>, rhs: seq<U>, op: (T, U) -> MutCall<T>, run: AssignRun<T, U>, before: seq<T>, residue: T)
    requires |orig| == |rhs| && run.outcome.UnwoundInPlace? && run.outcome.step < |orig|
    requires UpdatedUpTo(orig, rhs, op, before, run.outcome.step)
    requires op(orig[run.outcome.step], rhs[run.outcome.step]) == UnwindWith(residue)
    requires run.outcome.lhs == before[run.outcome.step := residue]
    requires InIndexOrder(run.calls, orig, rhs, run.outcome.step + 1)
    ensures run.outcome == AssignAll(orig, rhs, op)
    ensures InIndexOrder(run.calls, orig, rhs, StepsInPlace(run.outcome, |rhs|))
    ensures Rights(run.calls) + rhs[run.outcome.step + 1..] == rhs
  {
    var k, out := run.outcome.step, run.outcome.lhs;
    assert UnwoundAt(orig, rhs, op, k, out);
    AssignAllUnwound(orig, rhs, op, k, out);
    ArgumentsThenRest(run.calls, orig, rhs, k + 1);
  }

  /** The accounting of a run whose N calls all returned, from the state after the loop. */
  lemma AssignedRun<T, U>(orig: seq<T>, rhs: seq<U>, op: (T, U) -> MutCall<T>, run: AssignRun<T, U>)
    requires |orig| == |rhs| && run.outcome.Assigned?
    requires UpdatedUpTo(orig, rhs, op, run.outcome.lhs, |orig|)
    requires InIndexOrder(run.calls, orig, rhs, |orig|)
    ensures run.outcome == AssignAll(orig, rhs, op)
    ensures InIndexOrder(run.calls, orig, rhs, StepsInPlace(run.outcome, |rhs|))
    ensures Rights(run.calls) == rhs
  {
    AssignAllAssigned(orig, rhs, op, run.outcome.lhs);
    ArgumentsThenRest(run.calls, orig, rhs, |orig|);
  }

  /**
   * Run on two arrays holding the same values, the copy path and the
   * tracked path leave the same `lhs` and make the same calls.
   */
  method CopyAgreesWithTracked<T, U>(init: seq<T>, rhs: seq<U>, op: (T, U) -> MutCall<T>)
    returns (copyLhs: array<T>, trackedLhs: array<T>, copy: AssignRun<T, U>, tracked: AssignRun<T, U>)
    requires |init| == |rhs|
    ensures copyLhs[..] == trackedLhs[..]
    ensures copy.outcome == tracked.outcome
    ensures copy.calls == tracked.calls
  {
    copyLhs := new T[|init|](i requires 0 <= i < |init| => init[i]);
    trackedLhs := new T[|init|](i requires 0 <= i < |init| => init[i]);
    assert copyLhs[..] == init && trackedLhs[..] == init;
    copy := BinopAssignImplCopy(copyLhs, rhs, op);
    tracked := BinopAssignImplDrop(trackedLhs, rhs, op);
  }
}
