/**
 * The elementwise binary operation of src/simple.rs.
 *
 * `BinopImpl` chooses between a tracked path (`BinopImplDrop`), which
 * moves every element through a `Slice` so that an unwinding combining
 * function leaves nothing leaked and nothing finalised twice, and an
 * untracked copy path (`BinopImplCopy`), taken only when none of the
 * three element types needs dropping. Both are proved against the
 * reference definition `Apply`.
 */
module Simple {
  import opened Iter
  import opened Calls

  /** How an elementwise operation ends: with all N outputs, or unwinding out of the call at `step`. */
  datatype Outcome<O> = Completed(output: seq<O>) | Unwound(step: nat)

  /** The values finalised by the operation itself, per buffer, in the order they were finalised. */
  datatype Finalised<T, U, O> = Finalised(lhs: seq<T>, rhs: seq<U>, out: seq<O>)

  /** One run of an operation: the arguments of every call of `op` in call order, the outcome and what was finalised. */
  datatype Run<T, U, O> = Run(calls: seq<(T, U)>, outcome: Outcome<O>, finalised: Finalised<T, U, O>)

  /** Reference definition: combine the two arrays front to back, stopping at the first call that unwinds. */
  function Apply<T, U, O>(lhs: seq<T>, rhs: seq<U>, op: (T, U) -> Call<O>): (r: Outcome<O>)
    requires |lhs| == |rhs|
    ensures r.Completed? ==> |r.output| == |lhs|
    ensures r.Unwound? ==> r.step < |lhs|
  {
    if lhs == [] then Completed([])
    else
      match op(lhs[0], rhs[0])
      case Unwind => Unwound(0)
      case Return(v) =>
        match Apply(lhs[1..], rhs[1..], op)
        case Completed(out) => Completed([v] + out)
        case Unwound(k) => Unwound(k + 1)
  }

  /** `produced` holds, in order, the values returned by the calls on the first `|produced|` index pairs. */
  ghost predicate Produced<T, U, O>(lhs: seq<T>, rhs: seq<U>, op: (T, U) -> Call<O>, produced: seq<O>)
  {
    |produced| <= |lhs| && |produced| <= |rhs| &&
    forall j :: 0 <= j < |produced| ==> op(lhs[j], rhs[j]) == Return(produced[j])
  }

  /** A returning call on the next index pair extends what was produced. */
  lemma ProducedNext<T, U, O>(lhs: seq<T>, rhs: seq<U>, op: (T, U) -> Call<O>, produced: seq<O>, v: O)
    requires Produced(lhs, rhs, op, produced)
    requires |produced| < |lhs| && |produced| < |rhs|
    requires op(lhs[|produced|], rhs[|produced|]) == Return(v)
    ensures Produced(lhs, rhs, op, produced + [v])
  {
  }

  /** How many calls of `op` an operation over N elements makes before it ends this way. */
  function Steps<O>(outcome: Outcome<O>, n: nat): nat
  {
    match outcome
    case Completed(_) => n
    case Unwound(step) => step + 1
  }

  /** The operation completes with `out` iff every call returns and `out[i]` is what `op(lhs[i], rhs[i])` returned. */
  lemma {:induction false} ApplyCompleted<T, U, O>(lhs: seq<T>, rhs: seq<U>, op: (T, U) -> Call<O>, out: seq<O>)
    requires |lhs| == |rhs|
    ensures Apply(lhs, rhs, op) == Completed(out) <==>
      |out| == |lhs| && forall i :: 0 <= i < |lhs| ==> op(lhs[i], rhs[i]) == Return(out[i])
  {
    if lhs != [] {
      var c := op(lhs[0], rhs[0]);
      if c.Return? && out != [] {
        ApplyCompleted(lhs[1..], rhs[1..], op, out[1..]);
        if |out| == |lhs| && forall i :: 0 <= i < |lhs| ==> op(lhs[i], rhs[i]) == Return(out[i]) {
          forall i | 0 <= i < |lhs| - 1
            ensures op(lhs[1..][i], rhs[1..][i]) == Return(out[1..][i])
          {
            assert op(lhs[i + 1], rhs[i + 1]) == Return(out[i + 1]);
          }
          assert out == [out[0]] + out[1..];
        }
      }
    }
  }

  /** The operation unwinds at `k` iff the calls before `k` return and the call at `k` unwinds. */
  lemma {:induction false} ApplyUnwound<T, U, O>(lhs: seq<T>, rhs: seq<U>, op: (T, U) -> Call<O>, k: nat)
    requires |lhs| == |rhs|
    ensures Apply(lhs, rhs, op) == Unwound(k) <==>
      k < |lhs| && op(lhs[k], rhs[k]) == Unwind && forall i :: 0 <= i < k ==> op(lhs[i], rhs[i]).Return?
  {
    if lhs != [] && k > 0 {
      ApplyUnwound(lhs[1..], rhs[1..], op, k - 1);
      if k < |lhs| && op(lhs[k], rhs[k]) == Unwind && forall i :: 0 <= i < k ==> op(lhs[i], rhs[i]).Return? {
        assert op(lhs[0], rhs[0]).Return?;
        forall i | 0 <= i < k - 1
          ensures op(lhs[1..][i], rhs[1..][i]).Return?
        {
          assert op(lhs[i + 1], rhs[i + 1]).Return?;
        }
      }
    }
  }

  /** For a combining function that never unwinds, the result is `f(lhs[i], rhs[i])` at every index. */
  lemma ApplyTotal<T, U, O>(lhs: seq<T>, rhs: seq<U>, f: (T, U) -> O)
    requires |lhs| == |rhs|
    ensures Apply(lhs, rhs, (l, r) => Return(f(l, r))) ==
      Completed(seq(|lhs|, i requires 0 <= i < |lhs| => f(lhs[i], rhs[i])))
  {
    ApplyCompleted(lhs, rhs, (l, r) => Return(f(l, r)), seq(|lhs|, i requires 0 <= i < |lhs| => f(lhs[i], rhs[i])));
  }

  /**
   * `binop_impl_drop`: the tracked path. `lhs` and `rhs` become full
   * Slices, the output an empty one; each of the N steps pops one value
   * from each input, calls `op` and pushes the result.
   *
   * If the call at step `k` unwinds, the two arguments belong to the failed
   * call and the Slices finalise what they still own: inputs `k+1..N` and
   * outputs `0..k`. The ensures state that every input element goes to
   * exactly one call or is finalised exactly once, and that exactly the
   * outputs already produced are finalised.
   */
  method BinopImplDrop<T, U, O>(lhs: seq<T>, rhs: seq<U>, op: (T, U) -> Call<O>) returns (run: Run<T, U, O>)
    requires |lhs| == |rhs|
    ensures run.outcome == Apply(lhs, rhs, op)
    ensures InIndexOrder(run.calls, lhs, rhs, Steps(run.outcome, |lhs|))
    ensures Lefts(run.calls) + run.finalised.lhs == lhs
    ensures Rights(run.calls) + run.finalised.rhs == rhs
    ensures run.outcome.Completed? ==> run.finalised.out == []
    ensures run.outcome.Unwound? ==>
      |run.finalised.out| == run.outcome.step && Produced(lhs, rhs, op, run.finalised.out)
  {
    var n := |lhs|;
    var lhsSlice := new Slice<T>.Full(lhs);
    var rhsSlice := new Slice<U>.Full(rhs);
    var output := new Slice<O>.New(n);
    var calls: seq<(T, U)> := [];
    ghost var produced: seq<O> := [];
    for i := 0 to n
      invariant Distinct(lhsSlice, rhsSlice, output)
      invariant lhsSlice.Valid()
      invariant rhsSlice.Valid()
      invariant output.Valid()
      invariant lhsSlice.start == i && lhsSlice.end == n
      invariant lhsSlice.Owned == lhs[i..]
      invariant rhsSlice.start == i && rhsSlice.end == n
      invariant rhsSlice.Owned == rhs[i..]
      invariant output.start == 0 && output.end == i && output.slots.Length == n
      invariant output.Owned == produced
      invariant InIndexOrder(calls, lhs, rhs, i)
      invariant |produced| == i && Produced(lhs, rhs, op, produced)
    {
      var l, r, c := Step(lhsSlice, rhsSlice, output, op);
      assert l == lhs[i] && r == rhs[i];
      InIndexOrderNext(calls, lhs, rhs, i);
      calls := calls + [(l, r)];
      if c.Unwind? {
        // `l` and `r` now belong to the failed call.
        var finalised := Unwinding(lhsSlice, rhsSlice, output);
        run := Run(calls, Unwound(i), finalised);
        UnwoundRun(lhs, rhs, op, run, produced);
        return;
      }
      ProducedNext(lhs, rhs, op, produced, c.value);
      produced := produced + [c.value];
    }
    var out, finalised := Completion(lhsSlice, rhsSlice, output);
    run := Run(calls, Completed(out), finalised);
    CompletedRun(lhs, rhs, op, run);
  }

  lemma UnwoundRun<T, U, O>(lhs: seq<T>, rhs: seq<U>, op: (T, U) -> Call<O>, run: Run<T, U, O>, produced: seq<O>)
    requires |lhs| == |rhs| && run.outcome.Unwound?
    requires InIndexOrder(run.calls, lhs, rhs, run.outcome.step + 1)
    requires |produced| == run.outcome.step && Produced(lhs, rhs, op, produced)
    requires op(lhs[run.outcome.step], rhs[run.outcome.step]) == Unwind
    requires run.finalised == Finalised(lhs[run.outcome.step + 1..], rhs[run.outcome.step + 1..], produced)
    ensures run.outcome == Apply(lhs, rhs, op)
    ensures InIndexOrder(run.calls, lhs, rhs, Steps(run.outcome, |lhs|))
    ensures Lefts(run.calls) + run.finalised.lhs == lhs
    ensures Rights(run.calls) + run.finalised.rhs == rhs
    ensures |run.finalised.out| == run.outcome.step && Produced(lhs, rhs, op, run.finalised.out)
  {
    ApplyUnwound(lhs, rhs, op, run.outcome.step);
    ArgumentsThenRest(run.calls, lhs, rhs, run.outcome.step + 1);
  }

  lemma CompletedRun<T, U, O>(lhs: seq<T>, rhs: seq<U>, op: (T, U) -> Call<O>, run: Run<T, U, O>)
    requires |lhs| == |rhs| && run.outcome.Completed?
    requires InIndexOrder(run.calls, lhs, rhs, |lhs|)
    requires Produced(lhs, rhs, op, run.outcome.output) && |run.outcome.output| == |lhs|
    requires run.finalised == Finalised([], [], [])
    ensures run.outcome == Apply(lhs, rhs, op)
    ensures InIndexOrder(run.calls, lhs, rhs, Steps(run.outcome, |lhs|))
    ensures Lefts(run.calls) + run.finalised.lhs == lhs
    ensures Rights(run.calls) + run.finalised.rhs == rhs
  {
    ApplyCompleted(lhs, rhs, op, run.outcome.output);
    ArgumentsThenRest(run.calls, lhs, rhs, |lhs|);
  }

  /** The three Slices of `binop_impl_drop` share no object. */
  ghost predicate Distinct<T, U, O>(lhsSlice: Slice<T>, rhsSlice: Slice<U>, output: Slice<O>)
  {
    lhsSlice as object != rhsSlice && lhsSlice as object != output && rhsSlice as object != output &&
    lhsSlice.slots as object != rhsSlice.slots && lhsSlice.slots as object != output.slots &&
    rhsSlice.slots as object != output.slots
  }

  /**
   * One iteration of the loop of `binop_impl_drop`: pop the front value of
   * each input Slice, call `op` on them and, if the call returns, push its
   * result onto the output Slice. If the call unwinds, both values have
   * been moved into it and nothing is pushed.
   */
  method Step<T, U, O>(lhsSlice: Slice<T>, rhsSlice: Slice<U>, output: Slice<O>, op: (T, U) -> Call<O>)
    returns (l: T, r: U, c: Call<O>)
    requires Distinct(lhsSlice, rhsSlice, output)
    requires lhsSlice.Valid() && rhsSlice.Valid() && output.Valid()
    requires lhsSlice.start < lhsSlice.end && rhsSlice.start < rhsSlice.end
    requires output.end < output.slots.Length
    modifies lhsSlice, lhsSlice.slots, rhsSlice, rhsSlice.slots, output, output.slots
    ensures lhsSlice.Valid() && rhsSlice.Valid() && output.Valid()
    ensures l == old(lhsSlice.Owned)[0] && lhsSlice.Owned == old(lhsSlice.Owned)[1..]
    ensures lhsSlice.start == old(lhsSlice.start) + 1 && lhsSlice.end == old(lhsSlice.end)
    ensures r == old(rhsSlice.Owned)[0] && rhsSlice.Owned == old(rhsSlice.Owned)[1..]
    ensures rhsSlice.start == old(rhsSlice.start) + 1 && rhsSlice.end == old(rhsSlice.end)
    ensures c == op(l, r)
    ensures output.start == old(output.start)
    ensures c.Return? ==> output.Owned == old(output.Owned) + [c.value] && output.end == old(output.end) + 1
    ensures c.Unwind? ==> output.Owned == old(output.Owned) && output.end == old(output.end)
  {
    l := lhsSlice.PopFront();
    r := rhsSlice.PopFront();
    c := op(l, r);
    if c.Return? {
      output.Push(c.value);
    }
  }

  /**
   * The unwinding out of `binop_impl_drop`: its three Slices are dropped in
   * reverse order of declaration, each finalising what it still owns.
   */
  method Unwinding<T, U, O>(lhsSlice: Slice<T>, rhsSlice: Slice<U>, output: Slice<O>) returns (finalised: Finalised<T, U, O>)
    requires Distinct(lhsSlice, rhsSlice, output)
    requires lhsSlice.Valid() && rhsSlice.Valid() && output.Valid()
    modifies lhsSlice, lhsSlice.slots, rhsSlice, rhsSlice.slots, output, output.slots
    ensures finalised == Finalised(old(lhsSlice.Owned), old(rhsSlice.Owned), old(output.Owned))
  {
    var outFinalised := output.Drop();
    var rhsFinalised := rhsSlice.Drop();
    var lhsFinalised := lhsSlice.Drop();
    finalised := Finalised(lhsFinalised, rhsFinalised, outFinalised);
  }

  /**
   * The normal end of `binop_impl_drop`: the filled output Slice is moved
   * out with `output`, so its destructor does not run, and the two input
   * Slices, now empty, are dropped.
   */
  method Completion<T, U, O>(lhsSlice: Slice<T>, rhsSlice: Slice<U>, output: Slice<O>)
    returns (out: seq<O>, finalised: Finalised<T, U, O>)
    requires Distinct(lhsSlice, rhsSlice, output)
    requires lhsSlice.Valid() && rhsSlice.Valid() && output.Valid()
    requires output.start == 0 && output.end == output.slots.Length
    modifies lhsSlice, lhsSlice.slots, rhsSlice, rhsSlice.slots, output, output.slots
    ensures out == old(output.Owned)
    ensures finalised == Finalised(old(lhsSlice.Owned), old(rhsSlice.Owned), [])
  {
    out := output.Output();
    var rhsFinalised := rhsSlice.Drop();
    var lhsFinalised := lhsSlice.Drop();
    finalised := Finalised(lhsFinalised, rhsFinalised, []);
  }

  /**
   * `binop_impl_copy`: the untracked path, for element types that need no
   * dropping. Elements are copied out of the inputs, results are written
   * into uninitialised storage, and the storage is read as an array only
   * after all N slots have been written. Nothing is finalised.
   */
  method BinopImplCopy<T, U, O>(lhs: seq<T>, rhs: seq<U>, op: (T, U) -> Call<O>) returns (run: Run<T, U, O>)
    requires |lhs| == |rhs|
    ensures run.outcome == Apply(lhs, rhs, op)
    ensures InIndexOrder(run.calls, lhs, rhs, Steps(run.outcome, |lhs|))
    ensures run.finalised == Finalised([], [], [])
  {
    var n := |lhs|;
    var storage := UninitArray<O>(n);
    var output := new Option<O>[n](i requires 0 <= i < n => storage[i]);
    var calls: seq<(T, U)> := [];
    for i := 0 to n
      invariant InIndexOrder(calls, lhs, rhs, i)
      invariant forall j :: 0 <= j < i ==> op(lhs[j], rhs[j]).Return? && output[j] == Some(op(lhs[j], rhs[j]).value)
      invariant forall j :: i <= j < n ==> output[j] == None
    {
      var l := lhs[i];
      var r := rhs[i];
      calls := calls + [(l, r)];
      var c := op(l, r);
      if c.Unwind? {
        ApplyUnwound(lhs, rhs, op, i);
        return Run(calls, Unwound(i), Finalised([], [], []));
      }
      output[i] := Some(c.value);
    }
    assert AllInit(output[..]);
    var out := AssumeArrayInit(output[..]);
    ApplyCompleted(lhs, rhs, op, out);
    run := Run(calls, Completed(out), Finalised([], [], []));
  }

  /**
   * `binop_impl`: take the copy path iff none of the three element types
   * needs dropping. Either way the outcome and the calls are the same;
   * for each element type that needs dropping, every element is handed
   * to exactly one call or finalised exactly once.
   */
  method BinopImpl<T, U, O>(lhs: seq<T>, rhs: seq<U>, op: (T, U) -> Call<O>,
                            lhsNeedsDrop: bool, rhsNeedsDrop: bool, outNeedsDrop: bool)
    returns (run: Run<T, U, O>, tracked: bool)
    requires |lhs| == |rhs|
    ensures tracked <==> lhsNeedsDrop || rhsNeedsDrop || outNeedsDrop
    ensures run.outcome == Apply(lhs, rhs, op)
    ensures InIndexOrder(run.calls, lhs, rhs, Steps(run.outcome, |lhs|))
    ensures lhsNeedsDrop ==> Lefts(run.calls) + run.finalised.lhs == lhs
    ensures rhsNeedsDrop ==> Rights(run.calls) + run.finalised.rhs == rhs
    ensures outNeedsDrop && run.outcome.Unwound? ==>
      |run.finalised.out| == run.outcome.step && Produced(lhs, rhs, op, run.finalised.out)
    ensures run.outcome.Completed? ==> run.finalised.out == []
    ensures !tracked ==> run.finalised == Finalised([], [], [])
  {
    tracked := lhsNeedsDrop || rhsNeedsDrop || outNeedsDrop;
    if !tracked {
      run := BinopImplCopy(lhs, rhs, op);
    } else {
      run := BinopImplDrop(lhs, rhs, op);
    }
  }

  /**
   * The copy path and the tracked path compute the same outcome through
   * the same calls; they differ only in what they finalise.
   */
  method CopyAgreesWithTracked<T, U, O>(lhs: seq<T>, rhs: seq<U>, op: (T, U) -> Call<O>)
    returns (copy: Run<T, U, O>, tracked: Run<T, U, O>)
    requires |lhs| == |rhs|
    ensures copy.outcome == tracked.outcome
    ensures copy.calls == tracked.calls
  {
    copy := BinopImplCopy(lhs, rhs, op);
    tracked := BinopImplDrop(lhs, rhs, op);
  }
}
