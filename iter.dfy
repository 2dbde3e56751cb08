/**
 * The alive-range tracking buffer of src/iter.rs.
 *
 * A `Slice` is a fixed array of N slots together with a half-open alive
 * range `start..end`. A slot holds `Some(v)` when it holds an owned,
 * initialised value and `None` when it is uninitialised; the object
 * invariant `Valid()` says that exactly the slots of the alive range are
 * initialised. The same buffer serves as a full input consumed from the
 * front (`Full`, `PopFront`) and as an empty output filled from the back
 * (`New`, `Push`); `Drop` is the destructor, which finalises the alive
 * range, and `Output` moves a completely filled buffer out without it.
 */
module Iter {

  /** The state of one storage slot: initialised with a value, or not. */
  datatype Option<T> = None | Some(value: T)

  /** Every slot of `slots` is initialised. */
  predicate AllInit<T>(slots: seq<Option<T>>)
  {
    forall i :: 0 <= i < |slots| ==> slots[i].Some?
  }

  /** `mu_array`: an owned array seen as storage whose every slot is initialised. */
  function MuArray<T>(a: seq<T>): (slots: seq<Option<T>>)
    ensures |slots| == |a|
    ensures forall i :: 0 <= i < |a| ==> slots[i] == Some(a[i])
  {
    if a == [] then [] else [Some(a[0])] + MuArray(a[1..])
  }

  /** `uninit_array`: storage of `n` slots, none of them initialised. */
  function UninitArray<T>(n: nat): (slots: seq<Option<T>>)
    ensures |slots| == n
    ensures forall i :: 0 <= i < n ==> slots[i] == None
  {
    if n == 0 then [] else UninitArray(n - 1) + [None]
  }

  /** `assume_array_init`: storage that the caller knows to be fully initialised, read as values. */
  function AssumeArrayInit<T>(slots: seq<Option<T>>): (a: seq<T>)
    requires AllInit(slots)
    ensures |a| == |slots|
    ensures forall i :: 0 <= i < |a| ==> slots[i] == Some(a[i])
  {
    if slots == [] then [] else [slots[0].value] + AssumeArrayInit(slots[1..])
  }

  /** Wrapping an array as initialised storage and reading it back gives the array. */
  lemma AssumeArrayInitOfMuArray<T>(a: seq<T>)
    ensures AllInit(MuArray(a))
    ensures AssumeArrayInit(MuArray(a)) == a
  {
  }

  /** `take`: move the value out of an initialised slot. */
  function Take<T>(slot: Option<T>): T
    requires slot.Some?
  {
    slot.value
  }

  /**
   * The storage layout of a valid Slice of capacity `n`: uninitialised
   * slots before `start`, the owned values from `start` on, uninitialised
   * slots after them.
   */
  function Layout<T>(start: nat, owned: seq<T>, n: nat): (slots: seq<Option<T>>)
    requires start + |owned| <= n
  {
    UninitArray(start) + MuArray(owned) + UninitArray(n - start - |owned|)
  }

  /** Slot `i` of a layout is initialised, with the matching owned value, iff it lies in the alive range. */
  lemma LayoutAt<T>(start: nat, owned: seq<T>, n: nat, i: nat)
    requires start + |owned| <= n && i < n
    ensures |Layout(start, owned, n)| == n
    ensures Layout(start, owned, n)[i] == if start <= i < start + |owned| then Some(owned[i - start]) else None
  {
  }

  /** Two layouts are equal when they agree slot by slot. */
  lemma LayoutExt<T>(s: seq<Option<T>>, start: nat, owned: seq<T>, n: nat)
    requires start + |owned| <= n && |s| == n
    requires forall i :: 0 <= i < n ==> s[i] == if start <= i < start + |owned| then Some(owned[i - start]) else None
    ensures s == Layout(start, owned, n)
  {
  }

  class Slice<T> {
    /** The N storage slots. The array is fixed; only its slots change. */
    const slots: array<Option<T>>
    /** The alive range is `start..end`. */
    var start: nat
    var end: nat
    /** The values the Slice owns: those in the alive range, in index order. */
    ghost var Owned: seq<T>

    /**
     * `start <= end <= N`, and the slots are initialised exactly in the
     * alive range, where they hold `Owned`.
     */
    ghost predicate Valid()
      reads this, slots
    {
      start <= end <= slots.Length &&
      |Owned| == end - start &&
      slots[..] == Layout(start, Owned, slots.Length)
    }

    /** `Slice::new`: N uninitialised slots and the empty alive range `0..0`. */
    constructor New(n: nat)
      ensures Valid() && fresh(slots)
      ensures slots.Length == n && start == 0 && end == 0
      ensures Owned == []
    {
      var storage := UninitArray<T>(n);
      slots := new Option<T>[n](i requires 0 <= i < n => storage[i]);
      start, end := 0, 0;
      Owned := [];
      new;
      LayoutExt(slots[..], 0, [], n);
    }

    /** `Slice::full`: every slot initialised with the array's value and the alive range `0..N`. */
    constructor Full(arr: seq<T>)
      ensures Valid() && fresh(slots)
      ensures slots.Length == |arr| && start == 0 && end == |arr|
      ensures slots[..] == MuArray(arr)
      ensures Owned == arr
    {
      var storage := MuArray(arr);
      slots := new Option<T>[|arr|](i requires 0 <= i < |arr| => storage[i]);
      start, end := 0, |arr|;
      Owned := arr;
      new;
      LayoutExt(slots[..], 0, arr, |arr|);
    }

    /**
     * `pop_front_unchecked`: move the front value out, leaving its slot
     * uninitialised, and advance `start`.
     */
    method PopFront() returns (front: T)
      requires Valid()
      requires start < end && start < slots.Length
      modifies this, slots
      ensures Valid()
      ensures front == old(Owned)[0] && Owned == old(Owned)[1..]
      ensures start == old(start) + 1 && end == old(end)
      ensures slots[..] == old(slots[..])[old(start) := None]
    {
      LayoutAt(start, Owned, slots.Length, start);
      front := Take(slots[start]);
      slots[start] := None;
      start := start + 1;
      Owned := Owned[1..];
      forall i | 0 <= i < slots.Length
        ensures slots[i] == if start <= i < start + |Owned| then Some(Owned[i - start]) else None
      {
        LayoutAt(old(start), old(Owned), slots.Length, i);
      }
      LayoutExt(slots[..], start, Owned, slots.Length);
    }

    /** `push_unchecked`: write `value` into the slot at `end` and advance `end`. */
    method Push(value: T)
      requires Valid()
      requires end < slots.Length
      modifies this, slots
      ensures Valid()
      ensures Owned == old(Owned) + [value]
      ensures start == old(start) && end == old(end) + 1
      ensures slots[..] == old(slots[..])[old(end) := Some(value)]
    {
      slots[end] := Some(value);
      end := end + 1;
      Owned := Owned + [value];
      forall i | 0 <= i < slots.Length
        ensures slots[i] == if start <= i < start + |Owned| then Some(Owned[i - start]) else None
      {
        LayoutAt(start, old(Owned), slots.Length, i);
      }
      LayoutExt(slots[..], start, Owned, slots.Length);
    }

    /**
     * `output`: move all N values out of a completely filled Slice. The
     * destructor is disarmed, which the model states as the Slice owning
     * nothing afterwards: a later `Drop` would finalise no value.
     */
    method Output() returns (out: seq<T>)
      requires Valid()
      requires start == 0 && end == slots.Length
      modifies this, slots
      ensures out == old(Owned) && |out| == slots.Length
      ensures old(slots[..]) == MuArray(out)
      ensures Valid() && start == end == old(end) && Owned == []
    {
      assert slots[..] == MuArray(Owned);
      AssumeArrayInitOfMuArray(Owned);
      out := AssumeArrayInit(slots[..]);
      forall i | 0 <= i < slots.Length {
        slots[i] := None;
      }
      start := end;
      Owned := [];
      LayoutExt(slots[..], start, Owned, slots.Length);
    }

    /**
     * The destructor: finalise every value in the alive range, in index
     * order, once each. It returns the finalised values in the order they
     * are finalised and leaves the Slice owning nothing.
     */
    method Drop() returns (finalised: seq<T>)
      requires Valid()
      modifies this, slots
      ensures finalised == old(Owned)
      ensures Valid() && start == end == old(end) && Owned == []
    {
      finalised := [];
      while start < end
        invariant Valid()
        invariant old(start) <= start <= end == old(end)
        invariant finalised + Owned == old(Owned)
        decreases end - start
      {
        ghost var owned := Owned;
        var v := PopFront();
        assert owned == [v] + Owned;
        finalised := finalised + [v];
      }
    }

    /** A valid Slice whose alive range is empty holds no initialised slot. */
    lemma OwnsNothing()
      requires Valid() && start == end
      ensures slots[..] == UninitArray(slots.Length)
    {
    }
  }
}
