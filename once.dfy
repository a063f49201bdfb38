/**
 * once(f): a wrapper that calls f until f first returns, and hands every
 * later caller the value that call stored.  The captured slot is empty until
 * a call of f returns; a call of f that throws leaves it empty, so the next
 * call of the wrapper runs f again.  Once filled, the slot is never emptied.
 *
 * f is modelled as a function to Result: Success(v) is f returning v,
 * Failure(e) is f throwing e before returning.  The wrapper is itself async,
 * so a throw reaches its caller as a rejected promise, modelled as the same
 * Failure(e).
 */
module Latch {
  import opened Wrappers

  /** What one call of the wrapper does: the new slot, the value returned, and whether f ran. */
  datatype Step<R, E> = Step(slot: Option<R>, result: Result<R, E>, invoked: bool)

  /** One call of the wrapper with context ctx. */
  function CallStep<C, R, E>(slot: Option<R>, f: C -> Result<R, E>, ctx: C): (s: Step<R, E>)
    ensures s.invoked <==> slot.None?
    ensures slot.Some? ==> s.slot == slot && s.result == Success(slot.value)
    ensures slot.None? ==> s.result == f(ctx)
    ensures s.slot.Some? <==> s.result.Success?
    ensures s.slot.Some? ==> s.result == Success(s.slot.value)
  {
    if slot.Some? then Step(slot, Success(slot.value), false)
    else
      match f(ctx)
      case Success(v) => Step(Some(v), Success(v), true)
      case Failure(e) => Step(None, Failure(e), true)
  }

  /** The effect of a sequence of calls: the final slot, each call's value, and how often f ran. */
  datatype Run<R, E> = Run(slot: Option<R>, results: seq<Result<R, E>>, invocations: nat)

  function Calls<C, R, E>(slot: Option<R>, f: C -> Result<R, E>, ctxs: seq<C>): (r: Run<R, E>)
    ensures |r.results| == |ctxs|
    decreases |ctxs|
  {
    if ctxs == [] then Run(slot, [], 0)
    else
      var s := CallStep(slot, f, ctxs[0]);
      var rest := Calls(s.slot, f, ctxs[1..]);
      Run(rest.slot, [s.result] + rest.results, rest.invocations + (if s.invoked then 1 else 0))
  }

  /** Once filled, the slot keeps its value: later calls return it and never run f. */
  lemma {:induction false} FilledStaysFilled<C, R, E>(v: R, f: C -> Result<R, E>, ctxs: seq<C>)
    ensures Calls(Some(v), f, ctxs).slot == Some(v)
    ensures Calls(Some(v), f, ctxs).invocations == 0
    ensures forall i :: 0 <= i < |ctxs| ==> Calls(Some(v), f, ctxs).results[i] == Success(v)
  {
    if ctxs != [] {
      FilledStaysFilled(v, f, ctxs[1..]);
    }
  }

  /**
   * From an empty slot, when call k is the first whose f returns: f runs on
   * calls 0..k, each failing call hands back its own failure, and call k and
   * every later call return call k's value.
   */
  lemma {:induction false} CallsFromEmpty<C, R, E>(f: C -> Result<R, E>, ctxs: seq<C>, k: nat)
    requires k < |ctxs| && f(ctxs[k]).Success?
    requires forall i :: 0 <= i < k ==> f(ctxs[i]).Failure?
    ensures Calls(None, f, ctxs).invocations == k + 1
    ensures Calls(None, f, ctxs).slot == Some(f(ctxs[k]).value)
    ensures forall i :: 0 <= i < k ==> Calls(None, f, ctxs).results[i] == f(ctxs[i])
    ensures forall i :: k <= i < |ctxs| ==> Calls(None, f, ctxs).results[i] == f(ctxs[k])
  {
    if k == 0 {
      FilledStaysFilled(f(ctxs[0]).value, f, ctxs[1..]);
    } else {
      var rest := ctxs[1..];
      forall i | 0 <= i < k - 1 ensures f(rest[i]).Failure? {
        assert rest[i] == ctxs[i + 1];
      }
      CallsFromEmpty(f, rest, k - 1);
      forall i | 1 <= i < |ctxs| ensures Calls(None, f, ctxs).results[i] == Calls(None, f, rest).results[i - 1] {
      }
    }
  }

  /** From an empty slot, calls whose f all throw run f every time and leave the slot empty. */
  lemma {:induction false} CallsAllFail<C, R, E>(f: C -> Result<R, E>, ctxs: seq<C>)
    requires forall i :: 0 <= i < |ctxs| ==> f(ctxs[i]).Failure?
    ensures Calls(None, f, ctxs).invocations == |ctxs|
    ensures Calls(None, f, ctxs).slot == None
    ensures forall i :: 0 <= i < |ctxs| ==> Calls(None, f, ctxs).results[i] == f(ctxs[i])
  {
    if ctxs != [] {
      var rest := ctxs[1..];
      forall i | 0 <= i < |rest| ensures f(rest[i]).Failure? {
        assert rest[i] == ctxs[i + 1];
      }
      CallsAllFail(f, rest);
      forall i | 1 <= i < |ctxs| ensures Calls(None, f, ctxs).results[i] == Calls(None, f, rest).results[i - 1] {
      }
    }
  }

  /** The stateful wrapper returned by once(f). */
  class Once<C, R, E> {
    const wrapped: C -> Result<R, E>
    var slot: Option<R>
    /** The contexts the wrapped function has been called with, in order. */
    ghost var invocations: seq<C>

    /** Every call of f but the last threw; the slot holds the last one's value when it returned. */
    ghost predicate Valid()
      reads this
    {
      && (forall i :: 0 <= i < |invocations| - 1 ==> wrapped(invocations[i]).Failure?)
      && (slot.Some? <==> |invocations| > 0 && wrapped(invocations[|invocations| - 1]).Success?)
      && (slot.Some? ==> wrapped(invocations[|invocations| - 1]) == Success(slot.value))
    }

    constructor (f: C -> Result<R, E>)
      ensures Valid() && wrapped == f && slot.None? && invocations == []
    {
      wrapped := f;
      slot := None;
      invocations := [];
    }

    method Call(ctx: C) returns (r: Result<R, E>)
      requires Valid()
      modifies this
      ensures Valid()
      ensures Step(slot, r, invocations != old(invocations)) == CallStep(old(slot), wrapped, ctx)
      ensures old(slot).None? ==> invocations == old(invocations) + [ctx]
      ensures old(slot).Some? ==> invocations == old(invocations)
    {
      if slot.None? {
        r := wrapped(ctx);
        invocations := invocations + [ctx];
        if r.Success? {
          slot := Some(r.value);
        }
      } else {
        r := Success(slot.value);
      }
    }
  }
}
