/**
 * The tracing executor used by the executor tests: it wraps a target executor,
 * forwards every call to it, and keeps a trace of all calls in which executor
 * values are identified by integer indexes handed out from 1 upwards.
 *
 * The target executor is not modelled. Each operation takes the target's
 * answer as a parameter: a function from the request forwarded to the target
 * to the target's value, or the error the target raised.
 */
module Tracing {
  import opened Wrappers
  import opened Types

  /** An item that may carry a name, as an element of an anonymous tuple does. */
  datatype Named<+X> = Named(name: Option<string>, item: X)

  /** A call forwarded to the target executor, in the target's own values `H`. */
  datatype Request<V, H> =
    | CreateValueRequest(value: V, typeSpec: Option<Type>)
    | CreateCallRequest(fn: H, arg: Option<H>)
    | CreateTupleRequest(elements: seq<Named<H>>)
    | CreateSelectionRequest(source: H, index: Option<int>, name: Option<string>)

  /** What a selection entry records: the index when one was given, otherwise the name, which may be absent too. */
  datatype Selector = ByIndex(index: int) | ByName(name: Option<string>)

  /**
   * One trace entry. Each variant is one shape of record the executor appends;
   * the last field of every variant is the index of the value the call
   * returned (for `Computed`, of the value that was computed).
   */
  datatype Entry<V, R> =
    | ValueCreated(value: V, index: nat)
    | TypedValueCreated(value: V, typeSpec: Type, index: nat)
    | CallCreated(fn: nat, index: nat)
    | CallWithArgCreated(fn: nat, arg: nat, index: nat)
    | TupleCreated(elements: seq<Named<nat>>, index: nat)
    | SelectionCreated(source: nat, selector: Selector, index: nat)
    | Computed(index: nat, result: R)

  /** The indices allocated by the calls a trace records, in order; `Computed` entries allocate none. */
  function Allocated<V, R>(trace: seq<Entry<V, R>>): seq<nat>
  {
    if trace == [] then []
    else
      var last := trace[|trace| - 1];
      Allocated(trace[..|trace| - 1]) + (if last.Computed? then [] else [last.index])
  }

  /** The first `n` indices: 1, 2, ..., n. */
  function Indices(n: nat): (s: seq<nat>)
    ensures |s| == n
    ensures forall k :: 0 <= k < n ==> s[k] == k + 1
  {
    if n == 0 then [] else Indices(n - 1) + [n]
  }

  lemma AllocatedAppend<V, R>(trace: seq<Entry<V, R>>, e: Entry<V, R>)
    ensures Allocated(trace + [e]) == Allocated(trace) + (if e.Computed? then [] else [e.index])
  {
    assert (trace + [e])[..|trace|] == trace;
  }

  /**
   * In a trace whose allocated indices are 1..n, the indices are strictly
   * increasing, each is in 1..n, and the next one, n + 1, has not been used.
   */
  lemma AllocatedIndicesAreFresh<V, R>(trace: seq<Entry<V, R>>, n: nat)
    requires Allocated(trace) == Indices(n)
    ensures forall i, j :: 0 <= i < j < |Allocated(trace)| ==> Allocated(trace)[i] < Allocated(trace)[j]
    ensures forall k :: k in Allocated(trace) <==> 1 <= k <= n
    ensures n + 1 !in Allocated(trace)
  {
    forall k | 1 <= k <= n ensures k in Allocated(trace) {
      assert Allocated(trace)[k - 1] == k;
    }
  }

  /** The elements of an anonymous tuple with each value replaced by its target value. */
  function TargetValues<V, H, R>(elements: seq<Named<TracingValue<V, H, R>>>): (r: seq<Named<H>>)
    ensures |r| == |elements|
    ensures forall i :: 0 <= i < |elements| ==>
      r[i].name == elements[i].name && r[i].item == elements[i].item.value
  {
    if elements == [] then []
    else [Named(elements[0].name, elements[0].item.value)] + TargetValues(elements[1..])
  }

  /** The elements of an anonymous tuple with each value replaced by its index. */
  function TraceIndices<V, H, R>(elements: seq<Named<TracingValue<V, H, R>>>): (r: seq<Named<nat>>)
    ensures |r| == |elements|
    ensures forall i :: 0 <= i < |elements| ==>
      r[i].name == elements[i].name && r[i].item == elements[i].item.index
  {
    if elements == [] then []
    else [Named(elements[0].name, elements[0].item.index)] + TraceIndices(elements[1..])
  }

  class TracingExecutor<V, H, R> {
    var lastUsedIndex: nat
    var trace: seq<Entry<V, R>>

    /** The calls recorded so far allocated exactly the indices 1, 2, ..., lastUsedIndex, in that order. */
    ghost predicate Valid()
      reads this
    {
      Allocated(trace) == Indices(lastUsedIndex)
    }

    constructor ()
      ensures Valid()
      ensures lastUsedIndex == 0 && trace == []
    {
      lastUsedIndex := 0;
      trace := [];
    }

    /** Hands out the index after the last one used. */
    method NewValueIndex() returns (index: nat)
      modifies this`lastUsedIndex
      ensures index == old(lastUsedIndex) + 1
      ensures lastUsedIndex == index
    {
      index := lastUsedIndex + 1;
      lastUsedIndex := index;
    }

    /** Records `e` for a call that has just allocated index `lastUsedIndex`. */
    method Record(e: Entry<V, R>)
      requires lastUsedIndex >= 1 && Allocated(trace) == Indices(lastUsedIndex - 1)
      requires !e.Computed? && e.index == lastUsedIndex
      modifies this`trace
      ensures Valid()
      ensures trace == old(trace) + [e]
    {
      AllocatedAppend(trace, e);
      trace := trace + [e];
    }

    method CreateValue(value: V, typeSpec: Option<Type>, target: Request<V, H> -> Result<H>)
      returns (r: Result<TracingValue<V, H, R>>)
      requires Valid()
      modifies this
      ensures Valid()
      ensures var answer := target(CreateValueRequest(value, typeSpec));
        if answer.Err? then
          r == Err(answer.error) && lastUsedIndex == old(lastUsedIndex) && trace == old(trace)
        else
          r.Ok? && fresh(r.value) && r.value.owner == this && r.value.value == answer.value &&
          r.value.index == lastUsedIndex == old(lastUsedIndex) + 1 &&
          trace == old(trace) + [if typeSpec.Some? then TypedValueCreated(value, typeSpec.value, lastUsedIndex)
                                 else ValueCreated(value, lastUsedIndex)]
    {
      var answer := target(CreateValueRequest(value, typeSpec));
      if answer.Err? {
        return Err(answer.error);
      }
      var index := NewValueIndex();
      var wrapped := new TracingValue(this, index, answer.value);
      if typeSpec.Some? {
        Record(TypedValueCreated(value, typeSpec.value, wrapped.index));
      } else {
        Record(ValueCreated(value, wrapped.index));
      }
      r := Ok(wrapped);
    }

    method CreateCall(comp: TracingValue<V, H, R>, arg: Option<TracingValue<V, H, R>>,
                      target: Request<V, H> -> Result<H>)
      returns (r: Result<TracingValue<V, H, R>>)
      requires Valid()
      modifies this
      ensures Valid()
      ensures var answer := target(CreateCallRequest(comp.value, if arg.Some? then Some(arg.value.value) else None));
        if answer.Err? then
          r == Err(answer.error) && lastUsedIndex == old(lastUsedIndex) && trace == old(trace)
        else
          r.Ok? && fresh(r.value) && r.value.owner == this && r.value.value == answer.value &&
          r.value.index == lastUsedIndex == old(lastUsedIndex) + 1 &&
          trace == old(trace) + [if arg.Some? then CallWithArgCreated(comp.index, arg.value.index, lastUsedIndex)
                                 else CallCreated(comp.index, lastUsedIndex)]
    {
      if arg.Some? {
        var answer := target(CreateCallRequest(comp.value, Some(arg.value.value)));
        if answer.Err? {
          return Err(answer.error);
        }
        var index := NewValueIndex();
        var wrapped := new TracingValue(this, index, answer.value);
        Record(CallWithArgCreated(comp.index, arg.value.index, wrapped.index));
        r := Ok(wrapped);
      } else {
        var answer := target(CreateCallRequest(comp.value, None));
        if answer.Err? {
          return Err(answer.error);
        }
        var index := NewValueIndex();
        var wrapped := new TracingValue(this, index, answer.value);
        Record(CallCreated(comp.index, wrapped.index));
        r := Ok(wrapped);
      }
    }

    method CreateTuple(elements: seq<Named<TracingValue<V, H, R>>>, target: Request<V, H> -> Result<H>)
      returns (r: Result<TracingValue<V, H, R>>)
      requires Valid()
      modifies this
      ensures Valid()
      ensures var answer := target(CreateTupleRequest(TargetValues(elements)));
        if answer.Err? then
          r == Err(answer.error) && lastUsedIndex == old(lastUsedIndex) && trace == old(trace)
        else
          r.Ok? && fresh(r.value) && r.value.owner == this && r.value.value == answer.value &&
          r.value.index == lastUsedIndex == old(lastUsedIndex) + 1 &&
          trace == old(trace) + [TupleCreated(TraceIndices(elements), lastUsedIndex)]
    {
      var answer := target(CreateTupleRequest(TargetValues(elements)));
      if answer.Err? {
        return Err(answer.error);
      }
      var index := NewValueIndex();
      var wrapped := new TracingValue(this, index, answer.value);
      Record(TupleCreated(TraceIndices(elements), wrapped.index));
      r := Ok(wrapped);
    }

    /** Only forwards to the target, which is not modelled: the trace and the counter stay as they are. */
    method Close()
      ensures lastUsedIndex == old(lastUsedIndex) && trace == old(trace)
    {
    }

    method CreateSelection(source: TracingValue<V, H, R>, index: Option<int>, name: Option<string>,
                           target: Request<V, H> -> Result<H>)
      returns (r: Result<TracingValue<V, H, R>>)
      requires Valid()
      modifies this
      ensures Valid()
      ensures var answer := target(CreateSelectionRequest(source.value, index, name));
        if answer.Err? then
          r == Err(answer.error) && lastUsedIndex == old(lastUsedIndex) && trace == old(trace)
        else
          r.Ok? && fresh(r.value) && r.value.owner == this && r.value.value == answer.value &&
          r.value.index == lastUsedIndex == old(lastUsedIndex) + 1 &&
          trace == old(trace) + [SelectionCreated(source.index,
                                                  if index.Some? then ByIndex(index.value) else ByName(name),
                                                  lastUsedIndex)]
    {
      var answer := target(CreateSelectionRequest(source.value, index, name));
      if answer.Err? {
        return Err(answer.error);
      }
      var newIndex := NewValueIndex();
      var wrapped := new TracingValue(this, newIndex, answer.value);
      Record(SelectionCreated(source.index, if index.Some? then ByIndex(index.value) else ByName(name),
                              wrapped.index));
      r := Ok(wrapped);
    }
  }

  /** A value of the tracing executor: its owner, its index, and the target's value it wraps. */
  class TracingValue<V, H, R> {
    const owner: TracingExecutor<V, H, R>
    const index: nat
    const value: H

    constructor (owner: TracingExecutor<V, H, R>, index: nat, value: H)
      ensures this.owner == owner && this.index == index && this.value == value
    {
      this.owner := owner;
      this.index := index;
      this.value := value;
    }

    /**
     * Computes the wrapped target value, whose outcome `answer` is supplied,
     * and records the result in the owner's trace without allocating an index.
     */
    method Compute(answer: Result<R>) returns (r: Result<R>)
      requires owner.Valid()
      modifies owner
      ensures owner.Valid()
      ensures r == answer
      ensures owner.lastUsedIndex == old(owner.lastUsedIndex)
      ensures owner.trace == old(owner.trace) + (if answer.Ok? then [Computed(index, answer.value)] else [])
    {
      if answer.Err? {
        return answer;
      }
      AllocatedAppend(owner.trace, Computed(index, answer.value));
      owner.trace := owner.trace + [Computed(index, answer.value)];
      r := answer;
    }
  }

  /**
   * A client of the contracts above: on a fresh executor whose target answers
   * every request with the value `h`, two values and a call of the first on the
   * second get the indices 1, 2 and 3, and computing the call appends its
   * result under index 3.
   */
  method TraceOfCall<V, H, R>(f: V, x: V, h: H, result: R) returns (ex: TracingExecutor<V, H, R>)
    ensures ex.Valid() && ex.lastUsedIndex == 3
    ensures ex.trace == [ValueCreated(f, 1), ValueCreated(x, 2), CallWithArgCreated(1, 2, 3), Computed(3, result)]
  {
    var target := (q: Request<V, H>) => Ok(h);
    ex := new TracingExecutor();
    var fn := ex.CreateValue(f, None, target);
    var arg := ex.CreateValue(x, None, target);
    var call := ex.CreateCall(fn.value, Some(arg.value), target);
    var computed := call.value.Compute(Ok(result));
  }
}
