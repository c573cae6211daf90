/**
 The synthetic device benchmark: a coroutine that submits one operation at a
 time, a queue of completions that carry table tokens, and a drive loop. Each
 completion resumes the coroutine, which submits its next operation from inside
 the dispatch.
 */
module CompletionLoop {
  import opened Bytes
  import opened Arithmetic
  import opened CompletionTable

  datatype Result = Running | Done(total: nat) | IoError

  /** The coroutine as a function: its result and how many operations it awaits. */
  function LoopResult(bytes: nat, chunk: nat, off: nat, total: nat): (Result, nat)
    requires chunk > 0
    decreases bytes - off
  {
    if off >= bytes then (Done(total), 0)
    else
      var n := Min(chunk, bytes - off);
      if AsInt32(n) < 0 then (IoError, 1)
      else
        var rest := LoopResult(bytes, chunk, off + n, (total + AsInt32(n)) % TWO64);
        (rest.0, rest.1 + 1)
  }

  datatype Pending = Pending(slot: nat, gen: nat, res: int)

  const RESUME: Callback := 0

  /** `SyntheticIoDevice` and the one coroutine that uses it. */
  class Device {
    const table: Completions
    var pending: seq<Pending>
    var submitted: nat
    var completed: nat
    // the coroutine `synthetic_io_loop`
    const bytes: nat
    const chunk: nat
    var off: nat
    var total: nat
    var awaited: nat
    var result: Result

    /** The one pending completion names the one slot in use. */
    ghost predicate Matched()
      reads this, table
    {
      && Valid(table.State())
      && |pending| <= 1 && |table.slots| <= 1
      && (pending == [] ==> forall s :: 0 <= s < |table.slots| ==> !table.slots[s].inUse)
      && (pending != [] ==>
            && pending[0].slot < |table.slots|
            && table.slots[pending[0].slot].inUse && table.slots[pending[0].slot].mode.Single?
            && table.slots[pending[0].slot].gen == pending[0].gen
            && table.slots[pending[0].slot].fn == RESUME)
    }

    /** Between completions: the books balance, and a running coroutine awaits the pending operation. */
    ghost predicate Steady()
      reads this, table
    {
      && chunk > 0 && Matched()
      && submitted == completed + |pending|
      && (result.Running? <==> pending != [])
      && (result.Running? ==>
            off < bytes && awaited == Min(chunk, bytes - off) && pending[0].res == AsInt32(awaited))
    }

    /** What the coroutine still has to do, and its final result. */
    ghost function Outlook(): (Result, nat)
      reads this
      requires chunk > 0
    {
      if result.Running? then LoopResult(bytes, chunk, off, total) else (result, 0)
    }

    constructor (bytes: nat, chunk: nat)
      requires chunk > 0
      ensures this.bytes == bytes && this.chunk == chunk
      ensures Steady() && fresh(table)
      ensures completed == 0 && Outlook() == LoopResult(bytes, chunk, 0, 0)
    {
      this.bytes, this.chunk := bytes, chunk;
      table := new Completions();
      pending, submitted, completed := [], 0, 0;
      off, total, awaited, result := 0, 0, 0, Running;
      new;
      Continue();
    }

    /** `async_op`: reserve a slot for the resumption and queue its completion. */
    method AsyncOp(n: nat)
      requires Matched() && pending == []
      modifies this`pending, this`submitted, table
      ensures Matched() && submitted == old(submitted) + 1
      ensures |pending| == 1 && pending[0].res == AsInt32(n)
    {
      if |table.slots| == 1 { assert 0 in table.free; }
      var token := table.Reserve(RESUME, Single);
      var (slot, gen) := token.value;
      pending := pending + [Pending(slot, gen, AsInt32(n))];
      submitted := submitted + 1;
    }

    /** The coroutine from the top of its loop to its next suspension or its end. */
    method Continue()
      requires chunk > 0 && Matched() && pending == [] && result.Running?
      modifies this`pending, this`submitted, this`awaited, this`result, table
      ensures Matched() && submitted == old(submitted) + |pending|
      ensures result.Running? <==> pending != []
      ensures result.Running? ==>
                off < bytes && awaited == Min(chunk, bytes - off) && pending[0].res == AsInt32(awaited)
      ensures Outlook() == LoopResult(bytes, chunk, off, total)
    {
      if off < bytes {
        awaited := Min(chunk, bytes - off);
        AsyncOp(awaited);
      } else {
        result := Done(total);
      }
    }

    /** The completion callback: an error fails it, a value resumes the coroutine. */
    method Resume(res: int)
      requires chunk > 0 && Matched() && pending == [] && result.Running?
      requires off < bytes && awaited == Min(chunk, bytes - off) && res == AsInt32(awaited)
      modifies this`pending, this`submitted, this`off, this`total, this`awaited, this`result, table
      ensures Matched() && submitted == old(submitted) + |pending|
      ensures result.Running? <==> pending != []
      ensures result.Running? ==>
                off < bytes && awaited == Min(chunk, bytes - off) && pending[0].res == AsInt32(awaited)
      ensures var before := LoopResult(bytes, chunk, old(off), old(total));
              Outlook() == (before.0, before.1 - 1)
    {
      if res < 0 {
        result := IoError;
        return;
      }
      total := (total + res) % TWO64;
      off := off + awaited;
      Continue();
    }

    /** `complete_one`. It is never called on an empty queue, where it would exit. */
    method CompleteOne()
      requires Steady() && result.Running?
      modifies this`pending, this`submitted, this`completed, this`off, this`total, this`awaited, this`result, table
      ensures Steady() && completed == old(completed) + 1
      ensures Outlook() == (old(Outlook()).0, old(Outlook()).1 - 1)
    {
      var entry := pending[0];
      pending := pending[1..];
      var call := table.Dispatch(entry.slot, entry.gen, entry.res, Flags(false, false));
      if call.Some? { Resume(call.value.res); }
      completed := completed + 1;
    }
  }

  /** The drive loop of the benchmark: complete one operation at a time until the coroutine is ready. */
  method Drive(bytes: nat, chunk: nat) returns (result: Result, ops: nat)
    requires chunk > 0
    ensures (result, ops) == LoopResult(bytes, chunk, 0, 0)
  {
    var device := new Device(bytes, chunk);
    while device.result.Running?
      invariant device.Steady() && fresh(device) && fresh(device.table)
      invariant device.bytes == bytes && device.chunk == chunk
      invariant (device.Outlook().0, device.completed + device.Outlook().1) == LoopResult(bytes, chunk, 0, 0)
      decreases device.Outlook().1
    {
      device.CompleteOne();
    }
    result, ops := device.result, device.completed;
  }

  // -------------------------------------------------------------- what it returns

  lemma {:induction false} LoopTotals(bytes: nat, chunk: nat, off: nat, total: nat)
    requires chunk > 0 && off <= bytes && total + (bytes - off) < TWO64
    requires Min(chunk, bytes - off) < TWO31
    ensures LoopResult(bytes, chunk, off, total) == (Done(total + (bytes - off)), Pieces(bytes - off, chunk))
    decreases bytes - off
  {
    hide AsInt32;
    if off < bytes {
      var n := Min(chunk, bytes - off);
      CastResult(n);
      assert (total + n) % TWO64 == total + n;
      LoopTotals(bytes, chunk, off + n, total + n);
    }
  }

  /** An operation of 2^31 bytes or more loses bytes, or fails, in its 32-bit result. */
  lemma {:induction false} LoopAtMost(bytes: nat, chunk: nat, off: nat, total: nat)
    requires chunk > 0 && off <= bytes && total + (bytes - off) < TWO64
    requires LoopResult(bytes, chunk, off, total).0.Done?
    ensures var sum := LoopResult(bytes, chunk, off, total).0.total;
            sum <= total + (bytes - off) && (Min(chunk, bytes - off) >= TWO31 ==> sum < total + (bytes - off))
    decreases bytes - off
  {
    hide AsInt32;
    if off < bytes {
      var n := Min(chunk, bytes - off);
      CastResult(n);
      var v := AsInt32(n);
      assert v >= 0 && (total + v) % TWO64 == total + v;
      LoopAtMost(bytes, chunk, off + n, total + v);
    }
  }

  /**
   The loop returns the requested bytes exactly when each operation is below 2^31
   bytes; it then takes `ceil(bytes / chunk)` completions.
   */
  lemma LoopReturnsBytes(bytes: nat, chunk: nat)
    requires chunk > 0 && bytes < TWO64
    ensures LoopResult(bytes, chunk, 0, 0).0 == Done(bytes) <==> Min(chunk, bytes) < TWO31
    ensures Min(chunk, bytes) < TWO31 ==> LoopResult(bytes, chunk, 0, 0).1 == (bytes + chunk - 1) / chunk
  {
    PiecesIsCeiling(bytes, chunk);
    if LoopResult(bytes, chunk, 0, 0).0.Done? { LoopAtMost(bytes, chunk, 0, 0); }
    if Min(chunk, bytes) < TWO31 { LoopTotals(bytes, chunk, 0, 0); }
  }

  /** One operation of 2^31 bytes fails; one of 2^32 + 1 bytes returns a single byte. */
  lemma LoopLosesBytes()
    ensures LoopResult(TWO31, TWO31, 0, 0) == (IoError, 1)
    ensures LoopResult(TWO32 + 1, TWO32 + 1, 0, 0) == (Done(1), 1)
  {
    assert AsInt32(TWO31) == -0x8000_0000 && AsInt32(TWO32 + 1) == 1;
    assert LoopResult(TWO32 + 1, TWO32 + 1, TWO32 + 1, 1) == (Done(1), 0);
  }

  // ------------------------------------------------------------------- await_all

  /** `await_all`: the tasks' results as far as known, which is awaited next, the sum so far. */
  datatype Awaiting = Awaiting(results: seq<Option<nat>>, next: nat, sum: nat)

  function Initially(n: nat): Awaiting { Awaiting(seq(n, _ => None), 0, 0) }

  /** The coroutine runs on over tasks that are already complete. */
  function Advance(a: Awaiting): Awaiting
    decreases |a.results| - a.next
  {
    if a.next < |a.results| && a.results[a.next].Some?
    then Advance(a.(next := a.next + 1, sum := (a.sum + a.results[a.next].value) % TWO64))
    else a
  }

  /** Task `i` completes with value `v`; only the awaited task resumes the coroutine. */
  function CompleteTask(a: Awaiting, i: nat, v: nat): Awaiting
    requires i < |a.results|
  {
    var a' := a.(results := a.results[i := Some(v)]);
    if i == a.next then Advance(a') else a'
  }

  function SumOf(results: seq<Option<nat>>): nat {
    if results == [] then 0
    else
      var last := results[|results| - 1];
      SumOf(results[..|results| - 1]) + (if last.Some? then last.value else 0)
  }

  /** The coroutine has added up exactly the tasks before the first incomplete one. */
  ghost predicate Adding(a: Awaiting) {
    && a.next <= |a.results|
    && (forall i :: 0 <= i < a.next ==> a.results[i].Some?)
    && (a.next < |a.results| ==> a.results[a.next].None?)
    && a.sum == SumOf(a.results[..a.next]) % TWO64
  }

  lemma {:induction false} AdvanceAdds(a: Awaiting)
    requires a.next <= |a.results| && a.sum == SumOf(a.results[..a.next]) % TWO64
    requires forall i :: 0 <= i < a.next ==> a.results[i].Some?
    ensures Adding(Advance(a)) && Advance(a).results == a.results
    decreases |a.results| - a.next
  {
    if a.next < |a.results| && a.results[a.next].Some? {
      var a' := a.(next := a.next + 1, sum := (a.sum + a.results[a.next].value) % TWO64);
      assert a.results[..a.next + 1][..a.next] == a.results[..a.next];
      AdvanceAdds(a');
    }
  }

  lemma CompleteKeepsAdding(a: Awaiting, i: nat, v: nat)
    requires Adding(a) && i < |a.results| && a.results[i].None?
    ensures Adding(CompleteTask(a, i, v)) && CompleteTask(a, i, v).results == a.results[i := Some(v)]
  {
    var a' := a.(results := a.results[i := Some(v)]);
    assert a'.results[..a.next] == a.results[..a.next];
    if i == a.next { AdvanceAdds(a'); }
  }

  /** Completions in the order `order`, each task with its value. */
  function CompleteAll(a: Awaiting, order: seq<nat>, values: seq<nat>): Awaiting
    requires |a.results| == |values| && forall i :: 0 <= i < |order| ==> order[i] < |values|
    decreases |order|
  {
    if order == [] then a
    else
      CompleteKeepsLength(a, order[0], values[order[0]]);
      CompleteAll(CompleteTask(a, order[0], values[order[0]]), order[1..], values)
  }

  lemma {:induction false} AdvanceKeepsLength(a: Awaiting)
    ensures |Advance(a).results| == |a.results|
    decreases |a.results| - a.next
  {
    if a.next < |a.results| && a.results[a.next].Some? {
      AdvanceKeepsLength(a.(next := a.next + 1, sum := (a.sum + a.results[a.next].value) % TWO64));
    }
  }

  lemma CompleteKeepsLength(a: Awaiting, i: nat, v: nat)
    requires i < |a.results|
    ensures |CompleteTask(a, i, v).results| == |a.results|
  {
    AdvanceKeepsLength(a.(results := a.results[i := Some(v)]));
  }

  /** Every known result is the value of its task. */
  ghost predicate Agrees(a: Awaiting, values: seq<nat>) {
    |a.results| == |values| && forall i :: 0 <= i < |values| && a.results[i].Some? ==> a.results[i].value == values[i]
  }

  lemma {:induction false} CompleteAllAdds(a: Awaiting, order: seq<nat>, values: seq<nat>)
    requires Adding(a) && Agrees(a, values)
    requires forall i :: 0 <= i < |order| ==> order[i] < |values| && a.results[order[i]].None?
    requires forall i, j :: 0 <= i < j < |order| ==> order[i] != order[j]
    ensures var z := CompleteAll(a, order, values);
            && Adding(z) && Agrees(z, values)
            && (forall i :: 0 <= i < |values| ==> (z.results[i].Some? <==> a.results[i].Some? || i in order))
    decreases |order|
  {
    if order == [] {
    } else {
      hide CompleteTask;
      CompleteKeepsAdding(a, order[0], values[order[0]]);
      CompleteAllAdds(CompleteTask(a, order[0], values[order[0]]), order[1..], values);
    }
  }

  lemma {:induction false} SumOfAll(results: seq<Option<nat>>, values: seq<nat>)
    requires |results| == |values| && forall i :: 0 <= i < |values| ==> results[i] == Some(values[i])
    ensures SumOf(results) == Sum(values)
  {
    if values == [] {
    } else {
      SumOfAll(results[..|values| - 1], values[..|values| - 1]);
    }
  }

  /** In whatever order the tasks complete, `await_all` returns the sum of their results. */
  lemma AwaitAllSums(order: seq<nat>, values: seq<nat>)
    requires forall i :: 0 <= i < |order| ==> order[i] < |values|
    requires forall i, j :: 0 <= i < j < |order| ==> order[i] != order[j]
    requires forall i :: 0 <= i < |values| ==> i in order
    ensures var z := CompleteAll(Initially(|values|), order, values);
            z.next == |values| && z.sum == Sum(values) % TWO64
  {
    hide CompleteAll;
    var a := Initially(|values|);
    assert a.results[..0] == [];
    CompleteAllAdds(a, order, values);
    var z := CompleteAll(a, order, values);
    assert z.results[..|values|] == z.results;
    assert z.next < |values| ==> z.next in order;
    SumOfAll(z.results, values);
  }
}
