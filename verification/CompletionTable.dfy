/**
 The io_uring completion table: callbacks parked in slots until the kernel's
 completion names their slot and generation. Slots are reused at once, so the
 32-bit generation is what tells a late completion from a current one.
 */
module CompletionTable {
  import opened Bytes

  const EIO: int := 5
  const ECANCELED: int := 125

  type Callback = int

  datatype Mode = Single | Multishot | ZcSend

  datatype Slot = Slot(gen: nat, inUse: bool, mode: Mode, zcBytes: int, zcSeenSend: bool, fn: Callback)

  /** The two completion flags the table looks at. */
  datatype Flags = Flags(more: bool, notif: bool)

  /** A callback and the result it is called with. */
  datatype Call = Call(fn: Callback, res: int)

  datatype Table = Table(slots: seq<Slot>, free: seq<nat>)

  const EMPTY: Table := Table([], [])

  /** The free list holds every slot that is not in use, once. */
  predicate Valid(t: Table) {
    && (forall i :: 0 <= i < |t.free| ==> t.free[i] < |t.slots| && !t.slots[t.free[i]].inUse)
    && (forall i, j :: 0 <= i < j < |t.free| ==> t.free[i] != t.free[j])
    && (forall s :: 0 <= s < |t.slots| && !t.slots[s].inUse ==> s in t.free)
    && (forall s :: 0 <= s < |t.slots| ==> t.slots[s].gen < TWO32)
  }

  // -------------------------------------------------------------------- reserve

  /** The slot the next reservation gets; `None` when all 2^32 - 1 slots are taken. */
  function NextSlot(t: Table): Option<nat> {
    if t.free != [] then Some(t.free[|t.free| - 1])
    else if |t.slots| >= TWO32 - 1 then None
    else Some(|t.slots|)
  }

  function Generation(t: Table, slot: nat): nat { if slot < |t.slots| then t.slots[slot].gen else 0 }

  function Reserved(t: Table, fn: Callback, mode: Mode): Table
    requires Valid(t) && NextSlot(t).Some?
  {
    var slot := NextSlot(t).value;
    var entry := Slot(Generation(t, slot), true, mode, 0, false, fn);
    if t.free != [] then Table(t.slots[slot := entry], t.free[..|t.free| - 1])
    else Table(t.slots + [entry], t.free)
  }

  lemma FreeIsSlot(t: Table)
    requires Valid(t)
    ensures t.free != [] ==> t.free[|t.free| - 1] < |t.slots|
  {
  }

  lemma ReserveKeepsValid(t: Table, fn: Callback, mode: Mode)
    requires Valid(t) && NextSlot(t).Some?
    ensures Valid(Reserved(t, fn, mode))
    ensures NextSlot(t).value < |t.slots| ==> !t.slots[NextSlot(t).value].inUse
  {
    var t' := Reserved(t, fn, mode);
    forall s | 0 <= s < |t'.slots| && !t'.slots[s].inUse ensures s in t'.free {
      assert s in t.free;
    }
  }

  // ------------------------------------------------------------------- dispatch

  /** What a completion does to the slot it names. */
  datatype Action = Ignore | Deliver(call: Call) | Note(bytes: int) | Finish(call: Call)

  function ActionOf(t: Table, slot: nat, gen: nat, res: int, flags: Flags): Action {
    if slot >= |t.slots| || !t.slots[slot].inUse || t.slots[slot].gen != gen then Ignore
    else
      var s := t.slots[slot];
      match s.mode
      case Single => Finish(Call(s.fn, res))
      case Multishot => if res >= 0 && flags.more then Deliver(Call(s.fn, res)) else Finish(Call(s.fn, res))
      case ZcSend =>
        if flags.notif then Finish(Call(s.fn, if s.zcSeenSend then s.zcBytes else -EIO))
        else if res >= 0 && flags.more then Note(res)
        else Finish(Call(s.fn, res))
  }

  /** The call an action makes. */
  function CallOf(action: Action): Option<Call> {
    match action
    case Deliver(call) => Some(call)
    case Finish(call) => Some(call)
    case _ => None
  }

  function Dispatched(t: Table, slot: nat, action: Action): Table
    requires action.Ignore? || slot < |t.slots|
  {
    match action
    case Ignore => t
    case Deliver(_) => t
    case Note(bytes) => t.(slots := t.slots[slot := t.slots[slot].(zcBytes := bytes, zcSeenSend := true)])
    case Finish(_) =>
      Table(t.slots[slot := Slot((t.slots[slot].gen + 1) % TWO32, false, Single, 0, false, t.slots[slot].fn)],
            t.free + [slot])
  }

  lemma DispatchKeepsValid(t: Table, slot: nat, gen: nat, res: int, flags: Flags)
    requires Valid(t)
    ensures Valid(Dispatched(t, slot, ActionOf(t, slot, gen, res, flags)))
  {
    var t' := Dispatched(t, slot, ActionOf(t, slot, gen, res, flags));
    forall s | 0 <= s < |t'.slots| && !t'.slots[s].inUse ensures s in t'.free {
      if s != slot { assert s in t.free; }
    }
  }

  // --------------------------------------------------------------------- cancel

  const NO_FLAGS: Flags := Flags(false, false)

  /** Cancelling a slot is a completion with its current generation, the error and no flags. */
  function CancelAction(t: Table, slot: nat): (a: Action)
    ensures slot < |t.slots| ==>
              a == if t.slots[slot].inUse then Finish(Call(t.slots[slot].fn, -ECANCELED)) else Ignore
  {
    ActionOf(t, slot, Generation(t, slot), -ECANCELED, NO_FLAGS)
  }

  /** The loop of `cancel_all` from a slot on, when the callbacks leave the table alone. */
  function CancelFrom(t: Table, slot: nat): Table
    decreases |t.slots| - slot
  {
    if slot >= |t.slots| then t else CancelFrom(Dispatched(t, slot, CancelAction(t, slot)), slot + 1)
  }

  /** The calls that cancelling from a slot on makes, in slot order. */
  function CancelCalls(t: Table, slot: nat): seq<Call>
    decreases |t.slots| - slot
  {
    if slot >= |t.slots| then []
    else (if t.slots[slot].inUse then [Call(t.slots[slot].fn, -ECANCELED)] else []) + CancelCalls(t, slot + 1)
  }

  /** A zero-copy send waits for the kernel's notification. */
  predicate NotificationPending(s: Slot) { s.inUse && s.mode.ZcSend? && s.zcSeenSend }

  lemma CancelTurn(t: Table, slot: nat)
    requires Valid(t) && slot < |t.slots|
    ensures var t' := Dispatched(t, slot, CancelAction(t, slot));
            && Valid(t') && |t'.slots| == |t.slots| && !t'.slots[slot].inUse
            && t'.slots[..slot] == t.slots[..slot] && t'.slots[slot + 1..] == t.slots[slot + 1..]
  {
    DispatchKeepsValid(t, slot, Generation(t, slot), -ECANCELED, NO_FLAGS);
  }

  /** Cancelling frees every slot from there on and touches none before. */
  lemma {:induction false} CancelFrees(t: Table, slot: nat)
    requires Valid(t) && slot <= |t.slots|
    ensures var t' := CancelFrom(t, slot);
            && Valid(t') && |t'.slots| == |t.slots| && t'.slots[..slot] == t.slots[..slot]
            && forall s :: slot <= s < |t'.slots| ==> !t'.slots[s].inUse
    decreases |t.slots| - slot
  {
    hide Valid;
    if slot < |t.slots| {
      CancelTurn(t, slot);
      var t1 := Dispatched(t, slot, CancelAction(t, slot));
      CancelFrees(t1, slot + 1);
      var t' := CancelFrom(t, slot);
      assert t'.slots[..slot] == t'.slots[..slot + 1][..slot] == t1.slots[..slot];
      assert t'.slots[slot] == t'.slots[..slot + 1][slot] == t1.slots[slot];
    }
  }

  lemma CancelNext(t: Table, slot: nat)
    requires slot < |t.slots|
    ensures CancelFrom(t, slot) == CancelFrom(Dispatched(t, slot, CancelAction(t, slot)), slot + 1)
  {
  }

  lemma NothingToCancel(t: Table, slot: nat)
    requires slot >= |t.slots|
    ensures CancelFrom(t, slot) == t && CancelCalls(t, slot) == []
  {
  }

  lemma AllFreed(t: Table)
    requires Valid(t)
    ensures InUse(CancelFrom(t, 0)) == {}
  {
    hide Valid, CancelFrom;
    CancelFrees(t, 0);
  }

  lemma {:induction false} CallsStay(t: Table, t': Table, slot: nat)
    requires |t.slots| == |t'.slots| && slot <= |t.slots| && t.slots[slot..] == t'.slots[slot..]
    ensures CancelCalls(t, slot) == CancelCalls(t', slot)
    decreases |t.slots| - slot
  {
    if slot < |t.slots| {
      assert t.slots[slot] == t.slots[slot..][0] == t'.slots[slot..][0];
      assert t.slots[slot + 1..] == t.slots[slot..][1..] == t'.slots[slot..][1..] == t'.slots[slot + 1..];
      CallsStay(t, t', slot + 1);
    }
  }

  // ------------------------------------------------------------------ the class

  class Completions {
    var slots: seq<Slot>
    var free: seq<nat>

    function State(): Table
      reads this
    {
      Table(slots, free)
    }

    constructor ()
      ensures State() == EMPTY && Valid(State())
    {
      slots, free := [], [];
    }

    /** `reserve`, `reserve_multishot` and `reserve_zc`; `None` is the `length_error`. */
    method Reserve(fn: Callback, mode: Mode) returns (token: Option<(nat, nat)>)
      requires Valid(State())
      modifies this
      ensures Valid(State())
      ensures match NextSlot(old(State()))
              case None => token == None && State() == old(State())
              case Some(slot) =>
                token == Some((slot, Generation(old(State()), slot))) && State() == Reserved(old(State()), fn, mode)
    {
      hide Valid;
      ghost var t := State();
      FreeIsSlot(t);
      if NextSlot(t).Some? { ReserveKeepsValid(t, fn, mode); }
      var slot := 0;
      if free != [] {
        slot := free[|free| - 1];
        free := free[..|free| - 1];
      } else {
        if |slots| >= TWO32 - 1 { return None; }
        slot := |slots|;
        slots := slots + [Slot(0, false, Single, 0, false, fn)];
      }
      var gen := slots[slot].gen;
      slots := slots[slot := Slot(gen, true, mode, 0, false, fn)];
      assert State() == Reserved(t, fn, mode);
      token := Some((slot, gen));
    }

    /** `dispatch`, up to the callback: the slot is free again before the callback runs, so the
        callback may reserve it anew. */
    method Dispatch(slot: nat, gen: nat, res: int, flags: Flags) returns (call: Option<Call>)
      requires Valid(State())
      modifies this
      ensures Valid(State())
      ensures var action := ActionOf(old(State()), slot, gen, res, flags);
              && State() == Dispatched(old(State()), slot, action)
              && call == CallOf(action)
    {
      hide Valid;
      DispatchKeepsValid(State(), slot, gen, res, flags);
      if slot >= |slots| { return None; }
      var s := slots[slot];
      if !s.inUse || s.gen != gen { return None; }
      if s.mode.Multishot? && res >= 0 && flags.more { return Some(Call(s.fn, res)); }
      var result := res;
      if s.mode.ZcSend? {
        if !flags.notif {
          if res >= 0 && flags.more {
            slots := slots[slot := s.(zcBytes := res, zcSeenSend := true)];
            return None;
          }
        } else {
          result := if s.zcSeenSend then s.zcBytes else -EIO;
        }
      }
      slots := slots[slot := Slot((s.gen + 1) % TWO32, false, Single, 0, false, s.fn)];
      free := free + [slot];
      call := Some(Call(s.fn, result));
    }

    /** `has_pending_zc_notifications`. */
    method HasPendingNotifications() returns (found: bool)
      ensures found <==> exists s :: 0 <= s < |slots| && NotificationPending(slots[s])
    {
      for s := 0 to |slots|
        invariant forall i :: 0 <= i < s ==> !NotificationPending(slots[i])
      {
        if NotificationPending(slots[s]) { return true; }
      }
      found := false;
    }

    /** One turn of the loop in `cancel_all`. */
    method CancelSlot(slot: nat) returns (calls: seq<Call>)
      requires slot < |slots|
      modifies this
      ensures State() == Dispatched(old(State()), slot, CancelAction(old(State()), slot))
      ensures CancelCalls(old(State()), slot) == calls + CancelCalls(old(State()), slot + 1)
    {
      hide ActionOf, CancelAction;
      var s := slots[slot];
      if !s.inUse { return []; }
      slots := slots[slot := Slot((s.gen + 1) % TWO32, false, Single, 0, false, s.fn)];
      free := free + [slot];
      calls := [Call(s.fn, -ECANCELED)];
    }

    /** `cancel_all`, with callbacks that leave the table alone: refused while a zero-copy send waits
        for its notification; otherwise each parked callback is called once, in slot order, and
        nothing stays pending. */
    method CancelAll() returns (ok: bool, calls: seq<Call>)
      requires Valid(State())
      modifies this
      ensures Valid(State())
      ensures ok <==> forall s :: 0 <= s < |old(slots)| ==> !NotificationPending(old(slots)[s])
      ensures !ok ==> State() == old(State()) && calls == []
      ensures ok ==> State() == CancelFrom(old(State()), 0) && calls == CancelCalls(old(State()), 0)
      ensures ok ==> InUse(State()) == {}
    {
      hide Valid, Dispatched, CancelAction, NotificationPending, CancelFrom, CancelCalls, InUse;
      calls := [];
      var waiting := HasPendingNotifications();
      if waiting { return false, []; }
      for slot := 0 to |slots|
        invariant Valid(State()) && |slots| == |old(slots)|
        invariant CancelFrom(State(), slot) == CancelFrom(old(State()), 0)
        invariant calls + CancelCalls(State(), slot) == CancelCalls(old(State()), 0)
      {
        ghost var t := State();
        CancelTurn(t, slot);
        CancelNext(t, slot);
        CallsStay(t, Dispatched(t, slot, CancelAction(t, slot)), slot + 1);
        var turn := CancelSlot(slot);
        assert calls + (turn + CancelCalls(t, slot + 1)) == (calls + turn) + CancelCalls(t, slot + 1);
        calls := calls + turn;
      }
      NothingToCancel(State(), |slots|);
      AllFreed(old(State()));
      ok := true;
    }

    /** `pending`. */
    method Pending() returns (n: int)
      requires Valid(State())
      ensures n == |InUse(State())|
    {
      PendingIsInUse(State());
      n := |slots| - |free|;
    }
  }

  // ------------------------------------------------------------------- counting

  function InUse(t: Table): set<nat> { set s: nat | s < |t.slots| && t.slots[s].inUse }

  function Range(n: nat): (r: set<nat>)
    ensures forall s: nat :: s in r <==> s < n
  {
    if n == 0 then {} else Range(n - 1) + {n - 1}
  }

  lemma {:induction false} RangeSize(n: nat)
    ensures |Range(n)| == n
  {
    if n == 0 {
    } else {
      RangeSize(n - 1);
    }
  }

  function Elements(s: seq<nat>): set<nat> { set x | x in s }

  lemma {:induction false} ElementsSize(s: seq<nat>)
    requires forall i, j :: 0 <= i < j < |s| ==> s[i] != s[j]
    ensures |Elements(s)| == |s|
  {
    if s == [] {
    } else {
      var last := s[|s| - 1];
      ElementsSize(s[..|s| - 1]);
      assert Elements(s) == Elements(s[..|s| - 1]) + {last};
    }
  }

  /** The slots that are not free are the slots in use. */
  lemma PendingIsInUse(t: Table)
    requires Valid(t)
    ensures |InUse(t)| == |t.slots| - |t.free|
  {
    RangeSize(|t.slots|);
    ElementsSize(t.free);
    assert InUse(t) !! Elements(t.free);
    assert Range(|t.slots|) == InUse(t) + Elements(t.free);
  }
}
