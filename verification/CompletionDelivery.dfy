/**
 What every reservation's callback is called with, over every run: a function of
 the completions that carry the reservation's token while it is live, told
 without the table's own case analysis.
 */
module CompletionDelivery {
  import opened Bytes
  import opened CompletionHistory
  import opened CompletionTable

  /** A completion queue entry, apart from its token. */
  datatype Cqe = Cqe(res: int, flags: Flags)

  // ------------------------------------------------------------------- what is promised

  /** Whether an entry is the last one of its operation. */
  predicate Ends(mode: Mode, e: Cqe) {
    match mode
    case Single => true
    case Multishot => e.res < 0 || !e.flags.more
    case ZcSend => e.flags.notif || e.res < 0 || !e.flags.more
  }

  /** The first entry that ends the operation, or their number. */
  function FirstEnd(mode: Mode, es: seq<Cqe>): (k: nat)
    ensures k <= |es| && (k < |es| ==> Ends(mode, es[k]))
    ensures forall i :: 0 <= i < k ==> !Ends(mode, es[i])
  {
    if es == [] || Ends(mode, es[0]) then 0 else 1 + FirstEnd(mode, es[1..])
  }

  function Results(es: seq<Cqe>): (rs: seq<int>)
    ensures |rs| == |es| && forall i :: 0 <= i < |es| ==> rs[i] == es[i].res
  {
    seq(|es|, i requires 0 <= i < |es| => es[i].res)
  }

  /**
   A single-shot callback gets the first result, once. A multishot callback gets
   every result in order, up to and including the first that is negative or has
   no more to come. A zero-copy send is called once: at its notification with the
   bytes of the entry before it, or with -5, the negated EIO, if there was none;
   without a notification, with the result that ended it.
   */
  function Gets(mode: Mode, es: seq<Cqe>): seq<int> {
    var k := FirstEnd(mode, es);
    match mode
    case Single => if es == [] then [] else [es[0].res]
    case Multishot => Results(es[..if k < |es| then k + 1 else k])
    case ZcSend =>
      if k == |es| then []
      else if !es[k].flags.notif then [es[k].res]
      else if k > 0 then [es[k - 1].res]
      else [0 - 5]
  }

  /** The reservation is live until an entry ends it. */
  predicate StaysLive(mode: Mode, es: seq<Cqe>) { FirstEnd(mode, es) == |es| }

  // ---------------------------------------------------------------------- what happens

  predicate IsLive(h: History, i: nat) { i < |h.reservations| && !h.reservations[i].finished }

  /** The operation is a completion that carries the token of reservation `i`, while it is live. */
  predicate Carries(h: History, op: Op, i: nat) {
    IsLive(h, i) && op.Complete? && (op.slot, op.gen) == Token(h.reservations[i])
  }

  /** The entries that carry the live token of reservation `i`, in order. */
  function Received(h: History, ops: seq<Op>, i: nat): seq<Cqe>
    requires Inv(h)
    decreases |ops|
  {
    if ops == [] then []
    else
      StepKeepsInv(h, ops[0]);
      (if Carries(h, ops[0], i) then [Cqe(ops[0].res, ops[0].flags)] else [])
      + Received(Step(h, ops[0]), ops[1..], i)
  }

  /** The call a step makes on behalf of reservation `i`, which holds the slot. */
  function CallFor(h: History, op: Op, i: nat): seq<Call>
    requires Inv(h)
  {
    if op.Reserve? then []
    else
      var call := CallOf(ActionOf(h.table, op.slot, op.gen, op.res, op.flags));
      if call.Some? && h.holder[op.slot] == i then [call.value] else []
  }

  /** All calls on behalf of reservation `i`, in order. */
  function Calls(h: History, ops: seq<Op>, i: nat): seq<Call>
    requires Inv(h)
    decreases |ops|
  {
    if ops == [] then []
    else
      StepKeepsInv(h, ops[0]);
      CallFor(h, ops[0], i) + Calls(Step(h, ops[0]), ops[1..], i)
  }

  // ------------------------------------------------------------------------ the proof

  /** `Gets` entry by entry, for a send that has noted `noted` so far. */
  function GetsAfter(mode: Mode, noted: Option<int>, es: seq<Cqe>): seq<int>
    decreases |es|
  {
    if es == [] then []
    else if Ends(mode, es[0]) then
      (if mode.ZcSend? && es[0].flags.notif then [if noted.Some? then noted.value else -EIO] else [es[0].res])
    else if mode.ZcSend? then GetsAfter(mode, Some(es[0].res), es[1..])
    else [es[0].res] + GetsAfter(mode, noted, es[1..])
  }

  lemma MultishotFirst(es: seq<Cqe>)
    requires es != []
    ensures Ends(Multishot, es[0]) ==> Gets(Multishot, es) == [es[0].res]
    ensures !Ends(Multishot, es[0]) ==> Gets(Multishot, es) == [es[0].res] + Gets(Multishot, es[1..])
  {
    hide Results, Ends;
    if Ends(Multishot, es[0]) {
      ResultsNext(es, 0);
      NoResults(es[1..][..0]);
    } else {
      var k := FirstEnd(Multishot, es[1..]);
      ResultsNext(es, if k < |es| - 1 then k + 1 else k);
    }
  }

  lemma NoResults(es: seq<Cqe>)
    requires es == []
    ensures Results(es) == []
  {
  }

  lemma {:induction false} MultishotOneByOne(noted: Option<int>, es: seq<Cqe>)
    ensures GetsAfter(Multishot, noted, es) == Gets(Multishot, es)
    decreases |es|
  {
    hide Gets, Ends;
    if es == [] {
      NothingGot();
    } else {
      MultishotFirst(es);
      MultishotOneByOne(noted, es[1..]);
    }
  }

  lemma NothingGot()
    ensures Gets(Multishot, []) == []
  {
  }

  lemma ResultsNext(es: seq<Cqe>, n: nat)
    requires n < |es|
    ensures Results(es[..n + 1]) == [es[0].res] + Results(es[1..][..n])
  {
    assert es[..n + 1] == [es[0]] + es[1..][..n];
  }

  /** A zero-copy send that has noted `noted`. */
  lemma {:induction false} ZcSendOneByOne(noted: Option<int>, es: seq<Cqe>)
    ensures var k := FirstEnd(ZcSend, es);
            GetsAfter(ZcSend, noted, es)
            == if k == |es| then []
               else if !es[k].flags.notif then [es[k].res]
               else if k > 0 then [es[k - 1].res]
               else [if noted.Some? then noted.value else -EIO]
    decreases |es|
  {
    if es == [] {
    } else if Ends(ZcSend, es[0]) {
    } else {
      ZcSendOneByOne(Some(es[0].res), es[1..]);
      var k := FirstEnd(ZcSend, es[1..]);
      assert forall j :: 0 <= j < |es| - 1 ==> es[1..][j] == es[j + 1];
    }
  }

  lemma OneByOne(mode: Mode, es: seq<Cqe>)
    ensures GetsAfter(mode, None, es) == Gets(mode, es)
  {
    match mode
    case Single =>
    case Multishot => MultishotOneByOne(None, es);
    case ZcSend => ZcSendOneByOne(None, es);
  }

  /** Reservation `i` is live, and its slot says so: its mode and what a send has noted. */
  ghost predicate Holds(h: History, i: nat, fn: Callback, mode: Mode, noted: Option<int>) {
    && Inv(h) && IsLive(h, i) && h.reservations[i].fn == fn
    && h.reservations[i].slot < |h.table.slots|
    && var s := h.table.slots[h.reservations[i].slot];
       s.mode == mode && noted == if s.zcSeenSend then Some(s.zcBytes) else None
  }

  /** A step that does not carry the token leaves the reservation as it is and calls nobody for it. */
  lemma OtherStep(h: History, op: Op, i: nat, fn: Callback, mode: Mode, noted: Option<int>)
    requires Holds(h, i, fn, mode, noted) && !Carries(h, op, i)
    ensures Holds(Step(h, op), i, fn, mode, noted) && CallFor(h, op, i) == []
  {
    hide Valid;
    StepKeepsInv(h, op);
    assert Parked(h, i);
    match op
    case Reserve(_, m) =>
      if NextSlot(h.table).Some? { ReserveKeepsValid(h.table, op.fn, m); }
    case Complete(slot, gen, _, _) =>
      if slot < |h.table.slots| { assert Held(h, slot); }
  }

  /** An entry that does not end the operation: a multishot result is delivered, a send's bytes are noted. */
  lemma InnerStep(h: History, op: Op, i: nat, fn: Callback, mode: Mode, noted: Option<int>)
    requires Holds(h, i, fn, mode, noted) && Carries(h, op, i) && !Ends(mode, Cqe(op.res, op.flags))
    ensures Holds(Step(h, op), i, fn, mode, if mode.ZcSend? then Some(op.res) else noted)
    ensures CallFor(h, op, i) == if mode.ZcSend? then [] else [Call(fn, op.res)]
  {
    hide Valid;
    StepKeepsInv(h, op);
    assert Parked(h, i) && Held(h, op.slot);
  }

  /** An entry that ends the operation calls the callback and finishes the reservation. */
  lemma LastStep(h: History, op: Op, i: nat, fn: Callback, mode: Mode, noted: Option<int>)
    requires Holds(h, i, fn, mode, noted) && Carries(h, op, i) && Ends(mode, Cqe(op.res, op.flags))
    ensures Inv(Step(h, op)) && i < |Step(h, op).reservations| && Step(h, op).reservations[i].finished
    ensures CallFor(h, op, i)
            == [Call(fn, if mode.ZcSend? && op.flags.notif then (if noted.Some? then noted.value else -EIO)
                         else op.res)]
  {
    hide Valid;
    StepKeepsInv(h, op);
    assert Parked(h, i) && Held(h, op.slot);
  }

  lemma FinishedStep(h: History, op: Op, i: nat)
    requires Inv(h) && i < |h.reservations| && h.reservations[i].finished
    ensures Inv(Step(h, op)) && i < |Step(h, op).reservations| && Step(h, op).reservations[i].finished
    ensures CallFor(h, op, i) == []
  {
    hide Valid;
    StepKeepsInv(h, op);
    if op.Complete? && op.slot < |h.table.slots| { assert Held(h, op.slot); }
  }

  /** A finished reservation stays finished and is never called again. */
  lemma {:induction false} NeverAgain(h: History, ops: seq<Op>, i: nat)
    requires Inv(h) && i < |h.reservations| && h.reservations[i].finished
    ensures Calls(h, ops, i) == [] && Received(h, ops, i) == []
    ensures i < |Run(h, ops).reservations| && Run(h, ops).reservations[i].finished
    decreases |ops|
  {
    hide Inv, Step, CallFor;
    if ops == [] {
    } else {
      FinishedStep(h, ops[0], i);
      NeverAgain(Step(h, ops[0]), ops[1..], i);
    }
  }

  function CallsWith(fn: Callback, rs: seq<int>): (calls: seq<Call>)
    ensures |calls| == |rs| && forall j :: 0 <= j < |rs| ==> calls[j] == Call(fn, rs[j])
  {
    seq(|rs|, j requires 0 <= j < |rs| => Call(fn, rs[j]))
  }

  /** What is to be shown of a run from `h`. */
  ghost predicate DeliveredRight(h: History, ops: seq<Op>, i: nat, fn: Callback, mode: Mode, noted: Option<int>)
    requires Inv(h)
  {
    var es, h' := Received(h, ops, i), Run(h, ops);
    && Calls(h, ops, i) == CallsWith(fn, GetsAfter(mode, noted, es))
    && i < |h'.reservations| && (h'.reservations[i].finished <==> !StaysLive(mode, es))
  }

  lemma NothingDelivered(h: History, i: nat, fn: Callback, mode: Mode, noted: Option<int>)
    requires Holds(h, i, fn, mode, noted)
    ensures DeliveredRight(h, [], i, fn, mode, noted)
  {
    hide Inv;
  }

  lemma OtherDelivered(h: History, ops: seq<Op>, i: nat, fn: Callback, mode: Mode, noted: Option<int>)
    requires Holds(h, i, fn, mode, noted) && ops != [] && !Carries(h, ops[0], i)
    requires Inv(Step(h, ops[0])) && DeliveredRight(Step(h, ops[0]), ops[1..], i, fn, mode, noted)
    ensures DeliveredRight(h, ops, i, fn, mode, noted)
  {
    hide Inv, Step, CallFor, Carries, StaysLive, GetsAfter, Holds;
    HoldsInv(h, i, fn, mode, noted);
    OtherStep(h, ops[0], i, fn, mode, noted);
    RunsOn(h, ops, i);
    assert [] + Received(Step(h, ops[0]), ops[1..], i) == Received(Step(h, ops[0]), ops[1..], i);
    assert [] + Calls(Step(h, ops[0]), ops[1..], i) == Calls(Step(h, ops[0]), ops[1..], i);
  }

  lemma HoldsInv(h: History, i: nat, fn: Callback, mode: Mode, noted: Option<int>)
    requires Holds(h, i, fn, mode, noted)
    ensures Inv(h) && IsLive(h, i)
  {
  }

  /** One step of a run, in the run, the entries and the calls. */
  lemma RunsOn(h: History, ops: seq<Op>, i: nat)
    requires Inv(h) && ops != []
    ensures Inv(Step(h, ops[0])) && Run(h, ops) == Run(Step(h, ops[0]), ops[1..])
    ensures Received(h, ops, i)
            == (if Carries(h, ops[0], i) then [Cqe(ops[0].res, ops[0].flags)] else [])
               + Received(Step(h, ops[0]), ops[1..], i)
    ensures Calls(h, ops, i) == CallFor(h, ops[0], i) + Calls(Step(h, ops[0]), ops[1..], i)
  {
    hide Inv, Step, CallFor, Carries;
    StepKeepsInv(h, ops[0]);
  }

  lemma GoesOn(mode: Mode, noted: Option<int>, e: Cqe, es: seq<Cqe>, fn: Callback)
    requires !Ends(mode, e)
    ensures var later := GetsAfter(mode, if mode.ZcSend? then Some(e.res) else noted, es);
            CallsWith(fn, GetsAfter(mode, noted, [e] + es))
            == (if mode.ZcSend? then [] else [Call(fn, e.res)]) + CallsWith(fn, later)
    ensures StaysLive(mode, [e] + es) <==> StaysLive(mode, es)
  {
    assert ([e] + es)[0] == e && ([e] + es)[1..] == es;
  }

  lemma InnerDelivered(h: History, ops: seq<Op>, i: nat, fn: Callback, mode: Mode, noted: Option<int>)
    requires Holds(h, i, fn, mode, noted) && ops != [] && Carries(h, ops[0], i)
    requires !Ends(mode, Cqe(ops[0].res, ops[0].flags)) && Inv(Step(h, ops[0]))
    requires DeliveredRight(Step(h, ops[0]), ops[1..], i, fn, mode,
                            if mode.ZcSend? then Some(ops[0].res) else noted)
    ensures DeliveredRight(h, ops, i, fn, mode, noted)
  {
    hide Inv, Step, CallFor, StaysLive, GetsAfter, Holds, CallsWith, Ends;
    HoldsInv(h, i, fn, mode, noted);
    InnerStep(h, ops[0], i, fn, mode, noted);
    RunsOn(h, ops, i);
    GoesOn(mode, noted, Cqe(ops[0].res, ops[0].flags), Received(Step(h, ops[0]), ops[1..], i), fn);
  }

  lemma EndsThere(mode: Mode, noted: Option<int>, e: Cqe, fn: Callback)
    requires Ends(mode, e)
    ensures CallsWith(fn, GetsAfter(mode, noted, [e]))
            == [Call(fn, if mode.ZcSend? && e.flags.notif then (if noted.Some? then noted.value else -EIO) else e.res)]
    ensures !StaysLive(mode, [e])
  {
  }

  lemma LastDelivered(h: History, ops: seq<Op>, i: nat, fn: Callback, mode: Mode, noted: Option<int>)
    requires Holds(h, i, fn, mode, noted) && ops != [] && Carries(h, ops[0], i)
    requires Ends(mode, Cqe(ops[0].res, ops[0].flags))
    ensures Inv(h) && DeliveredRight(h, ops, i, fn, mode, noted)
  {
    hide Inv, Step, CallFor, StaysLive, GetsAfter, Holds, CallsWith, Ends;
    HoldsInv(h, i, fn, mode, noted);
    LastStep(h, ops[0], i, fn, mode, noted);
    RunsOn(h, ops, i);
    NeverAgain(Step(h, ops[0]), ops[1..], i);
    var e := Cqe(ops[0].res, ops[0].flags);
    assert [e] + [] == [e];
    EndsThere(mode, noted, e, fn);
  }

  lemma {:induction false} Delivered(h: History, ops: seq<Op>, i: nat, fn: Callback, mode: Mode, noted: Option<int>)
    requires Holds(h, i, fn, mode, noted)
    ensures Inv(h) && DeliveredRight(h, ops, i, fn, mode, noted)
    decreases |ops|
  {
    hide Inv, Step, DeliveredRight, Carries, Ends, Holds;
    HoldsInv(h, i, fn, mode, noted);
    if ops == [] {
      NothingDelivered(h, i, fn, mode, noted);
    } else if !Carries(h, ops[0], i) {
      OtherStep(h, ops[0], i, fn, mode, noted);
      Delivered(Step(h, ops[0]), ops[1..], i, fn, mode, noted);
      OtherDelivered(h, ops, i, fn, mode, noted);
    } else {
      CarriesIsComplete(h, ops[0], i);
      if Ends(mode, Cqe(ops[0].res, ops[0].flags)) {
        LastDelivered(h, ops, i, fn, mode, noted);
      } else {
        InnerStep(h, ops[0], i, fn, mode, noted);
        Delivered(Step(h, ops[0]), ops[1..], i, fn, mode, if mode.ZcSend? then Some(ops[0].res) else noted);
        InnerDelivered(h, ops, i, fn, mode, noted);
      }
    }
  }

  lemma CarriesIsComplete(h: History, op: Op, i: nat)
    requires Carries(h, op, i)
    ensures op.Complete?
  {
  }

  lemma NewHolds(h: History, fn: Callback, mode: Mode)
    requires Inv(h) && NextSlot(h.table).Some?
    ensures Holds(Step(h, Reserve(fn, mode)), |h.reservations|, fn, mode, None)
  {
    hide Valid;
    StepKeepsInv(h, Reserve(fn, mode));
    FreeIsSlot(h.table);
    assert Parked(Step(h, Reserve(fn, mode)), |h.reservations|);
  }

  /**
   From any reachable state: whatever operations follow a reservation, its callback
   is called with exactly the results that its mode promises for the entries
   received under its token, and it is live exactly as long as none has ended it.
   */
  lemma CallbackGets(h: History, fn: Callback, mode: Mode, ops: seq<Op>)
    requires Inv(h) && NextSlot(h.table).Some?
    ensures var h1, i := Step(h, Reserve(fn, mode)), |h.reservations|;
            && Inv(h1)
            && Calls(h1, ops, i) == CallsWith(fn, Gets(mode, Received(h1, ops, i)))
            && i < |Run(h1, ops).reservations|
            && (Run(h1, ops).reservations[i].finished <==> !StaysLive(mode, Received(h1, ops, i)))
  {
    hide Inv, Step, Received, Calls, Run, Gets, GetsAfter, StaysLive, CallsWith, Holds;
    var h1, i := Step(h, Reserve(fn, mode)), |h.reservations|;
    NewHolds(h, fn, mode);
    Delivered(h1, ops, i, fn, mode, None);
    OneByOne(mode, Received(h1, ops, i));
  }

  /** Slots are reused last in, first out: the slot that a completion frees is the next one reserved,
      in its next round, and the slots free before it stay so. */
  lemma LastFreedFirst(h: History, slot: nat, gen: nat, res: int, flags: Flags, fn: Callback, mode: Mode)
    requires Inv(h) && ActionOf(h.table, slot, gen, res, flags).Finish?
    ensures var h1 := Step(h, Complete(slot, gen, res, flags));
            && Inv(h1)
            && var h2 := Step(h1, Reserve(fn, mode));
               && |h2.reservations| == |h.reservations| + 1 && h2.table.free == h.table.free
               && h2.reservations[|h.reservations|] == Reservation(slot, h.rounds[slot] + 1, fn, false)
  {
    hide Valid;
    StepKeepsInv(h, Complete(slot, gen, res, flags));
    assert Held(h, slot);
    var h1 := Step(h, Complete(slot, gen, res, flags));
    assert h1.table.free == h.table.free + [slot];
    assert (h.table.free + [slot])[..|h.table.free|] == h.table.free;
  }

  // -------------------------------------------------------------------- cancellation

  /** How many slots from `from` up to `to` are in use. */
  function UsedBetween(t: Table, from: nat, to: nat): nat
    requires from <= to <= |t.slots|
    decreases |t.slots| - from
  {
    if from == to then 0 else (if t.slots[from].inUse then 1 else 0) + UsedBetween(t, from + 1, to)
  }

  /** Cancelling calls the callback of every slot in use, in slot order, with -125, the negated
      ECANCELED, and makes no other call. */
  lemma {:induction false} CancelCallsEach(t: Table, from: nat, s: nat)
    requires from <= s < |t.slots| && t.slots[s].inUse
    ensures |CancelCalls(t, from)| == UsedBetween(t, from, |t.slots|)
    ensures var k := UsedBetween(t, from, s);
            k < |CancelCalls(t, from)| && CancelCalls(t, from)[k] == Call(t.slots[s].fn, 0 - 125)
    decreases |t.slots| - from
  {
    if from < s {
      CancelCallsEach(t, from + 1, s);
    } else {
      CancelCallsCount(t, from + 1);
    }
  }

  lemma {:induction false} CancelCallsCount(t: Table, from: nat)
    requires from <= |t.slots|
    ensures |CancelCalls(t, from)| == UsedBetween(t, from, |t.slots|)
    decreases |t.slots| - from
  {
    if from < |t.slots| { CancelCallsCount(t, from + 1); }
  }

  // --------------------------------------------------------------------- exhaustion

  /** In every run a slot number fits 32 bits. */
  lemma {:induction false} SlotsFit(h: History, ops: seq<Op>)
    requires Inv(h) && |h.table.slots| <= 0xffff_ffff
    ensures |Run(h, ops).table.slots| <= 0xffff_ffff
    decreases |ops|
  {
    hide Inv, Step;
    if ops == [] {
    } else {
      StepKeepsInv(h, ops[0]);
      StepFits(h, ops[0]);
      SlotsFit(Step(h, ops[0]), ops[1..]);
    }
  }

  lemma StepFits(h: History, op: Op)
    requires Inv(h) && |h.table.slots| <= 0xffff_ffff
    ensures |Step(h, op).table.slots| <= 0xffff_ffff
  {
    FreeIsSlot(h.table);
  }

  /** A reservation is refused only when 2^32 - 1 others are live. */
  lemma RefusedWhenFull(h: History)
    requires Inv(h) && NextSlot(h.table).None?
    ensures |InUse(h.table)| >= 0xffff_ffff
  {
    assert forall s :: 0 <= s < |h.table.slots| ==> h.table.slots[s].inUse;
    assert InUse(h.table) == Range(|h.table.slots|);
    RangeSize(|h.table.slots|);
  }

  // ---------------------------------------------------------- pending notifications

  /** What a send has noted after the entries: the last of them, if there are any. */
  function NotedAfter(mode: Mode, noted: Option<int>, es: seq<Cqe>): Option<int> {
    if mode.ZcSend? && es != [] then Some(es[|es| - 1].res) else noted
  }

  lemma NotedFirst(mode: Mode, noted: Option<int>, e: Cqe, es: seq<Cqe>)
    ensures NotedAfter(mode, noted, [e] + es) == NotedAfter(mode, if mode.ZcSend? then Some(e.res) else noted, es)
  {
  }

  lemma {:induction false} HoldsAfter(h: History, ops: seq<Op>, i: nat, fn: Callback, mode: Mode, noted: Option<int>)
    requires Holds(h, i, fn, mode, noted)
    requires Inv(h) && IsLive(Run(h, ops), i)
    ensures Holds(Run(h, ops), i, fn, mode, NotedAfter(mode, noted, Received(h, ops, i)))
    decreases |ops|
  {
    hide Inv, Step, Carries, Ends, Holds, CallFor, NotedAfter;
    if ops == [] {
      NothingNoted(mode, noted);
    } else {
      RunsOn(h, ops, i);
      var later := Received(Step(h, ops[0]), ops[1..], i);
      if !Carries(h, ops[0], i) {
        OtherStep(h, ops[0], i, fn, mode, noted);
        HoldsAfter(Step(h, ops[0]), ops[1..], i, fn, mode, noted);
        assert [] + later == later;
      } else {
        CarriesIsComplete(h, ops[0], i);
        if Ends(mode, Cqe(ops[0].res, ops[0].flags)) {
          LastStep(h, ops[0], i, fn, mode, noted);
          NeverAgain(Step(h, ops[0]), ops[1..], i);
        } else {
          InnerStep(h, ops[0], i, fn, mode, noted);
          HoldsAfter(Step(h, ops[0]), ops[1..], i, fn, mode, if mode.ZcSend? then Some(ops[0].res) else noted);
          NotedFirst(mode, noted, Cqe(ops[0].res, ops[0].flags), later);
        }
      }
    }
  }

  lemma NothingNoted(mode: Mode, noted: Option<int>)
    ensures NotedAfter(mode, noted, []) == noted
  {
  }

  /** A live reservation waits for a notification exactly when it is a zero-copy send that has
      received an entry. */
  lemma NotificationIsPending(h: History, fn: Callback, mode: Mode, ops: seq<Op>)
    requires Inv(h) && NextSlot(h.table).Some?
    ensures var h1, i := Step(h, Reserve(fn, mode)), |h.reservations|;
            && Inv(h1)
            && (IsLive(Run(h1, ops), i) ==>
                  var h2 := Run(h1, ops);
                  && h2.reservations[i].slot < |h2.table.slots|
                  && (NotificationPending(h2.table.slots[h2.reservations[i].slot]) <==>
                        mode.ZcSend? && Received(h1, ops, i) != []))
  {
    hide Inv, Step, Received, Run, Holds;
    var h1, i := Step(h, Reserve(fn, mode)), |h.reservations|;
    NewHolds(h, fn, mode);
    HoldsInv(h1, i, fn, mode, None);
    if IsLive(Run(h1, ops), i) {
      HoldsAfter(h1, ops, i, fn, mode, None);
      PendingIs(Run(h1, ops), i, fn, mode, NotedAfter(mode, None, Received(h1, ops, i)));
    }
  }

  lemma PendingIs(h: History, i: nat, fn: Callback, mode: Mode, noted: Option<int>)
    requires Holds(h, i, fn, mode, noted)
    ensures NotificationPending(h.table.slots[h.reservations[i].slot]) <==> mode.ZcSend? && noted.Some?
    ensures h.reservations[i].slot < |h.table.slots|
  {
    assert Parked(h, i);
  }
}
