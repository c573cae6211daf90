/**
 Every run of the completion table: which reservation a completion reaches. A
 ledger beside the table records each reservation and the unbounded number of
 times each slot has been finished.
 */
module CompletionHistory {
  import opened Bytes
  import opened CompletionTable
  import Arithmetic

  /** A reservation: the slot it got, how often that slot had been finished, its callback. */
  datatype Reservation = Reservation(slot: nat, round: nat, fn: Callback, finished: bool)

  datatype History = History(
    table: Table,
    rounds: seq<nat>,                // finishes so far, by slot
    holder: seq<nat>,                // the last reservation of each slot
    reservations: seq<Reservation>)

  const START: History := History(EMPTY, [], [], [])

  datatype Op = Reserve(fn: Callback, mode: Mode) | Complete(slot: nat, gen: nat, res: int, flags: Flags)

  /** The token handed out for a reservation. */
  function Token(r: Reservation): (nat, nat) { (r.slot, r.round % TWO32) }

  ghost predicate Inv(h: History) {
    && Valid(h.table)
    && |h.rounds| == |h.holder| == |h.table.slots|
    && (forall s :: 0 <= s < |h.rounds| ==> h.table.slots[s].gen == h.rounds[s] % TWO32)
    && (forall s :: 0 <= s < |h.rounds| ==> Held(h, s))
    && (forall r :: 0 <= r < |h.reservations| ==> Parked(h, r))
  }

  /** A slot in use is held by one unfinished reservation of the current round. */
  ghost predicate Held(h: History, s: nat)
    requires s < |h.rounds| == |h.holder| == |h.table.slots|
  {
    h.table.slots[s].inUse ==>
      && h.holder[s] < |h.reservations|
      && var r := h.reservations[h.holder[s]];
         r.slot == s && r.round == h.rounds[s] && r.fn == h.table.slots[s].fn && !r.finished
  }

  /** A reservation is finished exactly when its slot has moved on to a later round. */
  ghost predicate Parked(h: History, i: nat)
    requires i < |h.reservations| && |h.rounds| == |h.holder| == |h.table.slots|
  {
    var r := h.reservations[i];
    && r.slot < |h.rounds|
    && (r.finished ==> r.round < h.rounds[r.slot])
    && (!r.finished ==> r.round == h.rounds[r.slot] && h.table.slots[r.slot].inUse && h.holder[r.slot] == i)
  }

  /** A reservation that does not fit (`length_error`) changes nothing. */
  function Step(h: History, op: Op): History
    requires Inv(h)
  {
    match op
    case Reserve(fn, mode) =>
      (match NextSlot(h.table)
       case None => h
       case Some(slot) =>
         var t := Reserved(h.table, fn, mode);
         if slot < |h.rounds|
         then History(t, h.rounds, h.holder[slot := |h.reservations|],
                      h.reservations + [Reservation(slot, h.rounds[slot], fn, false)])
         else History(t, h.rounds + [0], h.holder + [|h.reservations|],
                      h.reservations + [Reservation(slot, 0, fn, false)]))
    case Complete(slot, gen, res, flags) =>
      var action := ActionOf(h.table, slot, gen, res, flags);
      var t := Dispatched(h.table, slot, action);
      if action.Finish?
      then
        var i := h.holder[slot];
        assert Held(h, slot);
        History(t, h.rounds[slot := h.rounds[slot] + 1], h.holder,
                h.reservations[i := h.reservations[i].(finished := true)])
      else h.(table := t)
  }

  lemma ReserveKeepsInv(h: History, fn: Callback, mode: Mode)
    requires Inv(h)
    ensures Inv(Step(h, Reserve(fn, mode)))
  {
    if NextSlot(h.table).Some? {
      ReserveKeepsValid(h.table, fn, mode);
      var h' := Step(h, Reserve(fn, mode));
      var slot := NextSlot(h.table).value;
      assert slot < |h.rounds| ==> Held(h, slot);
      forall s | 0 <= s < |h'.rounds| ensures Held(h', s) { assert s < |h.rounds| ==> Held(h, s); }
      forall r | 0 <= r < |h'.reservations| ensures Parked(h', r) {
        assert r < |h.reservations| ==> Parked(h, r);
      }
    }
  }

  lemma FinishMeans(t: Table, slot: nat, gen: nat, res: int, flags: Flags)
    requires ActionOf(t, slot, gen, res, flags).Finish?
    ensures slot < |t.slots| && t.slots[slot].inUse
  {
  }

  lemma FinishKeepsInv(h: History, slot: nat, gen: nat, res: int, flags: Flags)
    requires Inv(h) && ActionOf(h.table, slot, gen, res, flags).Finish?
    ensures Inv(Step(h, Complete(slot, gen, res, flags)))
  {
    hide Valid, ActionOf;
    DispatchKeepsValid(h.table, slot, gen, res, flags);
    FinishMeans(h.table, slot, gen, res, flags);
    var h' := Step(h, Complete(slot, gen, res, flags));
    assert Held(h, slot);
    forall s | 0 <= s < |h'.rounds| ensures Held(h', s) { assert Held(h, s); }
    forall r | 0 <= r < |h'.reservations| ensures Parked(h', r) { assert Parked(h, r); }
  }

  lemma CompleteKeepsInv(h: History, slot: nat, gen: nat, res: int, flags: Flags)
    requires Inv(h)
    ensures Inv(Step(h, Complete(slot, gen, res, flags)))
  {
    if ActionOf(h.table, slot, gen, res, flags).Finish? {
      FinishKeepsInv(h, slot, gen, res, flags);
    } else {
      DispatchKeepsValid(h.table, slot, gen, res, flags);
      var h' := Step(h, Complete(slot, gen, res, flags));
      forall s | 0 <= s < |h'.rounds| ensures Held(h', s) { assert Held(h, s); }
      forall r | 0 <= r < |h'.reservations| ensures Parked(h', r) { assert Parked(h, r); }
    }
  }

  function Run(h: History, ops: seq<Op>): History
    requires Inv(h)
    decreases |ops|
  {
    if ops == [] then h
    else
      StepKeepsInv(h, ops[0]);
      Run(Step(h, ops[0]), ops[1..])
  }

  lemma StepKeepsInv(h: History, op: Op)
    requires Inv(h)
    ensures Inv(Step(h, op))
  {
    match op
    case Reserve(fn, mode) => ReserveKeepsInv(h, fn, mode);
    case Complete(slot, gen, res, flags) => CompleteKeepsInv(h, slot, gen, res, flags);
  }

  lemma {:induction false} RunKeepsInv(h: History, ops: seq<Op>)
    requires Inv(h)
    ensures Inv(Run(h, ops))
    decreases |ops|
  {
    if ops == [] {
    } else {
      StepKeepsInv(h, ops[0]);
      RunKeepsInv(Step(h, ops[0]), ops[1..]);
    }
  }

  /** Two live reservations never share a token. */
  lemma TokensDistinct(h: History, i: nat, j: nat)
    requires Inv(h) && i < j < |h.reservations|
    requires !h.reservations[i].finished && !h.reservations[j].finished
    ensures Token(h.reservations[i]) != Token(h.reservations[j])
  {
    assert Parked(h, i) && Parked(h, j);
  }

  /**
   In any reachable state, a completion that carries the token of reservation `i`
   reaches reservation `i` as long as it is not finished. Once it is finished, the
   completion is ignored exactly when the slot is idle or has been finished a number
   of times since then that is not a multiple of 2^32; otherwise it reaches the
   callback of another reservation.
   */
  lemma TokenReaches(h: History, i: nat, res: int, flags: Flags)
    requires Inv(h) && i < |h.reservations|
    ensures var r := h.reservations[i];
            var action := ActionOf(h.table, Token(r).0, Token(r).1, res, flags);
            && r.slot < |h.rounds| && r.round <= h.rounds[r.slot]
            && (!r.finished ==> !action.Ignore? && h.holder[r.slot] == i && h.table.slots[r.slot].fn == r.fn)
            && (r.finished ==>
                  (action.Ignore? <==>
                     !h.table.slots[r.slot].inUse || (h.rounds[r.slot] - r.round) % TWO32 != 0))
            && (r.finished && !action.Ignore? ==> h.holder[r.slot] != i)
  {
    var r := h.reservations[i];
    assert Parked(h, i);
    assert Held(h, r.slot);
    SameResidue(r.round, h.rounds[r.slot]);
  }

  lemma SameResidue(a: nat, b: nat)
    requires a <= b
    ensures a % TWO32 == b % TWO32 <==> (b - a) % TWO32 == 0
  {
  }

  // ---------------------------------------------------------- a token that comes back

  /** `k` times: reserve a slot, and complete it. */
  function Cycles(fn: Callback, k: nat): seq<Op> {
    if k == 0 then []
    else Cycles(fn, k - 1) + [Reserve(fn, Single), Complete(0, (k - 1) % TWO32, 0, NO_FLAGS)]
  }

  lemma {:induction false} RunConcat(h: History, a: seq<Op>, b: seq<Op>)
    requires Inv(h)
    ensures Inv(Run(h, a)) && Run(h, a + b) == Run(Run(h, a), b)
    decreases |a|
  {
    hide Inv, Step;
    if a == [] {
      assert a + b == b;
    } else {
      StepKeepsInv(h, a[0]);
      RunConcat(Step(h, a[0]), a[1..], b);
      assert (a + b)[0] == a[0] && (a + b)[1..] == a[1..] + b;
    }
  }

  /** The history after `k` cycles: one idle slot, finished `k` times. */
  ghost predicate Cycled(h: History, fn: Callback, k: nat) {
    && |h.reservations| == k
    && (forall i :: 0 <= i < k ==> h.reservations[i] == Reservation(0, i, fn, true))
    && (k == 0 ==> h == START)
    && (k > 0 ==>
          && h.table == Table([Slot(k % TWO32, false, Single, 0, false, fn)], [0])
          && h.rounds == [k] && |h.holder| == 1)
  }

  lemma NextRound(k: nat)
    ensures (k % TWO32 + 1) % TWO32 == (k + 1) % TWO32
  {
  }

  /** Reserving after `k` cycles gives slot 0 in round `k`. */
  lemma ReserveAgain(h: History, fn: Callback, k: nat)
    requires Inv(h) && Cycled(h, fn, k)
    ensures var h' := Step(h, Reserve(fn, Single));
            && h'.table == Table([Slot(k % TWO32, true, Single, 0, false, fn)], []) && h'.rounds == [k]
            && h'.holder == [k] && h'.reservations == h.reservations + [Reservation(0, k, fn, false)]
  {
  }

  lemma CycleStep(h: History, fn: Callback, k: nat)
    requires Inv(h) && Cycled(h, fn, k)
    ensures var h1 := Step(h, Reserve(fn, Single));
            Inv(h1) && Cycled(Step(h1, Complete(0, k % TWO32, 0, NO_FLAGS)), fn, k + 1)
  {
    StepKeepsInv(h, Reserve(fn, Single));
    ReserveAgain(h, fn, k);
    var h1 := Step(h, Reserve(fn, Single));
    FinishAgain(h1, fn, k);
    ReservationsCycled(h.reservations, fn, k);
  }

  /** Completing it leaves the slot idle in the next round. */
  lemma FinishAgain(h: History, fn: Callback, k: nat)
    requires Inv(h) && h.table == Table([Slot(k % TWO32, true, Single, 0, false, fn)], []) && h.rounds == [k]
    requires h.holder == [k] && |h.reservations| == k + 1
    ensures var h' := Step(h, Complete(0, k % TWO32, 0, NO_FLAGS));
            && h'.table == Table([Slot((k + 1) % TWO32, false, Single, 0, false, fn)], [0]) && h'.rounds == [k + 1]
            && h'.holder == [k] && h'.reservations == h.reservations[k := h.reservations[k].(finished := true)]
  {
    hide Inv;
    NextRound(k);
  }

  lemma ReservationsCycled(rs: seq<Reservation>, fn: Callback, k: nat)
    requires |rs| == k && forall i :: 0 <= i < k ==> rs[i] == Reservation(0, i, fn, true)
    ensures var rs' := rs + [Reservation(0, k, fn, false)];
            forall i :: 0 <= i <= k ==> rs'[k := rs'[k].(finished := true)][i] == Reservation(0, i, fn, true)
  {
  }

  lemma {:induction false} CyclesRun(fn: Callback, k: nat)
    ensures Inv(START) && Inv(Run(START, Cycles(fn, k))) && Cycled(Run(START, Cycles(fn, k)), fn, k)
  {
    if k == 0 {
    } else {
      hide Inv, Step, Cycled;
      CyclesRun(fn, k - 1);
      var h := Run(START, Cycles(fn, k - 1));
      var pair := [Reserve(fn, Single), Complete(0, (k - 1) % TWO32, 0, NO_FLAGS)];
      RunConcat(START, Cycles(fn, k - 1), pair);
      CycleStep(h, fn, k - 1);
      RunPair(h, pair[0], pair[1]);
      RunKeepsInv(h, pair);
    }
  }

  lemma RunPair(h: History, a: Op, b: Op)
    requires Inv(h) && Inv(Step(h, a))
    ensures Run(h, [a, b]) == Step(Step(h, a), b)
  {
    hide Inv, Step;
    StepKeepsInv(h, a);
    StepKeepsInv(Step(h, a), b);
    assert [a, b][1..] == [b] && [b][1..] == [];
    assert Run(Step(Step(h, a), b), []) == Step(Step(h, a), b);
    assert Run(Step(h, a), [b]) == Run(Step(Step(h, a), b), [b][1..]);
  }

  /** A reachable history in which a stale token is taken: after 2^32 cycles the first token of
      all, long finished, names the reservation made next. */
  lemma StaleTokenTaken(fn: Callback, res: int)
    ensures Inv(START)
    ensures var h := Run(START, Cycles(fn, TWO32) + [Reserve(fn, Single)]);
            && Inv(h) && |h.reservations| == TWO32 + 1 && h.holder == [TWO32]
            && h.reservations[0].finished && !h.reservations[TWO32].finished
            && Token(h.reservations[0]) == Token(h.reservations[TWO32])
            && ActionOf(h.table, Token(h.reservations[0]).0, Token(h.reservations[0]).1, res, NO_FLAGS)
               == Finish(Call(fn, res))
  {
    hide Inv, Cycles;
    var k: nat := TWO32;
    CyclesRun(fn, k);
    var h := Run(START, Cycles(fn, k));
    var last := [Reserve(fn, Single)];
    RunConcat(START, Cycles(fn, k), last);
    RunKeepsInv(START, Cycles(fn, k) + last);
    StepKeepsInv(h, last[0]);
    assert last[1..] == [];
    assert Run(h, last) == Run(Step(h, last[0]), last[1..]) == Step(h, last[0]);
    ReserveAgain(h, fn, k);
  }

  // -------------------------------------------------------------- conservation

  function Finished(rs: seq<Reservation>): nat {
    if rs == [] then 0
    else Finished(rs[..|rs| - 1]) + (if rs[|rs| - 1].finished then 1 else 0)
  }

  lemma {:induction false} FinishOne(rs: seq<Reservation>, i: nat)
    requires i < |rs| && !rs[i].finished
    ensures Finished(rs[i := rs[i].(finished := true)]) == Finished(rs) + 1
  {
    var rs' := rs[i := rs[i].(finished := true)];
    if i < |rs| - 1 {
      FinishOne(rs[..|rs| - 1], i);
      assert rs'[..|rs| - 1] == rs[..|rs| - 1][i := rs[i].(finished := true)];
    } else {
      assert rs'[..|rs| - 1] == rs[..|rs| - 1];
    }
  }

  /** A completion finishes one reservation, once, or none. */
  lemma StepFinishes(h: History, op: Op)
    requires Inv(h)
    ensures var h' := Step(h, op);
            && |h.reservations| <= |h'.reservations|
            && (forall i :: 0 <= i < |h.reservations| && h.reservations[i].finished ==> h'.reservations[i].finished)
            && Finished(h'.reservations) == Finished(h.reservations)
               + (if op.Complete? && ActionOf(h.table, op.slot, op.gen, op.res, op.flags).Finish? then 1 else 0)
  {
    var h' := Step(h, op);
    if op.Complete? {
      if ActionOf(h.table, op.slot, op.gen, op.res, op.flags).Finish? {
        assert Held(h, op.slot);
        FinishOne(h.reservations, h.holder[op.slot]);
      }
    } else if NextSlot(h.table).Some? {
      assert h'.reservations[..|h.reservations|] == h.reservations;
    }
  }

  /** The live reservations are the slots in use, so
      reservations made == reservations finished + slots in use. */
  lemma Conservation(h: History)
    requires Inv(h)
    ensures |h.reservations| == Finished(h.reservations) + |InUse(h.table)|
  {
    var live := Live(h.reservations);
    LiveCount(h.reservations);
    var f: nat -> nat := (i: nat) => if i < |h.reservations| then h.reservations[i].slot else 0;
    var g: nat -> nat := (s: nat) => if s < |h.holder| then h.holder[s] else 0;
    forall i | i in live ensures f(i) in InUse(h.table) && g(f(i)) == i { assert Parked(h, i); }
    forall s | s in InUse(h.table) ensures g(s) in live && f(g(s)) == s { assert Held(h, s); }
    Arithmetic.SameSize<nat, nat>(live, InUse(h.table), f, g);
  }

  function Live(rs: seq<Reservation>): set<nat> { set i: nat | i < |rs| && !rs[i].finished }

  lemma {:induction false} LiveCount(rs: seq<Reservation>)
    ensures |Live(rs)| + Finished(rs) == |rs|
  {
    if rs != [] {
      var n := |rs| - 1;
      LiveCount(rs[..n]);
      if rs[n].finished {
        assert Live(rs) == Live(rs[..n]);
      } else {
        assert Live(rs) == Live(rs[..n]) + {n};
      }
    } else {
      assert Live(rs) == {};
    }
  }

  /** The whole story of a run from the empty table: every reservation has been finished at most
      once, the unfinished ones are exactly the slots in use, and no live token is ambiguous. */
  lemma RunFromStart(ops: seq<Op>)
    ensures Inv(START) && Inv(Run(START, ops))
    ensures var h := Run(START, ops); |h.reservations| == Finished(h.reservations) + |InUse(h.table)|
  {
    RunKeepsInv(START, ops);
    Conservation(Run(START, ops));
  }

  // --------------------------------------------------------------- cancellation

  /** What never changes about a reservation, and what only ever becomes true. */
  ghost predicate Grows(h: History, h': History) {
    && |h.reservations| <= |h'.reservations| && |h.table.slots| <= |h'.table.slots|
    && forall i :: 0 <= i < |h.reservations| ==>
         && h'.reservations[i].slot == h.reservations[i].slot
         && (h.reservations[i].finished ==> h'.reservations[i].finished)
  }

  lemma StepGrows(h: History, op: Op)
    requires Inv(h)
    ensures Grows(h, Step(h, op))
  {
    if op.Complete? && ActionOf(h.table, op.slot, op.gen, op.res, op.flags).Finish? { assert Held(h, op.slot); }
  }

  lemma {:induction false} RunGrows(h: History, ops: seq<Op>)
    requires Inv(h)
    ensures Inv(Run(h, ops)) && Grows(h, Run(h, ops))
    decreases |ops|
  {
    hide Inv, Step;
    if ops == [] {
    } else {
      StepKeepsInv(h, ops[0]);
      StepGrows(h, ops[0]);
      RunGrows(Step(h, ops[0]), ops[1..]);
    }
  }

  /** One turn of the loop in `cancel_all`, as the completion it amounts to. */
  function CancelOp(h: History, slot: nat): Op {
    Complete(slot, Generation(h.table, slot), -ECANCELED, NO_FLAGS)
  }

  /** A turn and then whatever its callback does to the table. */
  function CancelTurnOf(h: History, slot: nat, nested: seq<Op>): History
    requires Inv(h)
  {
    StepKeepsInv(h, CancelOp(h, slot));
    Run(Step(h, CancelOp(h, slot)), nested)
  }

  /** The loop of `cancel_all` from a slot on; `nested[s]` is what the callback of slot `s` does to the
      table before it returns. The number of turns is fixed at the start. */
  function CancelLoop(h: History, slot: nat, nested: seq<seq<Op>>): History
    requires Inv(h)
    decreases |nested| - slot
  {
    if slot >= |nested| then h
    else
      TurnGrows(h, slot, nested[slot]);
      CancelLoop(CancelTurnOf(h, slot, nested[slot]), slot + 1, nested)
  }

  lemma TurnGrows(h: History, slot: nat, nested: seq<Op>)
    requires Inv(h)
    ensures var h' := CancelTurnOf(h, slot, nested); Inv(h') && Grows(h, h')
  {
    hide Inv, Step;
    var op := CancelOp(h, slot);
    StepKeepsInv(h, op);
    StepGrows(h, op);
    RunGrows(Step(h, op), nested);
  }

  /** A turn finishes the reservation that holds its slot. */
  lemma TurnFinishes(h: History, i: nat, nested: seq<Op>)
    requires Inv(h) && i < |h.reservations|
    ensures var h' := CancelTurnOf(h, h.reservations[i].slot, nested);
            i < |h'.reservations| && h'.reservations[i].finished
  {
    var op := CancelOp(h, h.reservations[i].slot);
    assert Parked(h, i);
    StepKeepsInv(h, op);
    StepGrows(h, op);
    assert Step(h, op).reservations[i].finished;
    RunGrows(Step(h, op), nested);
  }

  lemma {:induction false} CancelFinishes(h: History, slot: nat, nested: seq<seq<Op>>, i: nat)
    requires Inv(h) && i < |h.reservations|
    requires h.reservations[i].finished || slot <= h.reservations[i].slot < |nested|
    ensures var h' := CancelLoop(h, slot, nested);
            Inv(h') && Grows(h, h') && h'.reservations[i].finished
    decreases |nested| - slot
  {
    hide Inv, CancelTurnOf;
    if slot < |nested| {
      TurnGrows(h, slot, nested[slot]);
      if h.reservations[i].slot == slot { TurnFinishes(h, i, nested[slot]); }
      CancelFinishes(CancelTurnOf(h, slot, nested[slot]), slot + 1, nested, i);
    }
  }

  /** Some zero-copy send waits for its notification. */
  predicate MustWait(t: Table) { exists s :: 0 <= s < |t.slots| && NotificationPending(t.slots[s]) }

  /** `cancel_all`: the new history, and whether it cancelled. */
  function CancelAll(h: History, nested: seq<seq<Op>>): (History, bool)
    requires Inv(h)
  {
    if MustWait(h.table) then (h, false) else (CancelLoop(h, 0, nested), true)
  }

  /**
   `cancel_all` is refused, and changes nothing, exactly while a zero-copy send
   waits for its notification. Otherwise, whatever the callbacks do to the table
   while they are being cancelled, and even if they reserve the slots just freed, it
   finishes every reservation that was made before it started.
   */
  lemma AllCancelled(h: History, nested: seq<seq<Op>>)
    requires Inv(h) && |nested| == |h.table.slots|
    ensures var (h', ok) := CancelAll(h, nested);
            && Inv(h') && (ok <==> !MustWait(h.table))
            && (!ok ==> h' == h)
            && (ok ==>
                  && |h.reservations| <= |h'.reservations|
                  && forall i :: 0 <= i < |h.reservations| ==> h'.reservations[i].finished)
  {
    hide CancelLoop, MustWait;
    LoopGrows(h, 0, nested);
    forall i | 0 <= i < |h.reservations| ensures CancelLoop(h, 0, nested).reservations[i].finished {
      assert Parked(h, i);
      CancelFinishes(h, 0, nested, i);
    }
  }

  lemma {:induction false} LoopGrows(h: History, slot: nat, nested: seq<seq<Op>>)
    requires Inv(h)
    ensures var h' := CancelLoop(h, slot, nested); Inv(h') && Grows(h, h')
    decreases |nested| - slot
  {
    hide Inv, CancelTurnOf;
    if slot >= |nested| {
    } else {
      TurnGrows(h, slot, nested[slot]);
      LoopGrows(CancelTurnOf(h, slot, nested[slot]), slot + 1, nested);
    }
  }

  /** A refused cancellation leaves a live reservation: after its send completion, a zero-copy
      reservation waits for the notification. */
  lemma RefusedWhileWaiting(nested: seq<seq<Op>>)
    ensures Inv(START)
    ensures var h := Run(START, [Reserve(7, ZcSend), Complete(0, 0, 10, Flags(true, false))]);
            && Inv(h) && CancelAll(h, nested) == (h, false)
            && |h.reservations| == 1 && !h.reservations[0].finished
  {
    hide Run, CancelLoop;
    var a, b := Reserve(7, ZcSend), Complete(0, 0, 10, Flags(true, false));
    StepKeepsInv(START, a);
    RunPair(START, a, b);
    RunKeepsInv(START, [a, b]);
    var h := Step(Step(START, a), b);
    assert NotificationPending(h.table.slots[0]);
  }
}
