/**
 Waiting for one response among the messages the reader thread queues: the
 clangd driver sets other messages aside and queues them again when it has found
 its response.
 */
module LspMailbox {
  import opened Bytes

  /** What a message is: the answer to a request of the client, a request of the server, which has a
      number of the server's own, or a notification. */
  datatype Kind = Answer | ServerRequest | Notification

  /** A queued message; `Exit` is the `None` the reader queues at the end of the stream. */
  datatype Message = Msg(kind: Kind, id: Option<int>, content: bytes) | Exit

  datatype Waited = Response(message: Message) | Timeout | Exited

  /** `q` is a shuffle of `a` and `b`: each keeps its own order. */
  ghost predicate Shuffle<T>(q: seq<T>, a: seq<T>, b: seq<T>)
    decreases |a| + |b|
  {
    if a == [] then q == b
    else if b == [] then q == a
    else
      || (q != [] && q[|q| - 1] == a[|a| - 1] && Shuffle(q[..|q| - 1], a[..|a| - 1], b))
      || (q != [] && q[|q| - 1] == b[|b| - 1] && Shuffle(q[..|q| - 1], a, b[..|b| - 1]))
  }

  lemma ShuffleNone<T>(q: seq<T>, a: seq<T>, b: seq<T>)
    requires q == a && b == []
    ensures Shuffle(q, a, b)
  {
  }

  lemma ShuffleAddLeft<T>(q: seq<T>, a: seq<T>, b: seq<T>, x: T)
    requires Shuffle(q, a, b)
    ensures Shuffle(q + [x], a + [x], b)
  {
    assert (q + [x])[..|q|] == q && (a + [x])[..|a|] == a;
  }

  lemma ShuffleAddRight<T>(q: seq<T>, a: seq<T>, b: seq<T>, x: T)
    requires Shuffle(q, a, b)
    ensures Shuffle(q + [x], a, b + [x])
  {
    assert (q + [x])[..|q|] == q && (b + [x])[..|b|] == b;
  }

  lemma InitLast<T>(q: seq<T>)
    requires q != []
    ensures multiset(q) == multiset(q[..|q| - 1]) + multiset{q[|q| - 1]}
  {
    assert q == q[..|q| - 1] + [q[|q| - 1]];
  }

  lemma {:induction false} ShuffleMultiset<T>(q: seq<T>, a: seq<T>, b: seq<T>)
    requires Shuffle(q, a, b)
    ensures multiset(q) == multiset(a) + multiset(b)
    decreases |a| + |b|
  {
    if a != [] && b != [] {
      InitLast(q);
      if q[|q| - 1] == a[|a| - 1] && Shuffle(q[..|q| - 1], a[..|a| - 1], b) {
        InitLast(a);
        ShuffleMultiset(q[..|q| - 1], a[..|a| - 1], b);
      } else {
        InitLast(b);
        ShuffleMultiset(q[..|q| - 1], a, b[..|b| - 1]);
      }
    }
  }

  /** Message `k` is the first one with the number, and no `Exit` comes before it. */
  ghost predicate IsFirst(q: seq<Message>, rid: int, k: nat) {
    k < |q| && q[k].Msg? && q[k].id == Some(rid) && Others(q[..k], rid)
  }

  /** The queue without message `k`, the messages before it moved behind those after it. */
  function Rotated<T>(q: seq<T>, k: nat): (r: seq<T>)
    requires k < |q|
    ensures |r| == |q| - 1
  {
    q[k + 1..] + q[..k]
  }

  /** The queue between the reader thread and the client. */
  class Mailbox {
    var queue: seq<Message>
    /** What the reader thread will queue, and how much of it is queued already. */
    const arrivals: seq<Message>
    var arrived: nat
    var nextId: nat
    /** Whether the clock has passed the deadline of the wait. */
    var expired: bool
    /** The ids of the requests made so far. */
    ghost var issued: seq<nat>

    ghost predicate Valid()
      reads this
    {
      && arrived <= |arrivals|
      && (forall i :: 0 <= i < |issued| ==> issued[i] < nextId)
      && (forall i, j :: 0 <= i < j < |issued| ==> issued[i] != issued[j])
    }

    constructor (arrivals: seq<Message>)
      ensures Valid() && queue == [] && this.arrivals == arrivals && arrived == 0 && nextId == 1 && issued == []
      ensures !expired
    {
      queue, this.arrivals, arrived, nextId, expired, issued := [], arrivals, 0, 1, false, [];
    }

    /** `request`: no two requests get the same id. */
    method NextRequestId() returns (rid: nat)
      requires Valid()
      modifies this`nextId, this`issued
      ensures Valid() && issued == old(issued) + [rid]
      ensures rid !in old(issued) && rid == old(nextId) && nextId == rid + 1
    {
      rid := nextId;
      nextId := nextId + 1;
      issued := issued + [rid];
    }

    /** The reader thread may queue any number of messages at any time. */
    method Arrive()
      requires Valid()
      modifies this`queue, this`arrived
      ensures Valid() && old(arrived) <= arrived
      ensures queue == old(queue) + arrivals[old(arrived)..arrived]
    {
      var n: nat :| arrived <= n <= |arrivals|;
      queue := queue + arrivals[arrived..n];
      arrived := n;
    }

    /** `get` with the time left: the first message, or none once the deadline has passed. */
    method Get() returns (msg: Option<Message>)
      requires Valid()
      modifies this`queue, this`arrived, this`expired
      ensures Valid() && old(arrived) <= arrived && expired == (old(expired) || msg.None?)
      ensures old(queue) + arrivals[old(arrived)..arrived]
              == (match msg case None => [] case Some(m) => [m]) + queue
    {
      Arrive();
      var late: bool := *;
      if late || queue == [] {
        expired := true;
        return None;
      }
      msg := Some(queue[0]);
      queue := queue[1..];
    }

    /** The waiting loop: take messages until one has the id, setting the others aside. */
    method TakeResponse(rid: int) returns (r: Waited, stash: seq<Message>)
      requires Valid() && !expired
      modifies this`queue, this`arrived, this`expired
      ensures Valid() && old(arrived) <= arrived
      ensures Others(stash, rid) && (r.Timeout? <==> expired)
      ensures r.Response? ==> r.message.Msg? && r.message.id == Some(rid)
      ensures old(queue) + arrivals[old(arrived)..arrived]
              == stash + (match r case Response(m) => [m] case Timeout => [] case Exited => [Exit]) + queue
    {
      stash := [];
      while true
        invariant Valid() && old(arrived) <= arrived && Others(stash, rid) && !expired
        invariant old(queue) + arrivals[old(arrived)..arrived] == stash + queue
        decreases |old(queue)| + |arrivals| - |stash|
      {
        ghost var before, a := queue, arrived;
        var got := Get();
        StillInOrder(old(queue), arrivals, old(arrived), a, arrived, stash, before);
        if got.None? { return Timeout, stash; }
        var msg := got.value;
        assert stash + ([msg] + queue) == stash + [msg] + queue;
        if msg.Exit? { return Exited, stash; }
        if msg.id == Some(rid) { return Response(msg), stash; }
        stash := stash + [msg];
      }
    }

    /** Queueing the messages set aside again, behind the queue, while the reader goes on queueing. */
    method Requeue(stash: seq<Message>)
      requires Valid()
      modifies this`queue, this`arrived
      ensures Valid() && old(arrived) <= arrived && old(queue) <= queue
      ensures Shuffle(queue[|old(queue)|..], arrivals[old(arrived)..arrived], stash)
    {
      hide Shuffle;
      ghost var tail: seq<Message> := [];
      ShuffleNone(tail, arrivals[arrived..arrived], stash[..0]);
      for i := 0 to |stash|
        invariant Valid() && old(arrived) <= arrived && queue == old(queue) + tail
        invariant Shuffle(tail, arrivals[old(arrived)..arrived], stash[..i])
      {
        ghost var a := arrived;
        Arrive();
        ghost var came := arrivals[a..arrived];
        ShuffleExtend(tail, arrivals[old(arrived)..a], stash[..i], came);
        assert arrivals[old(arrived)..a] + came == arrivals[old(arrived)..arrived];
        ShuffleAddRight(tail + came, arrivals[old(arrived)..arrived], stash[..i], stash[i]);
        assert stash[..i] + [stash[i]] == stash[..i + 1];
        assert queue + [stash[i]] == old(queue) + (tail + came + [stash[i]]);
        queue := queue + [stash[i]];
        tail := tail + came + [stash[i]];
      }
      assert stash[..|stash|] == stash;
      assert queue[|old(queue)|..] == tail;
    }

    /**
     `wait_response`. Of the messages queued before it returns, in order: those in
     `stash` were set aside, the next is the first with the id, those in `unread`
     were queued when it was found and those in `later` came while the stash was
     queued again. The queue then is `unread`, followed by a shuffle of `later` and
     `stash`. When the wait fails the messages set aside are gone. It times out only
     when the deadline has passed. No two requests have the id of the response.
     */
    method WaitResponse(rid: int)
      returns (r: Waited, ghost stash: seq<Message>, ghost unread: seq<Message>, ghost later: seq<Message>)
      requires Valid() && !expired
      modifies this`queue, this`arrived, this`expired
      ensures Valid() && old(arrived) <= arrived
      ensures Others(stash, rid) && (r.Timeout? <==> expired)
      ensures old(queue) + arrivals[old(arrived)..arrived]
              == stash + (match r case Response(m) => [m] case Timeout => [] case Exited => [Exit]) + unread + later
      ensures r.Response? ==>
                && IsFirst(old(queue) + arrivals[old(arrived)..arrived], rid, |stash|)
                && r.message == (old(queue) + arrivals[old(arrived)..arrived])[|stash|]
                && unread <= queue && Shuffle(queue[|unread|..], later, stash)
      ensures !r.Response? ==> queue == unread && later == []
      ensures r.Response? && arrived == old(arrived) ==>
                |stash| < |old(queue)| && queue == Rotated(old(queue), |stash|)
      ensures r.Response? ==>
                forall i, j :: 0 <= i < |issued| && 0 <= j < |issued| && issued[i] == issued[j] == rid ==> i == j
    {
      hide Shuffle;
      var aside;
      r, aside := TakeResponse(rid);
      ghost var a := arrived;
      stash, unread, later := aside, queue, [];
      if r.Response? {
        Requeue(aside);
        later := arrivals[a..arrived];
        StillInOrder(old(queue), arrivals, old(arrived), a, arrived, stash + [r.message], unread);
        InOrder(old(queue) + arrivals[old(arrived)..arrived], stash, r.message, unread, later);
        if arrived == old(arrived) {
          ShuffleNothing(queue[|unread|..], later, stash);
          RotatedIs(old(queue), arrivals[old(arrived)..arrived], stash, r.message, unread, queue);
        }
      }
    }
  }

  /** Without arrivals the queue is the old one, turned at the response. */
  lemma RotatedIs(before: seq<Message>, came: seq<Message>, stash: seq<Message>, m: Message, unread: seq<Message>,
                  queue: seq<Message>)
    requires came == [] && before + came == stash + [m] + unread
    requires unread <= queue && queue[|unread|..] == stash
    ensures |stash| < |before| && queue == Rotated(before, |stash|)
  {
    assert before == stash + [m] + unread;
    assert before[|stash| + 1..] == unread && before[..|stash|] == stash;
  }

  /** The parts of the messages in order, by position. */
  lemma InOrder(all: seq<Message>, stash: seq<Message>, m: Message, unread: seq<Message>, later: seq<Message>)
    requires all == stash + [m] + (unread + later)
    ensures all == stash + [m] + unread + later && |stash| < |all|
    ensures all[|stash|] == m && all[..|stash|] == stash && all[|stash| + 1..] == unread + later
  {
  }

  lemma ShuffleNothing<T>(q: seq<T>, a: seq<T>, b: seq<T>)
    requires Shuffle(q, a, b) && a == []
    ensures q == b
  {
  }

  ghost predicate Others(stash: seq<Message>, rid: int) {
    forall i :: 0 <= i < |stash| ==> stash[i].Msg? && stash[i].id != Some(rid)
  }

  lemma StillInOrder(queue0: seq<Message>, arrivals: seq<Message>, a0: nat, a: nat, b: nat,
                     stash: seq<Message>, queue: seq<Message>)
    requires a0 <= a <= b <= |arrivals| && queue0 + arrivals[a0..a] == stash + queue
    ensures queue0 + arrivals[a0..b] == stash + (queue + arrivals[a..b])
  {
    assert arrivals[a0..b] == arrivals[a0..a] + arrivals[a..b];
    assert queue0 + (arrivals[a0..a] + arrivals[a..b]) == (queue0 + arrivals[a0..a]) + arrivals[a..b];
    assert stash + (queue + arrivals[a..b]) == (stash + queue) + arrivals[a..b];
  }

  lemma {:induction false} ShuffleExtend<T>(q: seq<T>, a: seq<T>, b: seq<T>, more: seq<T>)
    requires Shuffle(q, a, b)
    ensures Shuffle(q + more, a + more, b)
    decreases |more|
  {
    if more == [] {
      assert q + more == q && a + more == a;
    } else {
      var last := more[|more| - 1];
      ShuffleExtend(q, a, b, more[..|more| - 1]);
      ShuffleAddLeft(q + more[..|more| - 1], a + more[..|more| - 1], b, last);
      assert q + more == q + more[..|more| - 1] + [last] && a + more == a + more[..|more| - 1] + [last];
    }
  }

  /** A successful wait neither loses nor invents a message: what was queued is what is queued plus
      the response. A failed wait loses exactly the messages it had set aside. */
  lemma WaitConserves(r: Waited, all: seq<Message>, stash: seq<Message>, unread: seq<Message>, later: seq<Message>,
                      queue: seq<Message>)
    requires all == stash + (match r case Response(m) => [m] case Timeout => [] case Exited => [Exit]) + unread + later
    requires r.Response? ==> unread <= queue && Shuffle(queue[|unread|..], later, stash)
    requires !r.Response? ==> queue == unread && later == []
    ensures r.Response? ==> multiset(all) == multiset(queue) + multiset{r.message}
    ensures r.Timeout? ==> multiset(all) == multiset(queue) + multiset(stash)
    ensures r.Exited? ==> multiset(all) == multiset(queue) + multiset(stash) + multiset{Exit}
    ensures r.Timeout? ==> (multiset(all) == multiset(queue) <==> stash == [])
  {
    hide Shuffle;
    if r.Response? {
      ShuffleMultiset(queue[|unread|..], later, stash);
      CountParts(all, stash, [r.message], unread, later);
      CountParts(queue, unread, queue[|unread|..], [], []);
    } else {
      CountParts(all, stash, if r.Timeout? then [] else [Exit], unread, later);
      if stash != [] { assert |multiset(stash)| > 0; }
    }
  }

  lemma CountParts<T>(all: seq<T>, a: seq<T>, b: seq<T>, c: seq<T>, d: seq<T>)
    requires all == a + b + c + d
    ensures multiset(all) == multiset(a) + multiset(b) + multiset(c) + multiset(d)
  {
  }

  // ------------------------------------------------------------------------- answers

  /** A message of a kind with a number. */
  predicate Is(m: Message, kind: Kind, rid: int) { m.Msg? && m.kind == kind && m.id == Some(rid) }

  predicate IsNumbered(m: Message) { m.Msg? && m.id.Some? ==> m.kind != Notification }

  /** The wait looks at the number alone. It returns the answer exactly when no request of the server
      with the same number is queued before it; otherwise it returns such a request. */
  lemma AnswerReturned(all: seq<Message>, rid: int, k: nat)
    requires IsFirst(all, rid, k) && forall i :: 0 <= i < |all| ==> IsNumbered(all[i])
    ensures Is(all[k], Answer, rid) <==>
            exists a :: 0 <= a < |all| && Is(all[a], Answer, rid)
                        && forall i :: 0 <= i < a ==> !Is(all[i], ServerRequest, rid)
    ensures !Is(all[k], Answer, rid) ==> Is(all[k], ServerRequest, rid)
  {
    assert forall i :: 0 <= i < k ==> all[i] == all[..k][i];
  }

  /** The server's own first request is taken for the answer to the client's first. */
  lemma WrongMessage()
    ensures var theirs, ours := Msg(ServerRequest, Some(1), [115]), Msg(Answer, Some(1), [97]);
            IsFirst([theirs, ours], 1, 0) && Is(ours, Answer, 1) && !Is([theirs, ours][0], Answer, 1)
  {
  }

  // -------------------------------------------------------------------------- order

  /** Where message `i` of `n` goes when message `k` is waited for and nothing arrives. */
  function NewPlace(n: nat, k: nat, i: nat): nat
    requires k < n && i < n && i != k
  {
    if i > k then i - k - 1 else n - k - 1 + i
  }

  /** Of any two messages left, the one queued first is still first. */
  predicate OrderKept(n: nat, k: nat)
    requires k < n
  {
    forall i, j :: 0 <= i < j < n && i != k && j != k ==> NewPlace(n, k, i) < NewPlace(n, k, j)
  }

  /** When the response is message `k` of the queue and nothing arrives meanwhile, the other messages
      keep their order exactly when `k` is the first or the last of the queue. */
  lemma WaitKeepsOrder(q: seq<Message>, rid: int, k: nat)
    requires IsFirst(q, rid, k)
    ensures forall i :: 0 <= i < |q| && i != k ==>
              NewPlace(|q|, k, i) < |Rotated(q, k)| && Rotated(q, k)[NewPlace(|q|, k, i)] == q[i]
    ensures OrderKept(|q|, k) <==> k == 0 || k == |q| - 1
  {
    if 0 < k < |q| - 1 { assert NewPlace(|q|, k, 0) > NewPlace(|q|, k, k + 1); }
  }

  /** Whatever arrives meanwhile: if messages were set aside and others were still unread when the
      response was found, a message that was queued later is now in front of one that was queued
      earlier, so the queue is not in the order of arrival. */
  lemma OrderBroken(stash: seq<Message>, unread: seq<Message>, later: seq<Message>, queue: seq<Message>)
    requires unread <= queue && Shuffle(queue[|unread|..], later, stash)
    requires stash != [] && unread != []
    ensures queue[0] == unread[0] && exists p :: |unread| <= p < |queue| && queue[p] == stash[0]
    ensures stash[0] != unread[0] ==> queue != stash + unread + later
  {
    var tail := queue[|unread|..];
    ShuffleMultiset(tail, later, stash);
    assert stash[0] in multiset(tail);
    var i :| 0 <= i < |tail| && tail[i] == stash[0];
    assert queue[|unread| + i] == stash[0];
    if queue == stash + unread + later { assert queue[0] == stash[0]; }
  }

  /** With nothing set aside the queue is in the order of arrival. */
  lemma OrderWithoutStash(unread: seq<Message>, later: seq<Message>, queue: seq<Message>)
    requires unread <= queue && Shuffle(queue[|unread|..], later, [])
    ensures queue == unread + later
  {
    assert queue == unread + queue[|unread|..];
  }

  /** A queue of two notifications with the response between them comes out the other way round. */
  lemma OrderInstance()
    ensures var a, b := Msg(Notification, None, [97]), Msg(Notification, None, [98]);
            var response := Msg(Answer, Some(1), [114]);
            var q := [a, response, b];
            IsFirst(q, 1, 1) && Rotated(q, 1) == [b, a] && !OrderKept(|q|, 1)
  {
    assert NewPlace(3, 1, 0) > NewPlace(3, 1, 2);
  }
}
