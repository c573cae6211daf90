/**
 A client that follows redirects against the loopback benchmark server, whose
 reply to `/redirect/i` points to `/redirect/i+1` until the chain ends.
 */
module RedirectChain {
  import opened Bytes
  import opened Numerals

  const SP: byte := 32
  const SLASH: byte := 47
  const HASH: byte := 35
  const QUESTION: byte := 63
  /** "/redirect/" and "/" */
  const PREFIX: bytes := [47, 114, 101, 100, 105, 114, 101, 99, 116, 47]
  const ROOT: bytes := [47]

  function HopPath(i: nat): bytes { PREFIX + Print(i, 10) }

  // ------------------------------------------------------------------- the server

  /** A reply: a redirect with its Location, or the scenario's final response. */
  datatype Reply = Redirect(location: bytes) | Final

  /** `request_target`: what stands between the first two spaces, `/` if nothing does. */
  function RequestTarget(request: bytes): bytes {
    var first := FindByte(request, SP);
    if first == |request| then ROOT
    else
      var rest := request[first + 1..];
      var second := FindByte(rest, SP);
      if second == |rest| || second == 0 then ROOT else rest[..second]
  }

  /** The hop number in a target; an unparsable one leaves it 0. */
  function HopOf(text: bytes): nat { match FromChars(text, 10) case Number(n, _) => n case _ => 0 }

  /** `LoopbackHttpServer`: its prepared redirects and its counter of connections. */
  class Server {
    const hops: nat
    const redirects: seq<Reply>
    var served: nat

    ghost predicate Valid() {
      |redirects| == hops && forall i :: 0 <= i < hops ==> redirects[i] == Redirect(HopPath(i + 1))
    }

    constructor (hops: nat)
      ensures Valid() && this.hops == hops && served == 0
    {
      var list: seq<Reply> := [];
      for i := 0 to hops
        invariant |list| == i && forall j :: 0 <= j < i ==> list[j] == Redirect(HopPath(j + 1))
      {
        list := list + [Redirect(HopPath(i + 1))];
      }
      this.hops, redirects, served := hops, list, 0;
    }

    /** `serve_one` and the count in `run`. The index into the redirects is always in range. */
    method ServeOne(request: bytes) returns (reply: Reply)
      requires Valid()
      modifies this`served
      ensures reply == Answer(hops, RequestTarget(request)) && served == old(served) + 1
    {
      var target := RequestTarget(request);
      served := served + 1;
      if hops > 0 && PREFIX <= target {
        var hop := HopOf(target[|PREFIX|..]);
        if hop < hops { return redirects[hop]; }
      }
      reply := Final;
    }
  }

  /** What the server answers for a target. */
  function Answer(hops: nat, target: bytes): Reply {
    if PREFIX <= target && HopOf(target[|PREFIX|..]) < hops then Redirect(HopPath(HopOf(target[|PREFIX|..]) + 1))
    else Final
  }

  // ------------------------------------------------------------------- the client

  /** "GET " and " HTTP/1.1" and a line end; what follows does not matter to the server. */
  function RequestFor(path: bytes, rest: bytes): bytes {
    [71, 69, 84, SP] + path + [SP, 72, 84, 84, 80, 47, 49, 46, 49, CR, LF] + rest
  }

  /** A Location that `resolve_redirect_target` takes as the new path and nothing else. */
  predicate IsPlainPath(loc: bytes) {
    && |loc| > 1 && loc[0] == SLASH && loc[1] != SLASH
    && forall i :: 0 <= i < |loc| ==> loc[i] !in {CR, LF, HASH, QUESTION}
  }

  datatype Outcome = Done | RedirectLimit | NotPlain

  /** `blocking_send` with `follow_redirects(budget)`: the outcome and the connections used. */
  function Send(hops: nat, path: bytes, budget: nat): (Outcome, nat)
    decreases budget
  {
    match Answer(hops, path)
    case Final => (Done, 1)
    case Redirect(location) =>
      if budget == 0 then (RedirectLimit, 1)
      else if !IsPlainPath(location) then (NotPlain, 1)
      else
        var rest := Send(hops, location, budget - 1);
        (rest.0, rest.1 + 1)
  }

  /** The client's loop, one connection to the server per turn. */
  method BlockingSend(server: Server, start: bytes, maxRedirects: nat, rest: bytes) returns (outcome: Outcome)
    requires server.Valid() && IsToken(start)
    modifies server`served
    ensures (outcome, server.served - old(server.served)) == Send(server.hops, start, maxRedirects)
  {
    hide Answer, RequestTarget, RequestFor, IsToken, IsPlainPath;
    var path, budget := start, maxRedirects;
    while true
      invariant server.served >= old(server.served) && IsToken(path)
      invariant var s := Send(server.hops, path, budget);
                (s.0, s.1 + (server.served - old(server.served))) == Send(server.hops, start, maxRedirects)
      decreases budget
    {
      TargetOfRequest(path, rest);
      var reply := server.ServeOne(RequestFor(path, rest));
      if reply.Final? { return Done; }
      if budget == 0 { return RedirectLimit; }
      if !IsPlainPath(reply.location) { return NotPlain; }
      RedirectIsToken(server.hops, path);
      path, budget := reply.location, budget - 1;
    }
  }

  predicate IsToken(path: bytes) { path != [] && forall i :: 0 <= i < |path| ==> path[i] != SP }

  lemma HopIsToken(i: nat)
    ensures IsToken(HopPath(i)) && IsPlainPath(HopPath(i))
  {
    assert forall j :: 0 <= j < |PREFIX| ==> PREFIX[j] !in {SP, CR, LF, HASH, QUESTION};
    assert HopPath(i)[1] == 114;
  }

  lemma RedirectIsToken(hops: nat, target: bytes)
    requires Answer(hops, target).Redirect?
    ensures IsToken(Answer(hops, target).location)
  {
    HopIsToken(HopOf(target[|PREFIX|..]) + 1);
  }

  /** The server reads the path that the client asked for. */
  lemma TargetOfRequest(path: bytes, rest: bytes)
    requires IsToken(path)
    ensures RequestTarget(RequestFor(path, rest)) == path
  {
    var version := [72, 84, 84, 80, 47, 49, 46, 49, CR, LF] + rest;
    var tail := path + [SP] + version;
    var request := RequestFor(path, rest);
    assert request == [71, 69, 84] + [SP] + tail;
    FindByteAfter([71, 69, 84], SP, tail);
    assert request[4..] == tail;
    FindByteAfter(path, SP, version);
    assert tail[..|path|] == path;
  }

  /** What the server takes for the target of any request: the text between the first two spaces,
      or the root if there is none. */
  lemma TargetRead(verb: bytes, target: bytes, rest: bytes)
    requires SP !in verb && SP !in target
    ensures RequestTarget(verb + [SP] + (target + [SP] + rest)) == if target == [] then Ascii("/") else target
    ensures RequestTarget(verb + [SP] + target) == Ascii("/") && RequestTarget(verb) == Ascii("/")
  {
    assert Ascii("/") == ROOT;
    var tail := target + [SP] + rest;
    FindByteAfter(verb, SP, tail);
    assert (verb + [SP] + tail)[|verb| + 1..] == tail;
    FindByteAfter(target, SP, rest);
    assert tail[..|target|] == target;
    FindByteAfter(verb, SP, target);
    assert (verb + [SP] + target)[|verb| + 1..] == target;
  }

  /** The hop that a target asks for: its leading digits, 0 without any or from 2^64 on. */
  lemma AnswerIs(hops: nat, text: bytes)
    ensures var hop := if Denoted(text).Some? && Denoted(text).value < TWO64 then Denoted(text).value else 0;
            Answer(hops, Ascii("/redirect/") + text)
            == if hop < hops then Redirect(Ascii("/redirect/") + Print(hop + 1, 10)) else Final
  {
    hide FromChars, Denoted;
    assert Ascii("/redirect/") == PREFIX;
    assert (PREFIX + text)[|PREFIX|..] == text;
    FromCharsReads(text);
  }

  /** Every other target gets the final response. */
  lemma AnswerElse(hops: nat, target: bytes)
    requires !(Ascii("/redirect/") <= target)
    ensures Answer(hops, target) == Final
  {
    assert Ascii("/redirect/") == PREFIX;
  }

  // -------------------------------------------------------------------- the chain

  lemma AnswerAtHop(hops: nat, i: nat)
    requires i < TWO64
    ensures Answer(hops, HopPath(i)) == if i < hops then Redirect(HopPath(i + 1)) else Final
  {
    var target := HopPath(i);
    assert target[|PREFIX|..] == Print(i, 10) + [];
    ParsePrinted(i, 10, []);
  }

  /**
   From hop `i` of a chain of `hops` the client reaches the final response exactly
   when its redirect budget covers the hops that are left; it then uses one
   connection more than those hops. With a smaller budget it stops at the limit
   after one connection more than the budget.
   */
  lemma {:induction false} ChainFrom(hops: nat, i: nat, budget: nat)
    requires i <= hops < TWO64
    ensures Send(hops, HopPath(i), budget)
            == if budget >= hops - i then (Done, hops - i + 1) else (RedirectLimit, budget + 1)
    decreases budget
  {
    hide Answer, HopPath, IsPlainPath;
    AnswerAtHop(hops, i);
    if i < hops && budget > 0 {
      HopIsToken(i + 1);
      ChainFrom(hops, i + 1, budget - 1);
    }
  }

  /** The benchmark's redirect budget: `hops + 2`, cast to `int`; none is left when it is not positive. */
  function Budget(hops: nat): nat { if AsInt32(hops + 2) > 0 then AsInt32(hops + 2) else 0 }

  /** The benchmark's call gets `hops` redirects and then the final response, over `hops + 1`
      connections, exactly when the cast of its budget does not overflow. */
  lemma BenchmarkCall(hops: nat)
    requires hops < TWO64
    ensures Send(hops, HopPath(0), Budget(hops))
            == if hops + 2 < TWO31 then (Done, hops + 1) else (RedirectLimit, Budget(hops) + 1)
  {
    hide AsInt32;
    CastResult(hops + 2);
    ChainFrom(hops, 0, Budget(hops));
  }

  /** The shortest chain whose budget overflows: no redirect at all is followed. */
  lemma BudgetOverflows()
    ensures Send(TWO31 - 2, HopPath(0), Budget(TWO31 - 2)) == (RedirectLimit, 1)
  {
    hide Send;
    BenchmarkCall(TWO31 - 2);
    assert AsInt32(TWO31) == -0x8000_0000;
  }

  // ---------------------------------------------------------------- the server's loop

  /** The benchmark's client between two connections: the calls not ended yet, the request it makes
      next, the redirects it may still follow, the calls that got their final response, and whether
      a call has failed, after which it makes no other. */
  datatype Client = Client(left: nat, path: bytes, budget: nat, done: nat, failed: bool)

  function NextCall(hops: nat, left: nat, done: nat): Client { Client(left, HopPath(0), Budget(hops), done, false) }

  predicate Active(c: Client) { c.left > 0 && !c.failed }

  /** What the client does with a reply: end the call, fail at the redirect limit, or follow the
      redirect. A Location that it cannot follow ends the call with the redirect itself. */
  function AfterReply(c: Client, reply: Reply, hops: nat): Client
    requires Active(c)
  {
    match reply
    case Final => NextCall(hops, c.left - 1, c.done + 1)
    case Redirect(location) =>
      if c.budget == 0 then c.(left := c.left - 1, failed := true)
      else if !IsPlainPath(location) then NextCall(hops, c.left - 1, c.done)
      else c.(path := location, budget := c.budget - 1)
  }

  /** What the client will have made of its calls: the connections still to come, the calls that will
      have succeeded, and the calls never made. */
  datatype Tally = Tally(connections: nat, done: nat, left: nat)

  function Outlook(c: Client, hops: nat): Tally
    decreases c.left
  {
    if !Active(c) then Tally(0, c.done, c.left)
    else
      var call := Send(hops, c.path, c.budget);
      if call.0.RedirectLimit? then Tally(call.1, c.done, c.left - 1)
      else
        var t := Outlook(NextCall(hops, c.left - 1, if call.0.Done? then c.done + 1 else c.done), hops);
        t.(connections := call.1 + t.connections)
  }

  lemma {:induction false} SendConnects(hops: nat, path: bytes, budget: nat)
    ensures Send(hops, path, budget).1 > 0
  {
  }

  /** Each connection brings the client one connection further. */
  lemma ReplyAdvances(c: Client, hops: nat)
    requires Active(c)
    ensures var t := Outlook(AfterReply(c, Answer(hops, c.path), hops), hops);
            Outlook(c, hops) == t.(connections := t.connections + 1)
  {
    hide Answer, IsPlainPath, NextCall, Outlook, Send;
    var c' := AfterReply(c, Answer(hops, c.path), hops);
    SendNext(hops, c.path, c.budget);
    OutlookIs(c, hops);
    if Active(c') { OutlookIs(c', hops); } else { NothingAhead(c', hops); }
  }

  lemma SendNext(hops: nat, path: bytes, budget: nat)
    ensures Send(hops, path, budget)
            == match Answer(hops, path)
               case Final => (Done, 1)
               case Redirect(location) =>
                 if budget == 0 then (RedirectLimit, 1)
                 else if !IsPlainPath(location) then (NotPlain, 1)
                 else (Send(hops, location, budget - 1).0, Send(hops, location, budget - 1).1 + 1)
  {
    hide Answer, IsPlainPath;
  }

  lemma OutlookIs(c: Client, hops: nat)
    requires Active(c)
    ensures var call := Send(hops, c.path, c.budget);
            var t := Outlook(NextCall(hops, c.left - 1, if call.0.Done? then c.done + 1 else c.done), hops);
            Outlook(c, hops) == if call.0.RedirectLimit? then Tally(call.1, c.done, c.left - 1)
                                else t.(connections := call.1 + t.connections)
  {
    hide Send, NextCall;
  }

  lemma NothingAhead(c: Client, hops: nat)
    ensures Active(c) <==> Outlook(c, hops).connections > 0
    ensures !Active(c) ==> Outlook(c, hops) == Tally(0, c.done, c.left)
  {
    hide Send, NextCall;
    SendConnects(hops, c.path, c.budget);
  }

  lemma AfterReplyIsToken(c: Client, hops: nat)
    requires Active(c) && IsToken(c.path)
    ensures IsToken(AfterReply(c, Answer(hops, c.path), hops).path)
  {
    HopIsToken(0);
    if Answer(hops, c.path).Redirect? { RedirectIsToken(hops, c.path); }
  }

  /** While the budget suffices every call succeeds. */
  lemma {:induction false} AllSucceed(hops: nat, calls: nat, done: nat)
    requires hops + 2 < TWO31
    ensures Outlook(NextCall(hops, calls, done), hops) == Tally(calls * (hops + 1), done + calls, 0)
    decreases calls
  {
    hide Send, Budget, HopPath;
    if calls == 0 {
    } else {
      BenchmarkCall(hops);
      AllSucceed(hops, calls - 1, done + 1);
      assert calls * (hops + 1) == (hops + 1) + (calls - 1) * (hops + 1);
    }
  }

  /** If it overflows the first call fails and is the last. */
  lemma FirstFails(hops: nat, calls: nat)
    requires TWO31 <= hops + 2 && hops < TWO64 && calls > 0
    ensures Outlook(NextCall(hops, calls, 0), hops) == Tally(Budget(hops) + 1, 0, calls - 1)
    ensures Budget(hops) + 1 < calls * (hops + 1)
  {
    hide Send, AsInt32, HopPath;
    BenchmarkCall(hops);
    CastResult(hops + 2);
    AtLeastOnce(calls, hops + 1);
  }

  lemma AtLeastOnce(calls: nat, each: nat)
    requires calls > 0
    ensures each <= calls * each
  {
  }

  /**
   `run`, with the client that makes `calls` calls one after the other and throws
   at the first that fails. The loop accepts connections until it has served
   `calls * (hops + 1)` of them; when no other comes the server is being destroyed,
   `accept4` fails on the closed socket, and the loop ends by that. It ends by its
   count exactly when the last call has its final response; if the budget
   overflowed, the first call fails and the shutdown ends the loop.
   */
  method RunCalls(hops: nat, calls: nat, rest: bytes) returns (served: nat, done: nat, left: nat, shutdown: bool)
    requires hops < TWO64
    ensures hops + 2 < TWO31 ==> !shutdown && left == 0 && done == calls && served == calls * (hops + 1)
    ensures hops + 2 >= TWO31 && calls > 0 ==>
              shutdown && done == 0 && left == calls - 1 && served == Budget(hops) + 1
    ensures calls == 0 ==> !shutdown && done == 0 && left == 0 && served == 0
  {
    hide Send, AsInt32, Budget, HopPath, Answer, AfterReply, RequestTarget, RequestFor, Outlook, IsToken, Active;
    var server := new Server(hops);
    var client := NextCall(hops, calls, 0);
    var expected := calls * (hops + 1);
    ghost var total := Outlook(client, hops);
    if hops + 2 < TWO31 { AllSucceed(hops, calls, 0); } else if calls > 0 { FirstFails(hops, calls); }
    NothingAhead(client, hops);
    ActiveMeans(client);
    HopIsToken(0);
    shutdown := false;
    while server.served < expected
      invariant server.Valid() && server.hops == hops && fresh(server) && IsToken(client.path)
      invariant var t := Outlook(client, hops); t.(connections := server.served + t.connections) == total
      invariant calls == 0 ==> server.served == 0 && client == NextCall(hops, 0, 0)
      decreases Outlook(client, hops).connections
    {
      NothingAhead(client, hops);
      if !Active(client) {
        shutdown := true;
        break;
      }
      ReplyAdvances(client, hops);
      AfterReplyIsToken(client, hops);
      TargetOfRequest(client.path, rest);
      var reply := server.ServeOne(RequestFor(client.path, rest));
      client := AfterReply(client, reply, hops);
    }
    NothingAhead(client, hops);
    served, done, left := server.served, client.done, client.left;
  }

  lemma ActiveMeans(c: Client)
    ensures Active(c) ==> c.left > 0
  {
  }
}
