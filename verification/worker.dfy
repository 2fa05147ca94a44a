/**
 The per-connection worker `HandleClientWorker`: registration of a new
 client, routing of each received payload either to the command dispatcher
 or to a broadcast, and the read loop that ends at end of stream or at the
 exact payload `!disconnect`.
 */
module ClientWorker {
  import opened Types
  import Text
  import Registry
  import Commands

  /** What the state always satisfies between steps: the counter is never
      negative, every registered id lies in `1..MAX_ID` with its default name,
      and ids increase along the registry (registry order is arrival order). */
  predicate Valid(s: Server) {
    && s.maxId >= 0
    && Registry.IncreasingIds(s.clients)
    && forall k :: 0 <= k < |s.clients| ==>
         1 <= s.clients[k].data.id <= s.maxId && s.clients[k].data.name == UserName(s.clients[k].data.id)
  }

  /** `++ClientData.MAX_ID` on a C# `int` in an unchecked context: the
      increment wraps from `int.MaxValue` to `int.MinValue`. */
  function NextId(maxId: int32): (id: int32)
    ensures maxId < IntMax ==> id as int == maxId as int + 1
  {
    if maxId == IntMax then IntMin else maxId + 1
  }

  /** The counter moves up exactly as long as it has not reached
      `int.MaxValue`; the increment after that wraps to a negative id. */
  lemma NextIdIncreases(maxId: int32)
    ensures NextId(maxId) > maxId <==> maxId < IntMax
    ensures maxId == IntMax ==> NextId(maxId) < 0
  {
  }

  /** A broadcast of `msg`: the registry loses exactly the clients whose
      write fails (this is what `Registry.DispatchMessage` computes), and
      every successful write is recorded. */
  function Broadcast(s: Server, msg: ServerMessage, dead: set<int32>): (r: Server)
    ensures r.maxId == s.maxId
    ensures |r.clients| <= |s.clients|
    ensures |r.outbox| == |s.outbox| + |r.clients| && r.outbox[..|s.outbox|] == s.outbox
    ensures forall k :: |s.outbox| <= k < |r.outbox| ==> r.outbox[k].msg == msg
    ensures forall k :: 0 <= k < |r.clients| ==> r.outbox[|s.outbox| + k].to == r.clients[k].data.id
  {
    var alive := Registry.Survivors(s.clients, dead);
    Server(s.maxId, alive, s.outbox + Registry.Deliver(alive, msg))
  }

  /** Result of registering a connection. */
  datatype Joined = Joined(server: Server, client: ConnectedClient)

  const ConnectedNotice: string := "Client Connected"

  /** Lines 112-119 of `HandleClientWorker`: the next id, the name
      `"User" + id`, the client appended to the registry, and then a
      "Client Connected" broadcast sent under the newcomer's identity. The
      newcomer is already registered when the notice goes out, so the notice
      is also written to the newcomer, last. */
  function Register(s: Server, dead: set<int32>): (r: Joined)
    ensures r.client.data.id == NextId(s.maxId)
    ensures r.client.data.name == UserName(r.client.data.id)
    ensures r.server.maxId == r.client.data.id
    ensures r.server.clients
         == Registry.Survivors(s.clients, dead) + (if SendSucceeds(r.client, dead) then [r.client] else [])
    ensures r.server.outbox
         == s.outbox + Registry.Deliver(r.server.clients, ServerMessage(r.client.data, ConnectedNotice))
  {
    var id := NextId(s.maxId);
    var c := ConnectedClient(ClientData(id, UserName(id)));
    var added := s.(maxId := id, clients := s.clients + [c]);
    var msg := ServerMessage(c.data, ConnectedNotice);
    Registry.SurvivorsAppend(s.clients, c, dead);
    Joined(Broadcast(added, msg, dead), c)
  }

  /** Result of handling one received payload: the new state and whether the
      read loop goes on. */
  datatype Step = Step(server: Server, reading: bool)

  /** Lines 136-150 of `HandleClientWorker`. The exact payload `!disconnect`
      closes the stream first, which ends the read loop once the command has
      been handled; `!disconnect` with arguments is handled the same way but
      the loop keeps reading. A payload starting with `!` goes to
      `ProcessMessage` and is never broadcast; any other payload is
      broadcast unchanged under the sender's identity to every registered
      client, the sender included. */
  function Receive(s: Server, c: ConnectedClient, payload: string, stamp: string,
                   dead: set<int32>): (r: Step)
    ensures r.reading <==> payload != Commands.DisconnectWord
    ensures r.server.maxId == s.maxId
    ensures Text.StartsWith(payload, "!") ==>
              r.server == Commands.ProcessMessage(s, c, payload, stamp, dead)
    ensures Text.StartsWith(payload, "!") ==>
              |r.server.outbox| >= |s.outbox| && Commands.OnlyTo(r.server.outbox, |s.outbox|, c)
    ensures !Text.StartsWith(payload, "!") ==>
              && r.server.clients == Registry.Survivors(s.clients, dead)
              && r.server.outbox == s.outbox + Registry.Deliver(r.server.clients, ServerMessage(c.data, payload))
  {
    var reading := payload != Commands.DisconnectWord;
    if Text.StartsWith(payload, "!") then
      Step(Commands.ProcessMessage(s, c, payload, stamp, dead), reading)
    else
      Step(Broadcast(s, ServerMessage(c.data, payload), dead), reading)
  }

  /** One `stream.Read`, taken as one whole message, together with the clock
      reading and the send oracle at the moment it is handled. */
  datatype Received = Received(payload: string, stamp: string, dead: set<int32>)

  /** Result of a read loop: the final state, how many inputs were handled,
      and whether the loop ended on the exact payload `!disconnect` rather
      than at end of stream. */
  datatype Session = Session(server: Server, handled: nat, closedByCommand: bool)

  /** The `while` loop of `HandleClientWorker`: the reads are handled in
      order up to and including the first exact `!disconnect`, and none after
      it. When the stream ends first, every read is handled and the client is
      left in the registry (nothing deregisters it at end of stream). */
  function RunSession(s: Server, c: ConnectedClient, inputs: seq<Received>): (r: Session)
    ensures r.handled <= |inputs|
    ensures r.server.maxId == s.maxId
    ensures r.closedByCommand ==> r.handled >= 1
    ensures forall k :: 0 <= k < r.handled ==>
              (inputs[k].payload == Commands.DisconnectWord <==> r.closedByCommand && k == r.handled - 1)
    ensures !r.closedByCommand ==> r.handled == |inputs|
    decreases |inputs|
  {
    if |inputs| == 0 then Session(s, 0, false)
    else
      var step := Receive(s, c, inputs[0].payload, inputs[0].stamp, inputs[0].dead);
      if !step.reading then Session(step.server, 1, true)
      else
        var rest := RunSession(step.server, c, inputs[1..]);
        assert forall k :: 1 <= k <= rest.handled ==> inputs[k] == inputs[1..][k - 1];
        Session(rest.server, rest.handled + 1, rest.closedByCommand)
  }

  /** `HandleClientWorker` from accept to the end of its read loop. */
  function HandleClient(s: Server, joinDead: set<int32>, inputs: seq<Received>): (r: Session)
    ensures r.server.maxId == NextId(s.maxId)
    ensures r.handled <= |inputs|
    ensures r.closedByCommand ==> r.handled >= 1 && inputs[r.handled - 1].payload == Commands.DisconnectWord
    ensures forall k :: 0 <= k < r.handled ==>
              (inputs[k].payload == Commands.DisconnectWord <==> r.closedByCommand && k == r.handled - 1)
    ensures !r.closedByCommand ==> r.handled == |inputs|
  {
    var joined := Register(s, joinDead);
    RunSession(joined.server, joined.client, inputs)
  }

  /** A read loop given a single read makes exactly the step `Receive`
      makes for it. */
  lemma RunSessionOne(s: Server, c: ConnectedClient, input: Received)
    ensures var r := RunSession(s, c, [input]);
            var step := Receive(s, c, input.payload, input.stamp, input.dead);
            && r.server == step.server
            && r.handled == 1
            && (r.closedByCommand <==> input.payload == Commands.DisconnectWord)
  {
    assert [input][1..] == [];
  }

  /** A read loop that has not met the exact `!disconnect` goes on from the
      state it reached: running it over `a + b` is running it over `a` and then
      over `b` from the resulting state. */
  lemma {:induction false} RunSessionAppend(s: Server, c: ConnectedClient, a: seq<Received>, b: seq<Received>)
    requires forall k :: 0 <= k < |a| ==> a[k].payload != Commands.DisconnectWord
    ensures var first := RunSession(s, c, a);
            var rest := RunSession(first.server, c, b);
            RunSession(s, c, a + b) == Session(rest.server, |a| + rest.handled, rest.closedByCommand)
    decreases |a|
  {
    if |a| > 0 {
      var x := a[0];
      var step := Receive(s, c, x.payload, x.stamp, x.dead);
      ConsAppend(a, b);
      RunSessionCons(s, c, x, a[1..]);
      RunSessionCons(s, c, x, a[1..] + b);
      assert forall k :: 0 <= k < |a| - 1 ==> a[1..][k] == a[k + 1];
      RunSessionAppend(step.server, c, a[1..], b);
    } else {
      assert a + b == b;
    }
  }

  /** The read loop unfolded once on its first read. */
  lemma RunSessionCons(s: Server, c: ConnectedClient, x: Received, rest: seq<Received>)
    ensures var step := Receive(s, c, x.payload, x.stamp, x.dead);
            var more := RunSession(step.server, c, rest);
            RunSession(s, c, [x] + rest)
              == if step.reading then Session(more.server, more.handled + 1, more.closedByCommand)
                 else Session(step.server, 1, true)
  {
    assert ([x] + rest)[0] == x;
    assert ([x] + rest)[1..] == rest;
  }

  lemma ConsAppend<T>(a: seq<T>, b: seq<T>)
    requires |a| > 0
    ensures a == [a[0]] + a[1..]
    ensures a + b == [a[0]] + (a[1..] + b)
  {
  }

  /** Once the exact `!disconnect` has been read, nothing read after it has
      any effect: the state, the count and the outcome stay as they were. */
  lemma {:induction false} NothingAfterClose(s: Server, c: ConnectedClient, inputs: seq<Received>, extra: seq<Received>)
    requires exists k :: 0 <= k < |inputs| && inputs[k].payload == Commands.DisconnectWord
    ensures RunSession(s, c, inputs).closedByCommand
    ensures RunSession(s, c, inputs + extra) == RunSession(s, c, inputs)
    decreases |inputs|
  {
    var x := inputs[0];
    var tail := inputs[1..];
    ConsAppend(inputs, extra);
    RunSessionCons(s, c, x, tail);
    RunSessionCons(s, c, x, tail + extra);
    var step := Receive(s, c, x.payload, x.stamp, x.dead);
    if step.reading {
      var k :| 0 <= k < |inputs| && inputs[k].payload == Commands.DisconnectWord;
      assert tail[k - 1] == inputs[k];
      NothingAfterClose(step.server, c, tail, extra);
    }
  }

  // ----- Whose identity the writes carry -----

  /** `after` extends `before`, and every write added carries `who` as its
      sender. */
  predicate SpeaksAs(before: seq<Delivery>, after: seq<Delivery>, who: ClientData) {
    && |before| <= |after| && after[..|before|] == before
    && forall k :: |before| <= k < |after| ==> after[k].msg.sender == who
  }

  lemma SpeaksAsTrans(a: seq<Delivery>, b: seq<Delivery>, c: seq<Delivery>, who: ClientData)
    requires SpeaksAs(a, b, who) && SpeaksAs(b, c, who)
    ensures SpeaksAs(a, c, who)
  {
    assert c[..|a|] == c[..|b|][..|a|];
  }

  /** Every write caused by one read, a reply or a broadcast, carries the
      identity of the client the read came from. */
  lemma ReceiveSpeaksAs(s: Server, c: ConnectedClient, payload: string, stamp: string, dead: set<int32>)
    ensures SpeaksAs(s.outbox, Receive(s, c, payload, stamp, dead).server.outbox, c.data)
  {
    var r := Receive(s, c, payload, stamp, dead).server;
    if !Text.StartsWith(payload, "!") {
      var ds := Registry.Deliver(r.clients, ServerMessage(c.data, payload));
      assert r.outbox == s.outbox + ds;
      forall k | |s.outbox| <= k < |r.outbox|
        ensures r.outbox[k].msg.sender == c.data
      {
        assert r.outbox[k] == ds[k - |s.outbox|];
      }
    }
  }

  /** Every write of a read loop carries the identity of the client it
      reads for. */
  lemma {:induction false} RunSessionSpeaksAs(s: Server, c: ConnectedClient, inputs: seq<Received>)
    ensures SpeaksAs(s.outbox, RunSession(s, c, inputs).server.outbox, c.data)
    decreases |inputs|
  {
    if |inputs| > 0 {
      var x := inputs[0];
      ConsAppend(inputs, []);
      RunSessionCons(s, c, x, inputs[1..]);
      var step := Receive(s, c, x.payload, x.stamp, x.dead);
      ReceiveSpeaksAs(s, c, x.payload, x.stamp, x.dead);
      if step.reading {
        RunSessionSpeaksAs(step.server, c, inputs[1..]);
        SpeaksAsTrans(s.outbox, step.server.outbox, RunSession(step.server, c, inputs[1..]).server.outbox, c.data);
      }
    } else {
      assert s.outbox[..|s.outbox|] == s.outbox;
    }
  }

  /** The identity a connection is given: the next id and its default name. */
  function Newcomer(maxId: int32): (d: ClientData)
  {
    ClientData(NextId(maxId), UserName(NextId(maxId)))
  }

  /** Registration writes only the newcomer's own notice. */
  lemma RegisterSpeaksAs(s: Server, dead: set<int32>)
    ensures Register(s, dead).client.data == Newcomer(s.maxId)
    ensures SpeaksAs(s.outbox, Register(s, dead).server.outbox, Newcomer(s.maxId))
  {
    var r := Register(s, dead);
    var ds := Registry.Deliver(r.server.clients, ServerMessage(r.client.data, ConnectedNotice));
    forall k | |s.outbox| <= k < |r.server.outbox|
      ensures r.server.outbox[k].msg.sender == r.client.data
    {
      assert r.server.outbox[k] == ds[k - |s.outbox|];
    }
  }

  /** A connection speaks only as the client it registered: every write from
      accept to the end of its read loop carries the newcomer's identity,
      and earlier writes are kept. */
  lemma HandleClientSpeaksAsNewcomer(s: Server, joinDead: set<int32>, inputs: seq<Received>)
    ensures SpeaksAs(s.outbox, HandleClient(s, joinDead, inputs).server.outbox, Newcomer(s.maxId))
  {
    var joined := Register(s, joinDead);
    RegisterSpeaksAs(s, joinDead);
    RunSessionSpeaksAs(joined.server, joined.client, inputs);
    SpeaksAsTrans(s.outbox, joined.server.outbox, HandleClient(s, joinDead, inputs).server.outbox, Newcomer(s.maxId));
  }

  // ----- The invariant is kept by every step -----

  lemma InitialValid()
    ensures Valid(Initial)
  {
  }

  lemma {:induction false} BroadcastPreservesValid(s: Server, msg: ServerMessage, dead: set<int32>)
    requires Valid(s)
    ensures Valid(Broadcast(s, msg, dead))
  {
    var r := Broadcast(s, msg, dead);
    Registry.SurvivorsKeepIncreasingIds(s.clients, dead);
    forall k | 0 <= k < |r.clients|
      ensures 1 <= r.clients[k].data.id <= r.maxId && r.clients[k].data.name == UserName(r.clients[k].data.id)
    {
      Registry.SurvivorsMembers(s.clients, dead, r.clients[k]);
      assert r.clients[k] in r.clients;
    }
  }

  /** Registration keeps the invariant as long as the counter has not reached
      `int.MaxValue`; the new id is larger than every registered id, so it is
      never one in use. */
  lemma RegisterPreservesValid(s: Server, dead: set<int32>)
    requires Valid(s) && s.maxId < IntMax
    ensures Valid(Register(s, dead).server)
    ensures forall k :: 0 <= k < |s.clients| ==> s.clients[k].data.id < Register(s, dead).client.data.id
  {
    var id := NextId(s.maxId);
    var c := ConnectedClient(ClientData(id, UserName(id)));
    var added := s.(maxId := id, clients := s.clients + [c]);
    assert Valid(added);
    BroadcastPreservesValid(added, ServerMessage(c.data, ConnectedNotice), dead);
  }

  lemma ProcessMessagePreservesValid(s: Server, c: ConnectedClient, command: string, stamp: string,
                                     dead: set<int32>)
    requires Valid(s)
    ensures Valid(Commands.ProcessMessage(s, c, command, stamp, dead))
  {
    var r := Commands.ProcessMessage(s, c, command, stamp, dead);
    if Text.FirstToken(command) == Commands.DisconnectWord {
      Registry.RemoveFirstKeepsIncreasingIds(s.clients, c);
      forall k | 0 <= k < |r.clients|
        ensures 1 <= r.clients[k].data.id <= r.maxId && r.clients[k].data.name == UserName(r.clients[k].data.id)
      {
        if r.clients[k] != c {
          Registry.RemoveFirstKeepsOthers(s.clients, c, r.clients[k]);
          assert r.clients[k] in r.clients;
        } else {
          assert r.clients[k] in r.clients;
          Registry.RemoveFirstMultiset(s.clients, c);
          assert c in multiset(r.clients);
        }
      }
    }
  }

  lemma ReceivePreservesValid(s: Server, c: ConnectedClient, payload: string, stamp: string,
                              dead: set<int32>)
    requires Valid(s)
    ensures Valid(Receive(s, c, payload, stamp, dead).server)
  {
    if Text.StartsWith(payload, "!") {
      ProcessMessagePreservesValid(s, c, payload, stamp, dead);
    } else {
      BroadcastPreservesValid(s, ServerMessage(c.data, payload), dead);
    }
  }

  lemma {:induction false} RunSessionPreservesValid(s: Server, c: ConnectedClient, inputs: seq<Received>)
    requires Valid(s)
    ensures Valid(RunSession(s, c, inputs).server)
    decreases |inputs|
  {
    if |inputs| > 0 {
      ReceivePreservesValid(s, c, inputs[0].payload, inputs[0].stamp, inputs[0].dead);
      var step := Receive(s, c, inputs[0].payload, inputs[0].stamp, inputs[0].dead);
      if step.reading {
        RunSessionPreservesValid(step.server, c, inputs[1..]);
      }
    }
  }

  /** A whole connection keeps the invariant while ids are available. */
  lemma HandleClientPreservesValid(s: Server, joinDead: set<int32>, inputs: seq<Received>)
    requires Valid(s) && s.maxId < IntMax
    ensures Valid(HandleClient(s, joinDead, inputs).server)
  {
    RegisterPreservesValid(s, joinDead);
    var joined := Register(s, joinDead);
    RunSessionPreservesValid(joined.server, joined.client, inputs);
  }

  /** A broadcast keeps exactly the registered clients whose write succeeds,
      and each of them receives the message. */
  lemma BroadcastKeepsLiveClients(s: Server, msg: ServerMessage, dead: set<int32>, x: ConnectedClient)
    ensures var r := Broadcast(s, msg, dead);
            && (x in r.clients <==> x in s.clients && SendSucceeds(x, dead))
            && (x in r.clients ==> Delivery(x.data.id, msg) in r.outbox[|s.outbox|..])
  {
    var r := Broadcast(s, msg, dead);
    Registry.SurvivorsMembers(s.clients, dead, x);
    if x in r.clients {
      var k :| 0 <= k < |r.clients| && r.clients[k] == x;
      assert r.outbox[|s.outbox|..][k] == Delivery(x.data.id, msg);
    }
  }

  // ----- Identities -----

  /** Two connections registered one after the other get strictly increasing
      ids, whatever happened on the first connection in between. */
  lemma SuccessiveIdsIncrease(s: Server, dead1: set<int32>, inputs: seq<Received>, dead2: set<int32>)
    requires s.maxId < IntMax - 1
    ensures var first := Register(s, dead1);
            var later := RunSession(first.server, first.client, inputs).server;
            first.client.data.id < Register(later, dead2).client.data.id
  {
  }

  /** In a valid state no two registered clients share an id or a name. */
  lemma RegisteredIdentitiesDistinct(s: Server, i: nat, j: nat)
    requires Valid(s)
    requires i < j < |s.clients|
    ensures s.clients[i].data.id != s.clients[j].data.id
    ensures s.clients[i].data.name != s.clients[j].data.name
  {
    UserNameInjective(s.clients[i].data.id, s.clients[j].data.id);
  }

  // ----- Routing and command properties -----

  /** The newcomer receives its own "Client Connected" notice, as the last
      write of its registration, exactly when its write succeeds, and it is
      registered afterwards exactly then. */
  lemma NewcomerHearsOwnNotice(s: Server, dead: set<int32>)
    ensures var r := Register(s, dead);
            && (r.client in r.server.clients <==> SendSucceeds(r.client, dead))
            && (SendSucceeds(r.client, dead) ==>
                  && |r.server.outbox| > 0
                  && r.server.outbox[|r.server.outbox| - 1]
                     == Delivery(r.client.data.id, ServerMessage(r.client.data, ConnectedNotice)))
  {
    var r := Register(s, dead);
    Registry.SurvivorsMembers(s.clients, dead, r.client);
  }

  /** A plain payload reaches every surviving client, the sender included,
      each exactly once and in registry order, carrying the sender's identity
      and the payload unchanged. */
  lemma PlainPayloadReachesEveryone(s: Server, c: ConnectedClient, payload: string, stamp: string,
                                    dead: set<int32>, x: ConnectedClient)
    requires !Text.StartsWith(payload, "!")
    requires x in s.clients && SendSucceeds(x, dead)
    ensures var r := Receive(s, c, payload, stamp, dead).server;
            Delivery(x.data.id, ServerMessage(c.data, payload)) in r.outbox[|s.outbox|..]
  {
    var r := Receive(s, c, payload, stamp, dead).server;
    Registry.SurvivorsMembers(s.clients, dead, x);
    var k :| 0 <= k < |r.clients| && r.clients[k] == x;
    assert r.outbox[|s.outbox|..] == Registry.Deliver(r.clients, ServerMessage(c.data, payload));
    assert r.outbox[|s.outbox|..][k] == Delivery(x.data.id, ServerMessage(c.data, payload));
  }

  /** The exact payload `!disconnect` takes the client out of the registry,
      answers nothing, and ends the read loop. */
  lemma ExactDisconnect(s: Server, c: ConnectedClient, stamp: string, dead: set<int32>)
    requires Valid(s)
    ensures var r := Receive(s, c, Commands.DisconnectWord, stamp, dead);
            && !r.reading
            && c !in r.server.clients
            && r.server.outbox == s.outbox
  {
    Text.FirstTokenIs(Commands.DisconnectWord, Commands.DisconnectWord);
    assert Text.StartsWith(Commands.DisconnectWord, "!");
    Registry.RemoveFirstRemovesClient(s.clients, c);
  }

  /** `!disconnect` followed by arguments takes the client out of the
      registry, answers nothing, and leaves the read loop running. */
  lemma DisconnectWithArguments(s: Server, c: ConnectedClient, args: string, stamp: string,
                                dead: set<int32>)
    requires Valid(s)
    ensures var r := Receive(s, c, Commands.DisconnectWord + " " + args, stamp, dead);
            && r.reading
            && c !in r.server.clients
            && r.server.outbox == s.outbox
  {
    var payload := Commands.DisconnectWord + " " + args;
    Text.FirstTokenIs(payload, Commands.DisconnectWord);
    assert Text.StartsWith(payload, "!");
    Registry.RemoveFirstRemovesClient(s.clients, c);
  }

  /** `!ping` with a client timestamp is answered, to the issuing client
      only, with the payload unchanged followed by a space and the server's
      clock reading; the registry is untouched. */
  lemma PingEchoesPayload(s: Server, c: ConnectedClient, clientStamp: string, stamp: string,
                          dead: set<int32>)
    requires SendSucceeds(c, dead)
    ensures var payload := Commands.PingWord + " " + clientStamp;
            var r := Receive(s, c, payload, stamp, dead);
            && r.reading
            && r.server.clients == s.clients
            && r.server.outbox == s.outbox + [Delivery(c.data.id, ServerMessage(c.data, payload + " " + stamp))]
  {
    var payload := Commands.PingWord + " " + clientStamp;
    Text.FirstTokenIs(payload, Commands.PingWord);
    assert Text.StartsWith(payload, "!");
  }

  /** An unknown command, a bare `!` included, is answered with
      `Unknown Command '<payload>'` to the issuing client only and is never
      broadcast. */
  lemma UnknownCommandIsolated(s: Server, c: ConnectedClient, payload: string, stamp: string,
                               dead: set<int32>)
    requires Text.StartsWith(payload, "!")
    requires Text.FirstToken(payload) != Commands.DisconnectWord
    requires Text.FirstToken(payload) != Commands.PingWord
    ensures var r := Receive(s, c, payload, stamp, dead).server;
            && r.clients == s.clients
            && r.outbox == s.outbox
                 + (if SendSucceeds(c, dead)
                    then [Delivery(c.data.id, ServerMessage(c.data, "Unknown Command '" + payload + "'"))]
                    else [])
  {
  }

  /** Reaching end of stream does not deregister the client: a client that
      only sends plain text and whose writes never fail is still registered
      when its read loop ends. */
  lemma {:induction false} EndOfStreamKeepsClient(s: Server, c: ConnectedClient, inputs: seq<Received>)
    requires c in s.clients
    requires forall k :: 0 <= k < |inputs| ==>
               !Text.StartsWith(inputs[k].payload, "!") && SendSucceeds(c, inputs[k].dead)
    ensures c in RunSession(s, c, inputs).server.clients
    decreases |inputs|
  {
    if |inputs| > 0 {
      Registry.SurvivorsMembers(s.clients, inputs[0].dead, c);
      assert inputs[0].payload != Commands.DisconnectWord;
      var step := Receive(s, c, inputs[0].payload, inputs[0].stamp, inputs[0].dead);
      assert forall k :: 0 <= k < |inputs| - 1 ==> inputs[1..][k] == inputs[k + 1];
      EndOfStreamKeepsClient(step.server, c, inputs[1..]);
    }
  }
}
