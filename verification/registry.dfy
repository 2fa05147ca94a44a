/**
 The registry of connected clients (`connectedClients`), removal of one
 client (`DisconnectClient`) and the broadcast loop that prunes clients whose
 write fails (`DispatchMessage`).
 */
module Registry {
  import opened Types

  /** The ids of the clients, in registry order. */
  function Ids(cs: seq<ConnectedClient>): (ids: seq<int32>)
  {
    seq(|cs|, k requires 0 <= k < |cs| => cs[k].data.id)
  }

  /** Registry order is creation order, and ids are handed out increasingly,
      so the ids of a well-formed registry are strictly increasing. */
  predicate IncreasingIds(cs: seq<ConnectedClient>) {
    forall i, j :: 0 <= i < j < |cs| ==> cs[i].data.id < cs[j].data.id
  }

  /** The position of the first entry equal to `c`. */
  function IndexOf(cs: seq<ConnectedClient>, c: ConnectedClient): (j: nat)
    requires c in cs
    ensures j < |cs| && cs[j] == c && c !in cs[..j]
  {
    if cs[0] == c then 0
    else
      var j := 1 + IndexOf(cs[1..], c);
      assert cs[..j] == [cs[0]] + cs[1..][..j - 1];
      j
  }

  /** `DisconnectClient`: `List.Remove` takes out the first entry equal to `c`,
      if there is one, and leaves the rest of the registry as it was. */
  function RemoveFirst(cs: seq<ConnectedClient>, c: ConnectedClient): (r: seq<ConnectedClient>)
    ensures c !in cs ==> r == cs
    ensures c in cs ==> |r| == |cs| - 1
    decreases |cs|
  {
    if |cs| == 0 then cs
    else if cs[0] == c then cs[1..]
    else
      var tail := RemoveFirst(cs[1..], c);
      assert c !in cs ==> cs == [cs[0]] + cs[1..];
      [cs[0]] + tail
  }

  /** Removal splices the registry at the first occurrence of `c`: every
      entry before it keeps its position, every entry after it moves up one. */
  lemma {:induction false} RemoveFirstSplices(cs: seq<ConnectedClient>, c: ConnectedClient)
    requires c in cs
    ensures RemoveFirst(cs, c) == cs[..IndexOf(cs, c)] + cs[IndexOf(cs, c) + 1..]
    decreases |cs|
  {
    if cs[0] != c {
      RemoveFirstSplices(cs[1..], c);
      var j := IndexOf(cs[1..], c);
      assert IndexOf(cs, c) == j + 1;
      assert cs[..j + 1] == [cs[0]] + cs[1..][..j];
      assert cs[j + 2..] == cs[1..][j + 1..];
    }
  }

  /** Removal takes out one copy of `c` and nothing else. */
  lemma {:induction false} RemoveFirstMultiset(cs: seq<ConnectedClient>, c: ConnectedClient)
    ensures multiset(RemoveFirst(cs, c)) == multiset(cs) - multiset{c}
    decreases |cs|
  {
    if |cs| > 0 {
      assert cs == [cs[0]] + cs[1..];
      if cs[0] != c {
        RemoveFirstMultiset(cs[1..], c);
      }
    }
  }

  /** With unique ids, removing a client removes it entirely. */
  lemma RemoveFirstRemovesClient(cs: seq<ConnectedClient>, c: ConnectedClient)
    requires IncreasingIds(cs)
    ensures c !in RemoveFirst(cs, c)
  {
  }

  /** Removing a client keeps every other client. */
  lemma RemoveFirstKeepsOthers(cs: seq<ConnectedClient>, c: ConnectedClient, x: ConnectedClient)
    requires x != c
    ensures x in RemoveFirst(cs, c) <==> x in cs
  {
  }

  /** Where each remaining client came from. */
  lemma RemoveFirstAt(cs: seq<ConnectedClient>, c: ConnectedClient, k: nat)
    requires c in cs
    requires k < |cs| - 1
    ensures |RemoveFirst(cs, c)| == |cs| - 1
    ensures RemoveFirst(cs, c)[k] == if k < IndexOf(cs, c) then cs[k] else cs[k + 1]
  {
    RemoveFirstSplices(cs, c);
  }

  /** Removing a client keeps the order of the others. */
  lemma RemoveFirstKeepsIncreasingIds(cs: seq<ConnectedClient>, c: ConnectedClient)
    requires IncreasingIds(cs)
    ensures IncreasingIds(RemoveFirst(cs, c))
  {
    if c in cs {
      var j := IndexOf(cs, c);
      var r := RemoveFirst(cs, c);
      forall a, b | 0 <= a < b < |r|
        ensures r[a].data.id < r[b].data.id
      {
        RemoveFirstAt(cs, c, a);
        RemoveFirstAt(cs, c, b);
      }
    }
  }

  /** The clients a broadcast leaves in the registry: those whose write
      succeeds, in registry order. This is the reference the broadcast loop is
      proved against. */
  function Survivors(cs: seq<ConnectedClient>, dead: set<int32>): (r: seq<ConnectedClient>)
    ensures |r| <= |cs|
    decreases |cs|
  {
    if |cs| == 0 then []
    else if SendSucceeds(cs[0], dead) then [cs[0]] + Survivors(cs[1..], dead)
    else Survivors(cs[1..], dead)
  }

  /** A client survives a broadcast exactly when it was in the registry and
      its write succeeded. */
  lemma {:induction false} SurvivorsMembers(cs: seq<ConnectedClient>, dead: set<int32>, x: ConnectedClient)
    ensures x in Survivors(cs, dead) <==> x in cs && SendSucceeds(x, dead)
    decreases |cs|
  {
    if |cs| > 0 {
      SurvivorsMembers(cs[1..], dead, x);
      assert cs == [cs[0]] + cs[1..];
    }
  }

  /** One write of `msg` to each of `cs`, in order. */
  function Deliver(cs: seq<ConnectedClient>, msg: ServerMessage): (ds: seq<Delivery>)
  {
    seq(|cs|, k requires 0 <= k < |cs| => Delivery(cs[k].data.id, msg))
  }

  lemma {:induction false} SurvivorsAppend(cs: seq<ConnectedClient>, x: ConnectedClient, dead: set<int32>)
    ensures Survivors(cs + [x], dead)
         == Survivors(cs, dead) + (if SendSucceeds(x, dead) then [x] else [])
    decreases |cs|
  {
    if |cs| > 0 {
      assert (cs + [x])[1..] == cs[1..] + [x];
      SurvivorsAppend(cs[1..], x, dead);
    }
  }

  /** Survivors is a sub-sequence: pruning keeps relative order, and it keeps
      an increasing-id registry increasing. */
  lemma {:induction false} SurvivorsKeepIncreasingIds(cs: seq<ConnectedClient>, dead: set<int32>)
    requires IncreasingIds(cs)
    ensures IncreasingIds(Survivors(cs, dead))
    decreases |cs|
  {
    if |cs| > 0 {
      SurvivorsKeepIncreasingIds(cs[1..], dead);
      var rest := Survivors(cs[1..], dead);
      forall k | 0 <= k < |rest|
        ensures cs[0].data.id < rest[k].data.id
      {
        SurvivorsMembers(cs[1..], dead, rest[k]);
      }
    }
  }

  /** A broadcast with no failed write leaves the registry as it was. */
  lemma {:induction false} SurvivorsAllAlive(cs: seq<ConnectedClient>, dead: set<int32>)
    requires forall k :: 0 <= k < |cs| ==> SendSucceeds(cs[k], dead)
    ensures Survivors(cs, dead) == cs
    decreases |cs|
  {
    if |cs| > 0 {
      SurvivorsAllAlive(cs[1..], dead);
      assert cs == [cs[0]] + cs[1..];
    }
  }

  lemma DeliverAppend(cs: seq<ConnectedClient>, x: ConnectedClient, msg: ServerMessage)
    ensures Deliver(cs + [x], msg) == Deliver(cs, msg) + [Delivery(x.data.id, msg)]
  {
  }

  lemma IdsAppend(cs: seq<ConnectedClient>, x: ConnectedClient)
    ensures Ids(cs + [x]) == Ids(cs) + [x.data.id]
  {
  }

  /** Visiting one more client of the starting registry. */
  lemma SurvivorsStep(clients: seq<ConnectedClient>, k: nat, dead: set<int32>)
    requires k < |clients|
    ensures clients[..k + 1] == clients[..k] + [clients[k]]
    ensures Survivors(clients[..k + 1], dead)
         == Survivors(clients[..k], dead) + (if SendSucceeds(clients[k], dead) then [clients[k]] else [])
  {
    assert clients[..k + 1] == clients[..k] + [clients[k]];
    SurvivorsAppend(clients[..k], clients[k], dead);
  }

  /** A client that does not occur before a given position is removed at
      that position. */
  lemma {:induction false} RemoveFirstAfter(done: seq<ConnectedClient>, c: ConnectedClient,
                                            rest: seq<ConnectedClient>)
    requires c !in done
    ensures RemoveFirst(done + [c] + rest, c) == done + rest
    decreases |done|
  {
    if |done| > 0 {
      assert (done + [c] + rest)[1..] == done[1..] + [c] + rest;
      RemoveFirstAfter(done[1..], c, rest);
      assert done + rest == [done[0]] + (done[1..] + rest);
    }
  }

  /** The registry after a failed write at the visiting boundary: nothing
      before the boundary is dead, so the failed client is removed exactly
      there. */
  lemma PruneStep(clients: seq<ConnectedClient>, k: nat, dead: set<int32>)
    requires k < |clients|
    requires !SendSucceeds(clients[k], dead)
    ensures RemoveFirst(Survivors(clients[..k], dead) + clients[k..], clients[k])
         == Survivors(clients[..k + 1], dead) + clients[k + 1..]
  {
    var done := Survivors(clients[..k], dead);
    SurvivorsStep(clients, k, dead);
    assert clients[k..] == [clients[k]] + clients[k + 1..];
    assert done + clients[k..] == done + [clients[k]] + clients[k + 1..];
    SurvivorsMembers(clients[..k], dead, clients[k]);
    RemoveFirstAfter(done, clients[k], clients[k + 1..]);
  }

  /** One visit in which the write succeeds: the client stays, one more
      client lies before the index, and one delivery is recorded. */
  lemma KeepStep(clients: seq<ConnectedClient>, k: nat, dead: set<int32>, msg: ServerMessage)
    requires k < |clients|
    requires SendSucceeds(clients[k], dead)
    ensures Survivors(clients[..k + 1], dead) + clients[k + 1..]
         == Survivors(clients[..k], dead) + clients[k..]
    ensures |Survivors(clients[..k + 1], dead)| == |Survivors(clients[..k], dead)| + 1
    ensures Deliver(Survivors(clients[..k + 1], dead), msg)
         == Deliver(Survivors(clients[..k], dead), msg) + [Delivery(clients[k].data.id, msg)]
    ensures Ids(clients[..k + 1]) == Ids(clients[..k]) + [clients[k].data.id]
  {
    SurvivorsStep(clients, k, dead);
    IdsAppend(clients[..k], clients[k]);
    DeliverAppend(Survivors(clients[..k], dead), clients[k], msg);
    assert clients[k..] == [clients[k]] + clients[k + 1..];
  }

  /** One visit in which the write fails: removing the client at the index
      gives the registry the next visit expects, and nothing is delivered. */
  lemma DropStep(clients: seq<ConnectedClient>, k: nat, dead: set<int32>, msg: ServerMessage)
    requires k < |clients|
    requires !SendSucceeds(clients[k], dead)
    ensures RemoveFirst(Survivors(clients[..k], dead) + clients[k..], clients[k])
         == Survivors(clients[..k + 1], dead) + clients[k + 1..]
    ensures Survivors(clients[..k + 1], dead) == Survivors(clients[..k], dead)
    ensures Ids(clients[..k + 1]) == Ids(clients[..k]) + [clients[k].data.id]
  {
    SurvivorsStep(clients, k, dead);
    PruneStep(clients, k, dead);
    IdsAppend(clients[..k], clients[k]);
  }

  /** The client at the index is the next unvisited client of the starting
      registry. */
  lemma AtIndex(clients: seq<ConnectedClient>, k: nat, dead: set<int32>)
    requires k < |clients|
    ensures var done := Survivors(clients[..k], dead);
            |done| < |done + clients[k..]| && (done + clients[k..])[|done|] == clients[k]
  {
  }

  /** When the index reaches the end of the registry, every client of the
      starting registry has been visited. */
  lemma AllVisited(clients: seq<ConnectedClient>, k: nat, dead: set<int32>)
    requires k <= |clients|
    requires |Survivors(clients[..k], dead)| == |Survivors(clients[..k], dead) + clients[k..]|
    ensures k == |clients| && clients[..k] == clients
    ensures Survivors(clients[..k], dead) + clients[k..] == Survivors(clients, dead)
  {
  }

  /** `DispatchMessage`: walks the registry by index and writes `msg` to each
      client; a client whose write fails is removed on the spot and the index
      is stepped back, so the client that moved into its slot is not skipped.
      Every client of the starting registry is tried exactly once, in order
      (`tried`), the registry that remains is the starting one without exactly
      the failed clients, order kept, and `sent` lists the successful writes
      in order. The sender of `msg` gets no special treatment. */
  method DispatchMessage(clients: seq<ConnectedClient>, msg: ServerMessage, dead: set<int32>)
    returns (remaining: seq<ConnectedClient>, tried: seq<int32>, sent: seq<Delivery>)
    ensures tried == Ids(clients)
    ensures remaining == Survivors(clients, dead)
    ensures sent == Deliver(Survivors(clients, dead), msg)
  {
    remaining := clients;
    tried := [];
    sent := [];
    ghost var k := 0;
    var i: int := 0;
    while i < |remaining|
      invariant 0 <= k <= |clients|
      invariant remaining == Survivors(clients[..k], dead) + clients[k..]
      invariant i == |Survivors(clients[..k], dead)|
      invariant tried == Ids(clients[..k])
      invariant sent == Deliver(Survivors(clients[..k], dead), msg)
      decreases |clients| - k
    {
      AtIndex(clients, k, dead);
      var connection := remaining[i];
      tried := tried + [connection.data.id];
      if !SendSucceeds(connection, dead) {
        DropStep(clients, k, dead, msg);
        remaining := RemoveFirst(remaining, connection);
        i := i - 1;
      } else {
        KeepStep(clients, k, dead, msg);
        sent := sent + [Delivery(connection.data.id, msg)];
      }
      k := k + 1;
      i := i + 1;
    }
    AllVisited(clients, k, dead);
  }
}
