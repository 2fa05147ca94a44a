# TCP test server: session registry and message routing

A Dafny model of the sequential core of `TCPTestServer`, the server of a
Unity TCP chat/test example. Each accepted connection runs
`HandleClientWorker`, which does four things:

1. It registers the client. The id comes from `++ClientData.MAX_ID` and the
   name is `"User" + id`. The client is appended to `connectedClients` and
   a "Client Connected" notice is broadcast.
2. It reads payloads. A payload that starts with `!` goes to
   `ProcessMessage`. Every other payload is broadcast under the sender's
   identity.
3. `ProcessMessage` splits the payload on `' '` and switches on the first
   token. `!disconnect` removes the client. `!ping` echoes the re-joined
   payload plus a timestamp. Anything else is answered with
   `Unknown Command '<payload>'`.
4. `DispatchMessage` writes to every registered client by index. A client
   whose write fails is removed on the spot, and the index steps back.

The model is split into five modules:

- `Text` (`text.dfy`): `Split`/`Join` on `' '`, the first token, and the
  decimal rendering of ids.
- `Types` (`types.dfy`): `ClientData`, `ConnectedClient`, `ServerMessage`,
  the server state and the send oracle.
- `Registry` (`registry.dfy`): `DisconnectClient` (`RemoveFirst`) and the
  `DispatchMessage` loop. The loop is written as an imperative method with
  the source's `i--`. It is proved equal to a reference filter, `Survivors`.
- `Commands` (`commands.dfy`): `ProcessMessage`.
- `ClientWorker` (`worker.dfy`): registration, routing of one payload, the
  read loop, and the state invariant `Valid`.

The server state holds three things: the id counter, the registry as a
sequence in insertion order, and an outbox. The outbox lists every write
that reached a client, in order, as (recipient id, message).

`SendMessage` is modelled as an oracle: a set `dead` of client ids for
which it returns `false`. Each received payload comes with its own oracle and its own
clock reading. The `!ping` timestamp is an opaque string.

`MAX_ID` is a C# `int` incremented without a checked context. `NextId`
therefore wraps from `int.MaxValue` to `int.MinValue`. Ids increase strictly
as long as the counter is below `int.MaxValue`. The invariant-preservation
lemmas for registration require this.

Some behaviours of the code are easy to get wrong:

- There is no length-prefixed framing. Each `stream.Read` is handled as one
  whole message.
- End of stream does not remove a client from the registry. The client stays
  until a later broadcast fails to reach it (`EndOfStreamKeepsClient`).
- `!disconnect` with arguments removes the client from the registry but does
  not close the stream. The read loop keeps going, and later plain payloads
  from that client are still broadcast to the others.
- A malformed `!ping` is not an error. Whatever follows `!ping` is echoed
  back.
- Broadcasts include the sender.

## Model

| member | source | states |
|---|---|---|
| `ClientWorker.Register` | Assets/TCPTestServer.cs:112-119 | The new id is `NextId(MAX_ID)`, which is the old counter plus one below `int.MaxValue`. The name is `"User" + id`. The counter becomes the id. The registry becomes the surviving earlier clients followed by the newcomer, if its write succeeds. The "Client Connected" notice, carrying the newcomer's identity, goes to every client in that registry, in order. |
| `ClientWorker.NextId` | Assets/TCPTestServer.cs:113 | Below `int.MaxValue`, `++MAX_ID` yields the old counter plus one. |
| `ClientWorker.NextIdIncreases` | Assets/TCPTestServer.cs:113 | `++MAX_ID` increases the counter iff it is below `int.MaxValue`. At `int.MaxValue` it wraps to a negative id. |
| `Types.UserNameInjective` | Assets/TCPTestServer.cs:114 | Two default names `"User" + id` are equal iff the ids are equal. |
| `Text.DecimalRoundTrip` | Assets/TCPTestServer.cs:114 | The decimal rendering of an `int` parses back to the same integer. |
| `ClientWorker.NewcomerHearsOwnNotice` | Assets/TCPTestServer.cs:116-119 | The client is appended before the broadcast. When its write succeeds, the last write of its registration is its own "Client Connected" notice. After the notice, the newcomer is registered iff its write succeeded. |
| `ClientWorker.RegisterPreservesValid` | Assets/TCPTestServer.cs:112-119 | Below `int.MaxValue`, registration keeps the invariant: ids in `1..MAX_ID`, strictly increasing in registry order, with default names. The new id is larger than every registered id, so it is never one in use. |
| `ClientWorker.SuccessiveIdsIncrease` | Assets/TCPTestServer.cs:113 | Two connections registered one after another get strictly increasing ids, whatever the first connection did in between. |
| `ClientWorker.RegisteredIdentitiesDistinct` | Assets/TCPTestServer.cs:113-117 | In a valid state, no two registered clients share an id or a name. |
| `ClientWorker.Receive` | Assets/TCPTestServer.cs:136-150 | The read loop continues iff the payload is not exactly `!disconnect`. A payload starting with `!` is handled by `ProcessMessage` alone, and every write it causes goes to the sender. Any other payload is broadcast unchanged under the sender's `ClientData` to the clients whose writes succeed, and the others are pruned. |
| `ClientWorker.Broadcast` | Assets/TCPTestServer.cs:186-198 | A broadcast, as `DispatchMessage` is proved to compute it, leaves the counter alone and never grows the registry. It keeps every earlier write and appends exactly one write per remaining client, in registry order, each carrying the broadcast message. |
| `ClientWorker.BroadcastKeepsLiveClients` | Assets/TCPTestServer.cs:186-198 | A client remains after a broadcast iff it was registered and its write succeeded. Every remaining client receives the message. |
| `ClientWorker.ExactDisconnect` | Assets/TCPTestServer.cs:136-145 | The exact payload `!disconnect` ends the read loop, removes the client and sends nothing. |
| `ClientWorker.DisconnectWithArguments` | Assets/TCPTestServer.cs:136-172 | `!disconnect x` removes the client and sends nothing, but the read loop keeps running. |
| `ClientWorker.PingEchoesPayload` | Assets/TCPTestServer.cs:173-177 | `!ping t` is answered only to the sender, with `!ping t`, a space, and the server clock reading. The registry is unchanged. |
| `ClientWorker.UnknownCommandIsolated` | Assets/TCPTestServer.cs:178-182 | A `!` payload whose first token is neither command, including a bare `!`, is answered with `Unknown Command '<payload>'`. The answer goes only to the sender, and only if its write succeeds. The registry is unchanged and nothing is broadcast. |
| `ClientWorker.PlainPayloadReachesEveryone` | Assets/TCPTestServer.cs:142-150 | A plain payload reaches every registered client whose write succeeds, the sender included, with the sender's identity and the payload unchanged. |
| `ClientWorker.RunSession` | Assets/TCPTestServer.cs:126-151 | The number of reads handled runs up to and including the first exact `!disconnect`. If there is none, all reads are handled. The id counter is untouched. What the reads do to the state is stated by `RunSessionOne`, `RunSessionAppend` and `NothingAfterClose`. |
| `ClientWorker.RunSessionOne` | Assets/TCPTestServer.cs:128-150 | One read moves the state exactly as `Receive` does for that payload. The loop stops after it iff it is exactly `!disconnect`. |
| `ClientWorker.RunSessionAppend` | Assets/TCPTestServer.cs:128-150 | While no read has been exactly `!disconnect`, the loop carries on from the state it reached: handling `a + b` is handling `a`, then `b` from the resulting state. |
| `ClientWorker.NothingAfterClose` | Assets/TCPTestServer.cs:128-145 | If some read is exactly `!disconnect`, the loop ends by that command. Reads that come after the inputs change nothing: the state, the number of reads handled and the outcome are those at the close. |
| `ClientWorker.HandleClient` | Assets/TCPTestServer.cs:107-159 | A connection advances the id counter exactly once, to `NextId` of its old value. Its reads are handled up to and including the first exact `!disconnect`, or all of them if there is none. |
| `ClientWorker.ReceiveSpeaksAs` | Assets/TCPTestServer.cs:141-150 | Every write caused by one read, whether a reply or a broadcast, carries the identity of the client the read came from. Earlier writes are kept. |
| `ClientWorker.RunSessionSpeaksAs` | Assets/TCPTestServer.cs:126-151 | Every write of a read loop carries the identity of the client it reads for. Earlier writes are kept. |
| `ClientWorker.HandleClientSpeaksAsNewcomer` | Assets/TCPTestServer.cs:107-151 | A connection acts only as the client it just registered. Every write from the "Client Connected" notice to the end of its read loop carries the identity `(NextId(MAX_ID), "User" + id)`. |
| `ClientWorker.EndOfStreamKeepsClient` | Assets/TCPTestServer.cs:128-158 | When the stream ends, the client is not deregistered. A client that sent only plain text and whose writes never failed is still registered. |
| `ClientWorker.RunSessionPreservesValid` | Assets/TCPTestServer.cs:126-151 | A read loop keeps the registry invariant. |
| `ClientWorker.HandleClientPreservesValid` | Assets/TCPTestServer.cs:107-159 | A whole connection, from registration to the end of its read loop, keeps the invariant while ids remain below `int.MaxValue`. |
| `ClientWorker.ProcessMessagePreservesValid` | Assets/TCPTestServer.cs:161-184 | Command handling keeps the invariant: removal keeps the remaining ids in increasing order. |
| `ClientWorker.BroadcastPreservesValid` | Assets/TCPTestServer.cs:186-198 | Pruning during a broadcast keeps the invariant. |
| `Commands.ProcessMessage` | Assets/TCPTestServer.cs:161-184 | Dispatch is on the first `' '`-separated token. `!disconnect` removes the first registry entry equal to the client and sends nothing. `!ping` leaves the registry alone and sends at most one answer: the payload, a space and the clock reading. Any other token sends at most one answer, `Unknown Command '<payload>'`, and leaves the registry alone. An answer is sent iff the write succeeds, it goes to the issuing client, it carries that client's identity, and the counter never changes. |
| `Commands.Classify` | Assets/TCPTestServer.cs:163-178 | The command is `!disconnect` iff the payload is `!disconnect` alone or `!disconnect` followed by a space. The same holds for `!ping`. So `!pingx` and ` !ping` fall in the unknown case. A payload such as ` !ping` never reaches `ProcessMessage`, because it does not start with `!` and the router broadcasts it. |
| `Commands.PingReply` | Assets/TCPTestServer.cs:174 | `String.Join(" ", command.Split(' ')) + " " + stamp` equals `command + " " + stamp`. |
| `Commands.Reply` | Assets/TCPTestServer.cs:174-181 | An answer leaves the counter and the registry alone and keeps every earlier write. It adds one write iff the client's write succeeds, and none otherwise. That write goes to the issuing client, under its identity, with the given text. |
| `Text.JoinSplit` | Assets/TCPTestServer.cs:163-174 | Joining the parts of `s.Split(' ')` with `" "` gives back `s`. |
| `Text.SplitJoin` | Assets/TCPTestServer.cs:163-174 | Splitting a join of a non-empty sequence of space-free parts gives back those parts. |
| `Text.SplitPartsHaveNoSpace` | Assets/TCPTestServer.cs:163 | No part returned by `Split(' ')` contains a space. |
| `Text.FirstTokenIsLongestPrefix` | Assets/TCPTestServer.cs:163-166 | `split[0]` is the longest space-free prefix of the payload. |
| `Text.FirstTokenIs` | Assets/TCPTestServer.cs:163-168 | The first token is a space-free word `t` iff the payload is `t` or starts with `t + " "`. So `!disconnect x` selects `!disconnect`, and `!disconnectx` does not. |
| `Registry.DispatchMessage` | Assets/TCPTestServer.cs:186-198 | The index loop with `i--` tries each client of the starting registry exactly once, in order, the sender included. Afterwards the registry is the starting one minus exactly the clients whose write failed, with order kept. The successful writes are one per surviving client, in registry order. |
| `Registry.SurvivorsMembers` | Assets/TCPTestServer.cs:186-198 | A client remains after a broadcast iff it was registered and its write succeeded. |
| `Registry.SurvivorsKeepIncreasingIds` | Assets/TCPTestServer.cs:186-198 | If the ids of a registry increase, the ids of the clients left after a broadcast still increase. |
| `Registry.SurvivorsAllAlive` | Assets/TCPTestServer.cs:186-198 | A broadcast in which no write fails leaves the registry as it was. |
| `Registry.RemoveFirst` | Assets/TCPTestServer.cs:201-204 | `DisconnectClient` leaves the registry unchanged if the client is absent. Otherwise it shortens the registry by one. |
| `Registry.RemoveFirstSplices` | Assets/TCPTestServer.cs:201-204 | Removal splices out the first occurrence and leaves every other entry in its order. |
| `Registry.RemoveFirstMultiset` | Assets/TCPTestServer.cs:201-204 | Removal takes out one copy of the client and nothing else. |
| `Registry.RemoveFirstRemovesClient` | Assets/TCPTestServer.cs:201-204 | With unique ids, the client is absent after removal. |
| `Registry.RemoveFirstKeepsOthers` | Assets/TCPTestServer.cs:201-204 | Every other client is present after removal iff it was present before. |
| `Registry.RemoveFirstKeepsIncreasingIds` | Assets/TCPTestServer.cs:201-204 | Removal keeps the remaining ids in increasing order. |

## Left out

- Sockets, streams, `TcpListener`, `AcceptTcpClient`, `ThreadPool` and thread start-up (`StartServer`, `ListenForIncomingRequests`, `ListenerWorker`): these are I/O. Accepting a connection is the call to `Register`.
- `SendMessage`: the JSON serialisation, ASCII encoding and stream write are library I/O. Only its boolean result is modelled, as the `dead` oracle. A write that succeeds is recorded in the outbox.
- Concurrency: `++MAX_ID` and `connectedClients` are shared between worker threads without synchronisation. The model runs each step sequentially and claims nothing about interleavings.
- `Encoding.ASCII.GetString`: this maps bytes above 0x7F to `?`. Payloads are modelled as strings that have already been decoded.
- The 1024-byte read buffer: a payload longer than the buffer arrives as several reads. The model takes each read as one message.
- `StartsWith("!")` is a culture-sensitive comparison in .NET. It is modelled as an ordinal prefix test, and the two agree on payloads without ignorable characters.
- `"User" + data.ID` renders the id with the current culture's negative sign. The model writes `-`. This only matters for the negative ids after the counter wraps, which `Valid` excludes.
- The ping timestamp is `(DateTime.UtcNow - epoch).TotalMilliseconds`, a floating-point wall-clock value. It is modelled as an opaque string argument.
- Log events (`OnLog`) and the remote address in the connection log line are output only and are not modelled.
- Read failures: `NetworkStream.Read` reports a failed read as an `IOException`. The `catch (SocketException)` around the read loop does not catch it, so it escapes the worker thread. The model does not include read failures: a read sequence simply ends.
- Write errors thrown out of `SendMessage`: `NetworkStream.Write` reports a failed write as an `IOException`, and `SendMessage` catches only `SocketException`. Such an error aborts `DispatchMessage` partway through its loop, leaves the remaining clients untried, and ends the worker thread. The `dead` oracle models only the `false` return, and this abort is not modelled.
- The client side (`TCPTestClient`, `TCPTestClientGUI`) is presentation and socket I/O and is not part of this model.
- ClientWorker.RegisterPreservesValid: it is stated only while `MAX_ID < int.MaxValue`. After `int.MaxValue` connections the id wraps, and the source's uniqueness no longer holds (see `NextIdIncreases`).
- Registry.RemoveFirst: `List.Remove` compares `ConnectedClient` references. The model compares values, which is the same thing as long as ids are unique; `Valid` guarantees that.
