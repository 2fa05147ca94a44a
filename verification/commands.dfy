/**
 `ProcessMessage`: the command language. The payload is split on `' '` and
 the first token picks the command; the reply, if any, goes to the issuing
 client only.
 */
module Commands {
  import opened Types
  import Text
  import Registry

  const DisconnectWord: string := "!disconnect"
  const PingWord: string := "!ping"

  datatype Command = Disconnect | Ping | Unknown

  lemma WordsHaveNoSpace()
    ensures Text.NoSpace(DisconnectWord) && Text.NoSpace(PingWord)
    ensures DisconnectWord + " " == DisconnectWord + [Text.Space]
    ensures PingWord + " " == PingWord + [Text.Space]
  {
  }

  /** The payload names command word `w`: it is `w` alone or `w` followed by
      a space and arguments. */
  predicate Names(command: string, w: string) {
    command == w || Text.StartsWith(command, w + " ")
  }

  /** The `switch (split[0])` of `ProcessMessage`. In terms of the payload:
      `"!ping"` and `"!ping 12"` are pings, `"!pingx"` and `" !ping"` are not. */
  function Classify(command: string): (k: Command)
    ensures k == Disconnect <==> Names(command, DisconnectWord)
    ensures k == Ping <==> Names(command, PingWord)
  {
    WordsHaveNoSpace();
    Text.FirstTokenIs(command, DisconnectWord);
    Text.FirstTokenIs(command, PingWord);
    var word := Text.Split(command)[0];
    if word == DisconnectWord then Disconnect
    else if word == PingWord then Ping
    else Unknown
  }

  /** The text of the reply to `!ping`: the re-joined split payload, a space,
      and the server clock reading (kept opaque). */
  function PingReply(command: string, stamp: string): (text: string)
    ensures text == command + " " + stamp
  {
    Text.JoinSplit(command);
    Text.Join(Text.Split(command)) + " " + stamp
  }

  /** The text of the reply to any other command word. */
  function UnknownReply(command: string): string {
    "Unknown Command '" + command + "'"
  }

  /** Every write after position `from` of the outbox goes to client `c`
      and carries `c`'s identity as sender. */
  predicate OnlyTo(outbox: seq<Delivery>, from: nat, c: ConnectedClient) {
    forall k :: from <= k < |outbox| ==> outbox[k].to == c.data.id && outbox[k].msg.sender == c.data
  }

  /** `SendMessage(connectedClient.Client, new ServerMessage(ClientData, text))`
      with its result ignored: a failed write is simply lost. */
  function Reply(s: Server, c: ConnectedClient, text: string, dead: set<int32>): (r: Server)
    ensures r.maxId == s.maxId && r.clients == s.clients
    ensures |s.outbox| <= |r.outbox| <= |s.outbox| + 1 && r.outbox[..|s.outbox|] == s.outbox
    ensures |r.outbox| > |s.outbox| <==> SendSucceeds(c, dead)
    ensures OnlyTo(r.outbox, |s.outbox|, c)
    ensures forall k :: |s.outbox| <= k < |r.outbox| ==> r.outbox[k].msg.text == text
  {
    if SendSucceeds(c, dead) then
      s.(outbox := s.outbox + [Delivery(c.data.id, ServerMessage(c.data, text))])
    else s
  }

  /** `ProcessMessage`. `!disconnect` takes the client out of the registry
      and answers nothing; `!ping` answers the payload followed by a space and
      the clock reading; any other first word answers
      `Unknown Command '<payload>'`. Answers go to the issuing client only,
      the id counter never moves, and only `!disconnect` touches the
      registry. */
  function ProcessMessage(s: Server, c: ConnectedClient, command: string, stamp: string,
                          dead: set<int32>): (r: Server)
    ensures r.maxId == s.maxId
    ensures |s.outbox| <= |r.outbox| <= |s.outbox| + 1 && r.outbox[..|s.outbox|] == s.outbox
    ensures OnlyTo(r.outbox, |s.outbox|, c)
    ensures Text.FirstToken(command) == DisconnectWord ==>
              r.clients == Registry.RemoveFirst(s.clients, c) && r.outbox == s.outbox
    ensures Text.FirstToken(command) != DisconnectWord ==> r.clients == s.clients
    ensures Text.FirstToken(command) != DisconnectWord ==>
              (|r.outbox| == |s.outbox| + 1 <==> SendSucceeds(c, dead))
    ensures Text.FirstToken(command) == PingWord && SendSucceeds(c, dead) ==>
              r.outbox[|s.outbox|].msg.text == command + " " + stamp
    ensures Text.FirstToken(command) !in {DisconnectWord, PingWord} && SendSucceeds(c, dead) ==>
              r.outbox[|s.outbox|].msg.text == "Unknown Command '" + command + "'"
  {
    match Classify(command)
    case Disconnect => s.(clients := Registry.RemoveFirst(s.clients, c))
    case Ping => Reply(s, c, PingReply(command, stamp), dead)
    case Unknown => Reply(s, c, UnknownReply(command), dead)
  }
}
