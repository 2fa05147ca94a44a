/**
 The records the server keeps and sends. A connection handle (`TcpClient`) is
 not modelled: a connected client is known by its `ClientData`, and whether a
 write to it succeeds is decided by an oracle passed to each operation.
 */
module Types {
  import Text

  /** C#'s `int`. */
  newtype int32 = x: int | -0x8000_0000 <= x < 0x8000_0000

  const IntMax: int32 := 0x7fff_ffff
  const IntMin: int32 := -0x8000_0000

  /** `ClientData`: the identity assigned to a connection. */
  datatype ClientData = ClientData(id: int32, name: string)

  /** `ConnectedClient`: an entry of the registry. Its socket is abstracted to
      the identity it was created with. */
  datatype ConnectedClient = ConnectedClient(data: ClientData)

  /** `ServerMessage`: what the server writes to a client. */
  datatype ServerMessage = ServerMessage(sender: ClientData, text: string)

  /** One successful write of `msg` to the client with id `to`. */
  datatype Delivery = Delivery(to: int32, msg: ServerMessage)

  /** The server state the core touches: the id counter `ClientData.MAX_ID`,
      the registry `connectedClients` in insertion order, and every write that
      reached a client, in the order it was made. */
  datatype Server = Server(maxId: int32, clients: seq<ConnectedClient>, outbox: seq<Delivery>)

  /** The server before its first connection: `MAX_ID` starts at 0. */
  const Initial: Server := Server(0, [], [])

  /** The send oracle: `SendMessage` returns false exactly for the clients
      whose id is in `dead` (not connected, stream not writable, or a
      `SocketException` caught during the write). A write error that escapes
      `SendMessage` as another exception is outside this oracle. */
  predicate SendSucceeds(c: ConnectedClient, dead: set<int32>) {
    c.data.id !in dead
  }

  /** `"User" + id`. */
  function UserName(id: int32): string {
    "User" + Text.Decimal(id as int)
  }

  /** Distinct ids give distinct default names, because the decimal part can
      be read back. */
  lemma UserNameInjective(a: int32, b: int32)
    ensures UserName(a) == UserName(b) <==> a == b
  {
    if UserName(a) == UserName(b) {
      assert Text.Decimal(a as int) == UserName(a)[4..];
      assert Text.Decimal(b as int) == UserName(b)[4..];
      Text.DecimalRoundTrip(a as int);
      Text.DecimalRoundTrip(b as int);
    }
  }
}
