/** What the phase handlers of mc/src/connection/ pass around: the phase
    a connection is in, the packets a handler writes back to the client,
    the messages it sends to the game, and what one transaction did. */
module States {
  import opened Base
  import opened Utf8
  import Position
  import Packets

  /** How a player in the play phase is connected (`PlayStateComms`). */
  datatype PlayComms = Offline | Online(sharedSecret: seq<byte>)

  /** `ActiveState`: the handshake, status, login and play phases. */
  datatype ActiveState =
    | HandshakeState
    | StatusState
    | LoginState(playerName: seq<byte>, verifyToken: seq<byte>)
    | PlayState(playerName: seq<byte>, uuid: Uuid, comms: PlayComms)

  /** `ActiveState::default()`, which is also what `mem::take` leaves. */
  const DEFAULT_STATE: ActiveState := HandshakeState

  /** A player name is a Rust `String` short enough for a `StringField`. */
  predicate ValidName(name: seq<byte>)
  {
    ValidUtf8(name) && |name| < TWO_31
  }

  /** The states the handlers build: every stored name came from a string
      field. */
  predicate ValidState(s: ActiveState)
  {
    match s
    case LoginState(name, _) => ValidName(name)
    case PlayState(name, _, _) => ValidName(name)
    case _ => true
  }

  /** A packet written to the client. The disconnect packets carry the
      error whose text they display. */
  datatype Outbound =
    | StatusResponseOut(status: Packets.StatusResponse)
    | PongOut(pong: Packets.Pong)
    | EncryptionRequestOut(request: Packets.EncryptionRequest)
    | LoginSuccessOut(success: Packets.LoginSuccess)
    | LoginDisconnectOut(loginReason: Error)
    | KickDisconnectOut(kickReason: Error)
    | JoinGameOut(join: Packets.JoinGame)
    | HeldItemChangeOut(slot: int)
    | SpawnPositionOut(location: Position.Position)
    | PlayerPositionAndLookOut(teleportId: i32)
    | DisconnectOut(reason: Error)

  /** `ClientMessage`, the messages a connection sends to the game. A new
      client brings its outgoing queue, here only whether it is open. */
  datatype ClientMessage =
    | NewClient(name: seq<byte>, outgoingOpen: bool)
    | PlayerJoined
    | VerifyTeleport(teleportId: i32)
    | VerifyKeepAlive(keepAliveId: int)
    | PlayerDisconnected

  /** Whether the next write to the client and the next send to the game
      succeed. */
  datatype Channels = Channels(writeOk: bool, sendOk: bool)

  /** What one `handle_transaction` did: the state or error it returned,
      the packets it wrote and the messages it sent, in order. */
  datatype Transaction = Transaction(
    result: Result<ActiveState>,
    written: seq<Outbound>,
    sent: seq<(Uuid, ClientMessage)>)

  /** A transaction that ends before doing anything. */
  function Fail(e: Error): (t: Transaction)
    ensures t.result == Err(e) && t.written == [] && t.sent == []
  {
    Transaction(Err(e), [], [])
  }

  /** `packet.write(w)?` and then `result`: a failed write is an `Io`
      error and the packet does not count as written. */
  function WriteThen(ch: Channels, p: Outbound, result: Result<ActiveState>): (t: Transaction)
    ensures t.sent == []
    ensures ch.writeOk ==> t.result == result && t.written == [p]
    ensures !ch.writeOk ==> t.result == Err(Io) && t.written == []
  {
    if ch.writeOk then Transaction(result, [p], []) else Fail(Io)
  }

  /** `game_broker.send(m).await?` and then `result`: a closed channel is
      `ChannelClosed` and the message is not sent. */
  function SendThen(ch: Channels, m: (Uuid, ClientMessage), result: Result<ActiveState>): (t: Transaction)
    ensures t.written == []
    ensures ch.sendOk ==> t.result == result && t.sent == [m]
    ensures !ch.sendOk ==> t.result == Err(ChannelClosed) && t.sent == []
  {
    if ch.sendOk then Transaction(result, [], [m]) else Fail(ChannelClosed)
  }
}
