/** `ConnectionState` (mc/src/connection/mod.rs): one client's current
    phase, the handler dispatch with its kick-on-error wrapper, and the
    UUID kept for the disconnect notification. */
module Connection {
  import opened Base
  import opened States
  import HandshakePhase
  import StatusPhase
  import LoginPhase
  import PlayPhase

  /** Everything the handlers take besides the packet: the status icon,
      the server's collaborators, and the play packets' IDs and readers. */
  datatype Env = Env(
    icon: seq<byte>,
    server: LoginPhase.Server,
    ids: PlayPhase.PlayIds,
    readers: PlayPhase.PlayReaders)

  predicate EnvValid(env: Env)
  {
    StatusPhase.IconFits(env.icon) && LoginPhase.ServerValid(env.server)
  }

  /** `PostPacketAction`: what the caller must do after a packet. */
  datatype PostPacketAction = NoAction | EnteredPlayState(playerName: seq<byte>, playerUuid: Uuid)

  /** The `match state` of `handle_packet`: the handler of the current
      phase. Only the login phase leads anywhere new: the handshake
      handler always fails, and the status and play handlers stay put. */
  function Dispatch(s: ActiveState, packet: PacketBody, env: Env, ch: Channels): (t: Transaction)
    requires ValidState(s) && EnvValid(env)
    ensures t.result.Ok? ==> ValidState(t.result.value)
    ensures s.HandshakeState? ==> t.result.Err?
    ensures s.StatusState? && t.result.Ok? ==> t.result.value == StatusState
    ensures s.PlayState? && t.result.Ok? ==> t.result.value == s
    ensures t.result.Ok? && t.result.value != s ==>
      s.LoginState? && (t.result.value.PlayState? || t.result.value.LoginState?)
    ensures !s.PlayState? ==> t.sent == []
  {
    match s
    case HandshakeState => HandshakePhase.Handle(packet)
    case StatusState => StatusPhase.Handle(packet, env.icon, ch)
    case LoginState(name, token) => LoginPhase.Handle(name, token, packet, env.server, ch)
    case PlayState(_, _, _) => PlayPhase.Handle(s, packet, env.ids, env.readers, ch)
  }

  /** The packet sent to kick a client after error `e`: the login phase's
      `Disconnect`, or the play phase's `KickDisconnect` from any other. */
  function Kick(s: ActiveState, e: Error): (p: Outbound)
    ensures s.LoginState? ==> p == LoginDisconnectOut(e)
    ensures !s.LoginState? ==> p == KickDisconnectOut(e)
  {
    if s.LoginState? then LoginDisconnectOut(e) else KickDisconnectOut(e)
  }

  /** From the handshake phase there is no way forward: every packet
      fails, and the client is kicked with a `KickDisconnect`. */
  lemma HandshakeIsStuck(packet: PacketBody, env: Env, ch: Channels)
    requires EnvValid(env)
    ensures Dispatch(HandshakeState, packet, env, ch).result.Err?
    ensures Kick(HandshakeState, Dispatch(HandshakeState, packet, env, ch).result.error).KickDisconnectOut?
  {
  }

  class ConnectionState {
    var state: ActiveState
    /** Once the player has entered play, their UUID, kept for the
        disconnect notification. */
    var playUuid: Option<Uuid>
    /** Packets written to the client, in order. */
    var written: seq<Outbound>
    /** Messages sent to the game, in order. */
    var sent: seq<(Uuid, ClientMessage)>

    predicate Valid()
      reads this
    {
      ValidState(state)
    }

    /** A connection in the play phase remembers its player's UUID. */
    predicate Tracked()
      reads this
    {
      state.PlayState? ==> playUuid == Some(state.uuid)
    }

    /** `ConnectionState::new`. */
    constructor()
      ensures state == DEFAULT_STATE && playUuid == None
      ensures written == [] && sent == []
      ensures Valid() && Tracked()
    {
      state := DEFAULT_STATE;
      playUuid := None;
      written := [];
      sent := [];
    }

    /** `handle_packet`: the state is taken out (leaving the default) and
        handed to its phase's handler. A success installs the new state,
        and entering play from login records the UUID and reports
        `EnteredPlayState`. An error kicks the client (a failed kick is
        only logged), leaves the default state behind, and is returned. */
    method HandlePacket(packet: PacketBody, env: Env, ch: Channels, kickOk: bool)
      returns (r: Result<PostPacketAction>)
      requires Valid() && EnvValid(env)
      modifies this
      ensures Valid()
      ensures old(Tracked()) ==> Tracked()
      ensures var t := Dispatch(old(state), packet, env, ch);
        && sent == old(sent) + t.sent
        && (t.result.Err? ==>
              && r == Err(t.result.error)
              && state == DEFAULT_STATE
              && playUuid == old(playUuid)
              && written == old(written) + t.written + (if kickOk then [Kick(old(state), t.result.error)] else []))
        && (t.result.Ok? ==> state == t.result.value && written == old(written) + t.written)
        && (t.result.Ok? && old(state).LoginState? && t.result.value.PlayState? ==>
              && playUuid == Some(t.result.value.uuid)
              && r == Ok(EnteredPlayState(t.result.value.playerName, t.result.value.uuid)))
        && (t.result.Ok? && !(old(state).LoginState? && t.result.value.PlayState?) ==>
              playUuid == old(playUuid) && r == Ok(NoAction))
    {
      var previous := state;
      state := DEFAULT_STATE;
      var isLogin := false;
      var action := NoAction;
      var t: Transaction;
      match previous {
        case HandshakeState =>
          t := HandshakePhase.Handle(packet);
        case StatusState =>
          t := StatusPhase.Handle(packet, env.icon, ch);
        case LoginState(name, token) =>
          isLogin := true;
          t := LoginPhase.Handle(name, token, packet, env.server, ch);
          if t.result.Ok? && t.result.value.PlayState? {
            playUuid := Some(t.result.value.uuid);
            action := EnteredPlayState(t.result.value.playerName, t.result.value.uuid);
          }
        case PlayState(_, _, _) =>
          t := PlayPhase.Handle(previous, packet, env.ids, env.readers, ch);
      }
      written := written + t.written;
      sent := sent + t.sent;
      if t.result.Err? {
        var kick := if isLogin then LoginDisconnectOut(t.result.error) else KickDisconnectOut(t.result.error);
        if kickOk {
          written := written + [kick];
        }
        return Err(t.result.error);
      }
      state := t.result.value;
      r := Ok(action);
    }

    /** `on_disconnect`: the UUID is taken, and if there was one the game
        is told the player left; so a second call sends nothing. */
    method OnDisconnect(sendOk: bool) returns (r: Result<()>)
      modifies this
      ensures playUuid == None
      ensures state == old(state) && written == old(written)
      ensures old(playUuid).Some? && sendOk ==>
        sent == old(sent) + [(old(playUuid).value, PlayerDisconnected)] && r == Ok(())
      ensures old(playUuid).Some? && !sendOk ==> sent == old(sent) && r == Err(ChannelClosed)
      ensures old(playUuid).None? ==> sent == old(sent) && r == Ok(())
    {
      var uuid := playUuid;
      playUuid := None;
      r := Ok(());
      if uuid.Some? {
        if !sendOk {
          return Err(ChannelClosed);
        }
        sent := sent + [(uuid.value, PlayerDisconnected)];
      }
    }
  }
}
