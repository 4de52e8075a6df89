/** `Game` (mc/src/game/mod.rs): the table of players, the packets sent
    to a player as they join, the teleport confirmation they owe, and the
    loop that handles the connections' messages one at a time. */
module Game {
  import opened Base
  import opened States
  import opened Utf8
  import Packets
  import SF = StringField
  import VarInt
  import Position
  import Numeric

  /** `Client`: a player's name, the teleport ID they must confirm, and
      their outgoing queue, here the packets queued so far and whether
      the queue's receiving end is still there. */
  datatype Client = Client(name: seq<byte>, nextTeleportId: Option<i32>, outgoing: seq<Outbound>, open: bool)

  type Clients = map<Uuid, Client>

  /** `Client::new`: nothing queued and no teleport pending. */
  function NewClientOf(name: seq<byte>, open: bool): (c: Client)
    ensures c.name == name && c.open == open
    ensures c.nextTeleportId == None && c.outgoing == []
  {
    Client(name, None, [], open)
  }

  /** The teleport ID `on_player_joined` sends and then expects back. */
  const TELEPORT_ID: i32 := 1234

  /** The level type every player is told, "default". */
  const LEVEL_TYPE: seq<byte> := [0x64, 0x65, 0x66, 0x61, 0x75, 0x6C, 0x74]

  /** The `JoinGame` packet every player receives, its string and VarInt
      fields spelled out (`LevelTypeBuilt` and `ViewDistanceBuilt`
      show they are the ones `StringField::new` and `into` build). */
  function JoinPacket(): Packets.JoinGame
  {
    Packets.JoinGame(123, 0, 0, 12345678, 0,
      SF.StringField(LEVEL_TYPE, VarInt.VarIntField(7, [7, 0, 0, 0, 0], 1)),
      VarInt.VarIntField(20, [20, 0, 0, 0, 0], 1), false, true)
  }

  /** The join packet can be written: every field is in range. */
  lemma JoinPacketValid()
    ensures Packets.JoinGameValid(JoinPacket())
  {
    var p := JoinPacket();
    LevelTypeBuilt();
    ViewDistanceBuilt();
    assert SF.Valid(p.levelType) && VarInt.Valid(p.viewDistance);
    assert Numeric.InRange(Numeric.Long, p.hashedSeed) && Numeric.InRange(Numeric.Int, p.entityId);
  }

  /** The level type is the text "default". */
  lemma LevelTypeText()
    ensures LEVEL_TYPE == Ascii("default")
  {
    var t := Ascii("default");
    assert t[0] == 0x64 && t[1] == 0x65 && t[2] == 0x66 && t[3] == 0x61;
    assert t[4] == 0x75 && t[5] == 0x6C && t[6] == 0x74;
  }

  /** The level type field is the one `StringField::new` builds. */
  lemma LevelTypeBuilt()
    ensures Utf8.ValidUtf8(LEVEL_TYPE) && JoinPacket().levelType == SF.New(LEVEL_TYPE)
  {
    var t := LEVEL_TYPE;
    assert IsAscii(t);
    AsciiValid(t);
    VarInt.SmallField(7);
  }

  /** The view distance field is the one `20.into()` builds. */
  lemma ViewDistanceBuilt()
    ensures JoinPacket().viewDistance == VarInt.FromValue(20)
  {
    VarInt.SmallField(20);
  }

  /** What `on_player_joined` queues, in order. */
  function JoinPackets(): (ps: seq<Outbound>)
    ensures |ps| == 4 && ps[3] == PlayerPositionAndLookOut(TELEPORT_ID)
  {
    [JoinGameOut(JoinPacket()),
     HeldItemChangeOut(2),
     SpawnPositionOut(Position.FromTuple((500, 64, 500))),
     PlayerPositionAndLookOut(TELEPORT_ID)]
  }

  /** `client` and `client_mut`. */
  function Lookup(cs: Clients, uuid: Uuid): (r: Result<Client>)
    ensures r.Ok? <==> uuid in cs
    ensures r.Ok? ==> r.value == cs[uuid]
    ensures r.Err? ==> r.error == NoSuchPlayer(uuid)
  {
    if uuid in cs then Ok(cs[uuid]) else Err(NoSuchPlayer(uuid))
  }

  /** Writing an entry twice keeps the second value. */
  lemma UpdateTwice(cs: Clients, u: Uuid, a: Client, b: Client)
    ensures cs[u := a][u := b] == cs[u := b]
  {
  }

  /** Writing an entry back unchanged changes nothing. */
  lemma UpdateSame(cs: Clients, u: Uuid)
    requires u in cs
    ensures cs[u := cs[u]] == cs
  {
  }

  /** `send_packet_to_client`: queues `p` for a known player whose queue
      is open; otherwise an error and no change. */
  function Send(cs: Clients, uuid: Uuid, p: Outbound): (r: (Result<()>, Clients))
    ensures uuid !in cs ==> r == (Err(NoSuchPlayer(uuid)), cs)
    ensures uuid in cs && !cs[uuid].open ==> r == (Err(ChannelClosed), cs)
    ensures uuid in cs && cs[uuid].open ==>
      r == (Ok(()), cs[uuid := cs[uuid].(outgoing := cs[uuid].outgoing + [p])])
  {
    match Lookup(cs, uuid)
    case Err(e) => (Err(e), cs)
    case Ok(c) =>
      if !c.open then (Err(ChannelClosed), cs)
      else (Ok(()), cs[uuid := c.(outgoing := c.outgoing + [p])])
  }

  /** The packets `ps` queued for `uuid` in one go: a queue is open or
      closed for good, so sending them one at a time queues all of them
      or, failing at the first, none (see `SendAllStep`). */
  function SendAll(cs: Clients, uuid: Uuid, ps: seq<Outbound>): (Result<()>, Clients)
  {
    if ps == [] then (Ok(()), cs)
    else if uuid !in cs then (Err(NoSuchPlayer(uuid)), cs)
    else if !cs[uuid].open then (Err(ChannelClosed), cs)
    else (Ok(()), cs[uuid := cs[uuid].(outgoing := cs[uuid].outgoing + ps)])
  }

  /** Sending one more packet after `ps` went through is sending `ps`
      with it appended. */
  lemma SendAllStep(cs: Clients, uuid: Uuid, ps: seq<Outbound>, p: Outbound)
    requires SendAll(cs, uuid, ps).0.Ok?
    ensures Send(SendAll(cs, uuid, ps).1, uuid, p) == SendAll(cs, uuid, ps + [p])
  {
    if uuid in cs && cs[uuid].open {
      var c := cs[uuid];
      var c1 := c.(outgoing := c.outgoing + ps);
      var c2 := c.(outgoing := c.outgoing + (ps + [p]));
      Assoc(c.outgoing, ps, [p]);
      assert c1.(outgoing := c1.outgoing + [p]) == c2;
      UpdateTwice(cs, uuid, c1, c2);
      if ps == [] {
        assert c1 == c;
        UpdateSame(cs, uuid);
      }
    }
  }

  /** `set_teleport_id`. */
  function SetTeleport(cs: Clients, uuid: Uuid, id: i32): (r: (Result<()>, Clients))
    ensures uuid !in cs ==> r == (Err(NoSuchPlayer(uuid)), cs)
    ensures uuid in cs ==> r == (Ok(()), cs[uuid := cs[uuid].(nextTeleportId := Some(id))])
  {
    match Lookup(cs, uuid)
    case Err(e) => (Err(e), cs)
    case Ok(c) => (Ok(()), cs[uuid := c.(nextTeleportId := Some(id))])
  }

  /** `check_teleport_id`: the pending ID is taken whether or not it
      matches, so each ID is accepted at most once. */
  function CheckTeleport(cs: Clients, uuid: Uuid, confirmed: i32): (r: (Result<()>, Clients))
    ensures uuid !in cs ==> r == (Err(NoSuchPlayer(uuid)), cs)
    ensures uuid in cs ==> r.1 == cs[uuid := cs[uuid].(nextTeleportId := None)]
    ensures uuid in cs ==> (r.0.Ok? <==> cs[uuid].nextTeleportId == Some(confirmed))
    ensures uuid in cs && r.0.Err? ==>
      r.0.error == IncorrectTeleportConfirm(cs[uuid].nextTeleportId, confirmed)
  {
    match Lookup(cs, uuid)
    case Err(e) => (Err(e), cs)
    case Ok(c) =>
      var cs' := cs[uuid := c.(nextTeleportId := None)];
      if c.nextTeleportId == Some(confirmed) then (Ok(()), cs')
      else (Err(IncorrectTeleportConfirm(c.nextTeleportId, confirmed)), cs')
  }

  /** `kick_with_error`: queue a `Disconnect` showing `e`; a failure to
      do so is only logged. */
  function Kick(cs: Clients, uuid: Uuid, e: Error): (cs': Clients)
    ensures uuid in cs && cs[uuid].open ==>
      cs' == cs[uuid := cs[uuid].(outgoing := cs[uuid].outgoing + [DisconnectOut(e)])]
    ensures !(uuid in cs && cs[uuid].open) ==> cs' == cs
  {
    Send(cs, uuid, DisconnectOut(e)).1
  }

  /** `on_player_joined`: the four join packets, then the teleport ID
      they must confirm; the first failure stops it. */
  function Joined(cs: Clients, uuid: Uuid): (r: (Result<()>, Clients))
    ensures uuid !in cs ==> r == (Err(NoSuchPlayer(uuid)), cs)
    ensures uuid in cs && !cs[uuid].open ==> r == (Err(ChannelClosed), cs)
    ensures uuid in cs && cs[uuid].open ==>
      r == (Ok(()), cs[uuid := cs[uuid].(outgoing := cs[uuid].outgoing + JoinPackets(), nextTeleportId := Some(TELEPORT_ID))])
  {
    var (r, cs') := SendAll(cs, uuid, JoinPackets());
    if r.Err? then (r, cs') else
    var c := cs[uuid];
    var sent := c.(outgoing := c.outgoing + JoinPackets());
    UpdateTwice(cs, uuid, sent, sent.(nextTeleportId := Some(TELEPORT_ID)));
    SetTeleport(cs', uuid, TELEPORT_ID)
  }

  /** The result of handling one message, before the kick. */
  function Handled(cs: Clients, uuid: Uuid, msg: ClientMessage): (r: (Result<()>, Clients))
  {
    match msg
    case NewClient(name, open) => Joined(cs[uuid := NewClientOf(name, open)], uuid)
    case VerifyTeleport(id) => CheckTeleport(cs, uuid, id)
    case _ => (Ok(()), cs)
  }

  /** One turn of the message loop in `run`: a new client is added (in
      place of any player with the same UUID) and sent the join packets;
      a teleport confirmation is checked; on an error the player is
      kicked with it. The messages `run` does not match change nothing. */
  function Step(cs: Clients, uuid: Uuid, msg: ClientMessage): Clients
  {
    var (r, cs1) := Handled(cs, uuid, msg);
    if r.Err? then Kick(cs1, uuid, r.error) else cs1
  }

  /** A new client replaces any player with its UUID; with an open queue
      it holds the join packets and owes the teleport confirmation. */
  lemma StepJoins(cs: Clients, uuid: Uuid, name: seq<byte>, open: bool)
    ensures Step(cs, uuid, NewClient(name, open)) ==
      cs[uuid := if open then Client(name, Some(TELEPORT_ID), JoinPackets(), true) else NewClientOf(name, false)]
  {
    if open {
      JoinsOpen(cs, uuid, name);
    } else {
      assert Joined(cs[uuid := NewClientOf(name, false)], uuid).0 == Err(ChannelClosed);
    }
  }

  lemma JoinsOpen(cs: Clients, uuid: Uuid, name: seq<byte>)
    ensures Step(cs, uuid, NewClient(name, true)) == cs[uuid := Client(name, Some(TELEPORT_ID), JoinPackets(), true)]
  {
    var c := NewClientOf(name, true);
    var joined := Client(name, Some(TELEPORT_ID), JoinPackets(), true);
    var cs1 := cs[uuid := c];
    assert [] + JoinPackets() == JoinPackets();
    assert c.(outgoing := c.outgoing + JoinPackets(), nextTeleportId := Some(TELEPORT_ID)) == joined;
    UpdateTwice(cs, uuid, c, joined);
  }

  /** A teleport confirmation clears what was pending; the wrong ID gets
      the player a `Disconnect` if their queue is open. */
  lemma StepConfirms(cs: Clients, uuid: Uuid, id: i32)
    requires uuid in cs
    ensures var c := cs[uuid];
            var kick := if c.nextTeleportId == Some(id) || !c.open then []
                        else [DisconnectOut(IncorrectTeleportConfirm(c.nextTeleportId, id))];
            Step(cs, uuid, VerifyTeleport(id)) == cs[uuid := c.(nextTeleportId := None, outgoing := c.outgoing + kick)]
  {
    var c := cs[uuid].(nextTeleportId := None);
    assert c.outgoing + [] == c.outgoing;
    UpdateTwice(cs, uuid, c, c.(outgoing := c.outgoing + [DisconnectOut(IncorrectTeleportConfirm(cs[uuid].nextTeleportId, id))]));
  }

  /** A confirmation from a player not in the game, and every other
      message, changes nothing. */
  lemma StepIgnores(cs: Clients, uuid: Uuid, msg: ClientMessage)
    requires !msg.NewClient?
    requires msg.VerifyTeleport? ==> uuid !in cs
    ensures Step(cs, uuid, msg) == cs
  {
  }

  /** Only a `NewClient` adds a player, and no message removes one. */
  lemma StepPlayers(cs: Clients, uuid: Uuid, msg: ClientMessage)
    ensures Step(cs, uuid, msg).Keys == cs.Keys + (if msg.NewClient? then {uuid} else {})
  {
    match msg
    case NewClient(name, open) => StepJoins(cs, uuid, name, open);
    case VerifyTeleport(id) =>
      if uuid in cs {
        StepConfirms(cs, uuid, id);
      } else {
        StepIgnores(cs, uuid, msg);
      }
    case _ => StepIgnores(cs, uuid, msg);
  }

  type Message = (Uuid, ClientMessage)
  type StepFn = (Clients, Uuid, ClientMessage) -> Clients

  /** The table after `step` has handled `ms` in order. */
  function Fold(step: StepFn, cs: Clients, ms: seq<Message>): Clients
    decreases |ms|
  {
    if ms == [] then cs else step(Fold(step, cs, ms[..|ms| - 1]), ms[|ms| - 1].0, ms[|ms| - 1].1)
  }

  /** The table after the message loop has handled `ms` in order. */
  function Run(cs: Clients, ms: seq<Message>): Clients
  {
    Fold(Step, cs, ms)
  }

  lemma InitOfAppend(a: seq<Message>, b: seq<Message>)
    requires b != []
    ensures (a + b)[..|a + b| - 1] == a + b[..|b| - 1]
    ensures (a + b)[|a + b| - 1] == b[|b| - 1]
  {
  }

  lemma {:induction false} FoldAppend(step: StepFn, cs: Clients, a: seq<Message>, b: seq<Message>)
    ensures Fold(step, cs, a + b) == Fold(step, Fold(step, cs, a), b)
    decreases |b|
  {
    if b == [] {
      assert a + b == a;
    } else {
      InitOfAppend(a, b);
      FoldAppend(step, cs, a, b[..|b| - 1]);
    }
  }

  /** Handling `a` and then `b` is handling `a + b`. */
  lemma RunAppend(cs: Clients, a: seq<Message>, b: seq<Message>)
    ensures Run(cs, a + b) == Run(Run(cs, a), b)
  {
    FoldAppend(Step, cs, a, b);
  }

  predicate Announced(ms: seq<Message>, u: Uuid)
  {
    exists i :: 0 <= i < |ms| && ms[i].0 == u && ms[i].1.NewClient?
  }

  /** A step that adds a player only with `NewClient` and removes none. */
  ghost predicate KeepsPlayers(step: StepFn)
  {
    forall cs, uuid, msg :: step(cs, uuid, msg).Keys == cs.Keys + (if msg.NewClient? then {uuid} else {})
  }

  lemma {:induction false} FoldPlayers(step: StepFn, cs: Clients, ms: seq<Message>, u: Uuid)
    requires KeepsPlayers(step)
    ensures u in Fold(step, cs, ms) <==> u in cs || Announced(ms, u)
    decreases |ms|
  {
    if ms != [] {
      var init, last := ms[..|ms| - 1], ms[|ms| - 1];
      FoldPlayers(step, cs, init, u);
      if Announced(ms, u) && !Announced(init, u) {
        var i :| 0 <= i < |ms| && ms[i].0 == u && ms[i].1.NewClient?;
        assert i == |ms| - 1;
      }
      if Announced(init, u) {
        var i :| 0 <= i < |init| && init[i].0 == u && init[i].1.NewClient?;
        assert ms[i] == init[i];
      }
    }
  }

  /** Players enter the game only with a `NewClient` message and never
      leave it. */
  lemma RunPlayers(cs: Clients, ms: seq<Message>, u: Uuid)
    ensures u in Run(cs, ms) <==> u in cs || Announced(ms, u)
  {
    forall c, uuid, msg ensures Step(c, uuid, msg).Keys == c.Keys + (if msg.NewClient? then {uuid} else {}) {
      StepPlayers(c, uuid, msg);
    }
    FoldPlayers(Step, cs, ms, u);
  }

  /** A player who joins with an open queue is sent the join packets and
      may confirm the teleport once; confirming it again gets them kicked
      with the error, since nothing is pending any more. */
  lemma ConfirmOnce(cs: Clients, uuid: Uuid, name: seq<byte>)
    ensures var cs1 := Step(cs, uuid, NewClient(name, true));
            var cs2 := Step(cs1, uuid, VerifyTeleport(TELEPORT_ID));
            var cs3 := Step(cs2, uuid, VerifyTeleport(TELEPORT_ID));
            && cs2[uuid] == Client(name, None, JoinPackets(), true)
            && cs3[uuid] == Client(name, None, JoinPackets() + [DisconnectOut(IncorrectTeleportConfirm(None, TELEPORT_ID))], true)
  {
    StepJoins(cs, uuid, name, true);
    var cs1 := Step(cs, uuid, NewClient(name, true));
    StepConfirms(cs1, uuid, TELEPORT_ID);
    var cs2 := Step(cs1, uuid, VerifyTeleport(TELEPORT_ID));
    StepConfirms(cs2, uuid, TELEPORT_ID);
  }

  /** The game's state: every player in it, by UUID. */
  class Game {
    var clients: Clients

    /** `Game::new`: nobody yet. */
    constructor()
      ensures clients == map[]
    {
      clients := map[];
    }

    method SendPacketToClient(uuid: Uuid, packet: Outbound) returns (r: Result<()>)
      modifies this
      ensures (r, clients) == Send(old(clients), uuid, packet)
    {
      var c :- Lookup(clients, uuid);
      if !c.open {
        return Err(ChannelClosed);
      }
      clients := clients[uuid := c.(outgoing := c.outgoing + [packet])];
      r := Ok(());
    }

    method SetTeleportId(uuid: Uuid, id: i32) returns (r: Result<()>)
      modifies this
      ensures (r, clients) == SetTeleport(old(clients), uuid, id)
    {
      var c :- Lookup(clients, uuid);
      clients := clients[uuid := c.(nextTeleportId := Some(id))];
      r := Ok(());
    }

    method CheckTeleportId(uuid: Uuid, confirmed: i32) returns (r: Result<()>)
      modifies this
      ensures (r, clients) == CheckTeleport(old(clients), uuid, confirmed)
    {
      var c :- Lookup(clients, uuid);
      var pending := c.nextTeleportId;
      clients := clients[uuid := c.(nextTeleportId := None)];
      if pending == Some(confirmed) {
        r := Ok(());
      } else {
        r := Err(IncorrectTeleportConfirm(pending, confirmed));
      }
    }

    method KickWithError(uuid: Uuid, e: Error)
      modifies this
      ensures clients == Kick(old(clients), uuid, e)
    {
      var _ := SendPacketToClient(uuid, DisconnectOut(e));
    }

    /** The `send!` steps of `on_player_joined`: each packet in turn,
        stopping at the first error. */
    method SendEach(uuid: Uuid, ps: seq<Outbound>) returns (r: Result<()>)
      modifies this
      ensures (r, clients) == SendAll(old(clients), uuid, ps)
    {
      var i := 0;
      while i < |ps|
        invariant 0 <= i <= |ps|
        invariant (Ok(()), clients) == SendAll(old(clients), uuid, ps[..i])
      {
        assert ps[..i + 1] == ps[..i] + [ps[i]];
        SendAllStep(old(clients), uuid, ps[..i], ps[i]);
        var sent := SendPacketToClient(uuid, ps[i]);
        if sent.Err? {
          return sent;
        }
        i := i + 1;
      }
      assert ps[..i] == ps;
      r := Ok(());
    }

    method OnPlayerJoined(uuid: Uuid) returns (r: Result<()>)
      modifies this
      ensures (r, clients) == Joined(old(clients), uuid)
    {
      r := SendEach(uuid, JoinPackets());
      if r.Err? {
        return;
      }
      r := SetTeleportId(uuid, TELEPORT_ID);
    }

    /** The body of the message loop. */
    method HandleMessage(uuid: Uuid, msg: ClientMessage)
      modifies this
      ensures clients == Step(old(clients), uuid, msg)
    {
      var result: Result<()> := Ok(());
      match msg {
        case NewClient(name, open) =>
          clients := clients[uuid := NewClientOf(name, open)];
          result := OnPlayerJoined(uuid);
        case VerifyTeleport(id) =>
          result := CheckTeleportId(uuid, id);
        case _ =>
      }
      if result.Err? {
        KickWithError(uuid, result.error);
      }
    }

    /** `run`: the messages handled one at a time, in the order they
        arrive. */
    method RunMessages(ms: seq<Message>)
      modifies this
      ensures clients == Run(old(clients), ms)
    {
      var i := 0;
      while i < |ms|
        invariant 0 <= i <= |ms|
        invariant clients == Run(old(clients), ms[..i])
      {
        assert ms[..i + 1][..i] == ms[..i];
        HandleMessage(ms[i].0, ms[i].1);
        i := i + 1;
      }
      assert ms[..|ms|] == ms;
    }
  }
}
