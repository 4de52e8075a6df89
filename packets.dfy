/** The packet types of mc/src/packet/: each one's `#[packet_id]` and
    field list, as a descriptor for the generated read and write code,
    with a typed record per packet and its conversion to and from the
    field values that code reads and writes. */
module Packets {
  import opened Base
  import Numeric
  import VarInt
  import SF = StringField
  import BA = ByteArray
  import Position
  import opened Fields
  import opened PacketCodec

  // ---------------------------------------------------------------------
  // Descriptors

  const HANDSHAKE: Descriptor :=
    Descriptor(0x00, [VarIntKind, StringKind, IntegerKind(Numeric.UShort), VarIntKind])

  const EMPTY: Descriptor := Descriptor(0x00, [])
  const PING: Descriptor := Descriptor(0x01, [IntegerKind(Numeric.Long)])
  const STATUS_RESPONSE: Descriptor := Descriptor(0x00, [StringKind])
  const PONG: Descriptor := Descriptor(0x01, [IntegerKind(Numeric.Long)])

  const LOGIN_START: Descriptor := Descriptor(0x00, [StringKind])
  const DISCONNECT_LOGIN: Descriptor := Descriptor(0x00, [ChatKind])
  const ENCRYPTION_REQUEST: Descriptor := Descriptor(0x01, [StringKind, ByteArrayKind, ByteArrayKind])
  const ENCRYPTION_RESPONSE: Descriptor := Descriptor(0x01, [ByteArrayKind, ByteArrayKind])
  const LOGIN_SUCCESS: Descriptor := Descriptor(0x02, [StringKind, StringKind])

  const JOIN_GAME: Descriptor :=
    Descriptor(0x26, [IntegerKind(Numeric.Int), IntegerKind(Numeric.UByte), IntegerKind(Numeric.Int),
                      IntegerKind(Numeric.Long), IntegerKind(Numeric.UByte), StringKind, VarIntKind,
                      BoolKind, BoolKind])

  /** The packets each phase reads from the client and writes to it. */
  const STATUS_SERVER_BOUND: seq<Descriptor> := [EMPTY, PING]
  const STATUS_CLIENT_BOUND: seq<Descriptor> := [STATUS_RESPONSE, PONG]
  const LOGIN_SERVER_BOUND: seq<Descriptor> := [LOGIN_START, ENCRYPTION_RESPONSE]
  const LOGIN_CLIENT_BOUND: seq<Descriptor> := [DISCONNECT_LOGIN, ENCRYPTION_REQUEST, LOGIN_SUCCESS]

  predicate DistinctIds(ds: seq<Descriptor>)
  {
    forall i, j :: 0 <= i < j < |ds| ==> ds[i].id != ds[j].id
  }

  /** Within one phase and direction a packet ID names one packet type;
      the same IDs are used in both directions. */
  lemma IdsDistinct()
    ensures DistinctIds(STATUS_SERVER_BOUND) && DistinctIds(STATUS_CLIENT_BOUND)
    ensures DistinctIds(LOGIN_SERVER_BOUND) && DistinctIds(LOGIN_CLIENT_BOUND)
    ensures EMPTY.id == STATUS_RESPONSE.id && PING.id == PONG.id
    ensures LOGIN_START.id == DISCONNECT_LOGIN.id && ENCRYPTION_RESPONSE.id == ENCRYPTION_REQUEST.id
  {
  }

  // ---------------------------------------------------------------------
  // Server-bound packets: the struct, its fields as values, and
  // `read_packet`

  datatype Handshake = Handshake(
    protocolVersion: VarInt.VarIntField,
    serverAddress: SF.StringField,
    serverPort: int,
    nextState: VarInt.VarIntField)

  function HandshakeValues(p: Handshake): seq<FieldValue>
  {
    [VarIntValue(p.protocolVersion), StringValue(p.serverAddress),
     IntegerValue(Numeric.UShort, p.serverPort), VarIntValue(p.nextState)]
  }

  predicate HandshakeValid(p: Handshake)
  {
    && VarInt.Valid(p.protocolVersion) && SF.Valid(p.serverAddress)
    && Numeric.InRange(Numeric.UShort, p.serverPort) && VarInt.Valid(p.nextState)
  }

  function HandshakeOf(vals: seq<FieldValue>): (p: Handshake)
    requires Matches(Impl, HANDSHAKE.fields, vals)
    ensures HandshakeValues(p) == vals && HandshakeValid(p)
  {
    MatchesAt(Impl, HANDSHAKE.fields, vals, 0);
    MatchesAt(Impl, HANDSHAKE.fields, vals, 1);
    MatchesAt(Impl, HANDSHAKE.fields, vals, 2);
    MatchesAt(Impl, HANDSHAKE.fields, vals, 3);
    Handshake(vals[0].varint, vals[1].str, vals[2].n, vals[3].varint)
  }

  /** `Handshake::read_packet`. */
  function ReadHandshake(body: PacketBody): (r: Result<Handshake>)
    ensures r.Ok? ==> Decode(HANDSHAKE, body) == Ok(HandshakeValues(r.value)) && HandshakeValid(r.value)
    ensures r.Err? ==> Decode(HANDSHAKE, body) == Err(r.error)
  {
    var vals :- Decode(HANDSHAKE, body);
    Ok(HandshakeOf(vals))
  }

  /** `Empty::read_packet`: no fields. */
  function ReadEmpty(body: PacketBody): (r: Result<()>)
    ensures r.Ok? ==> Decode(EMPTY, body) == Ok([])
    ensures r.Err? ==> Decode(EMPTY, body) == Err(r.error)
  {
    var vals :- Decode(EMPTY, body);
    Ok(())
  }

  datatype Ping = Ping(payload: int)

  function PingValues(p: Ping): seq<FieldValue>
  {
    [IntegerValue(Numeric.Long, p.payload)]
  }

  predicate PingValid(p: Ping)
  {
    Numeric.InRange(Numeric.Long, p.payload)
  }

  function PingOf(vals: seq<FieldValue>): (p: Ping)
    requires Matches(Impl, PING.fields, vals)
    ensures PingValues(p) == vals && PingValid(p)
  {
    MatchesAt(Impl, PING.fields, vals, 0);
    Ping(vals[0].n)
  }

  function ReadPing(body: PacketBody): (r: Result<Ping>)
    ensures r.Ok? ==> Decode(PING, body) == Ok(PingValues(r.value)) && PingValid(r.value)
    ensures r.Err? ==> Decode(PING, body) == Err(r.error)
  {
    var vals :- Decode(PING, body);
    Ok(PingOf(vals))
  }

  datatype LoginStart = LoginStart(name: SF.StringField)

  function LoginStartValues(p: LoginStart): seq<FieldValue>
  {
    [StringValue(p.name)]
  }

  predicate LoginStartValid(p: LoginStart)
  {
    SF.Valid(p.name)
  }

  function LoginStartOf(vals: seq<FieldValue>): (p: LoginStart)
    requires Matches(Impl, LOGIN_START.fields, vals)
    ensures LoginStartValues(p) == vals && LoginStartValid(p)
  {
    MatchesAt(Impl, LOGIN_START.fields, vals, 0);
    LoginStart(vals[0].str)
  }

  function ReadLoginStart(body: PacketBody): (r: Result<LoginStart>)
    ensures r.Ok? ==> Decode(LOGIN_START, body) == Ok(LoginStartValues(r.value)) && LoginStartValid(r.value)
    ensures r.Err? ==> Decode(LOGIN_START, body) == Err(r.error)
  {
    var vals :- Decode(LOGIN_START, body);
    Ok(LoginStartOf(vals))
  }

  datatype EncryptionResponse = EncryptionResponse(sharedSecret: BA.ByteArrayField, verifyToken: BA.ByteArrayField)

  function EncryptionResponseValues(p: EncryptionResponse): seq<FieldValue>
  {
    [ByteArrayValue(p.sharedSecret), ByteArrayValue(p.verifyToken)]
  }

  predicate EncryptionResponseValid(p: EncryptionResponse)
  {
    BA.Valid(p.sharedSecret) && BA.Valid(p.verifyToken)
  }

  function EncryptionResponseOf(vals: seq<FieldValue>): (p: EncryptionResponse)
    requires Matches(Impl, ENCRYPTION_RESPONSE.fields, vals)
    ensures EncryptionResponseValues(p) == vals && EncryptionResponseValid(p)
  {
    MatchesAt(Impl, ENCRYPTION_RESPONSE.fields, vals, 0);
    MatchesAt(Impl, ENCRYPTION_RESPONSE.fields, vals, 1);
    EncryptionResponse(vals[0].bytes, vals[1].bytes)
  }

  function ReadEncryptionResponse(body: PacketBody): (r: Result<EncryptionResponse>)
    ensures r.Ok? ==> Decode(ENCRYPTION_RESPONSE, body) == Ok(EncryptionResponseValues(r.value)) && EncryptionResponseValid(r.value)
    ensures r.Err? ==> Decode(ENCRYPTION_RESPONSE, body) == Err(r.error)
  {
    var vals :- Decode(ENCRYPTION_RESPONSE, body);
    Ok(EncryptionResponseOf(vals))
  }

  // ---------------------------------------------------------------------
  // Client-bound packets: the struct and its fields as values for
  // `write_packet`

  datatype StatusResponse = StatusResponse(jsonResponse: SF.StringField)

  function StatusResponseValues(p: StatusResponse): seq<FieldValue>
  {
    [StringValue(p.jsonResponse)]
  }

  predicate StatusResponseValid(p: StatusResponse)
  {
    SF.Valid(p.jsonResponse)
  }

  datatype Pong = Pong(payload: int)

  function PongValues(p: Pong): seq<FieldValue>
  {
    [IntegerValue(Numeric.Long, p.payload)]
  }

  predicate PongValid(p: Pong)
  {
    Numeric.InRange(Numeric.Long, p.payload)
  }

  datatype DisconnectLogin = DisconnectLogin(reason: SF.ChatField)

  function DisconnectLoginValues(p: DisconnectLogin): seq<FieldValue>
  {
    [ChatValue(p.reason)]
  }

  predicate DisconnectLoginValid(p: DisconnectLogin)
  {
    SF.Valid(p.reason.inner)
  }

  datatype EncryptionRequest = EncryptionRequest(
    serverId: SF.StringField,
    pubKey: BA.ByteArrayField,
    verifyToken: BA.ByteArrayField)

  function EncryptionRequestValues(p: EncryptionRequest): seq<FieldValue>
  {
    [StringValue(p.serverId), ByteArrayValue(p.pubKey), ByteArrayValue(p.verifyToken)]
  }

  predicate EncryptionRequestValid(p: EncryptionRequest)
  {
    SF.Valid(p.serverId) && BA.Valid(p.pubKey) && BA.Valid(p.verifyToken)
  }

  datatype LoginSuccess = LoginSuccess(uuid: SF.StringField, username: SF.StringField)

  function LoginSuccessValues(p: LoginSuccess): seq<FieldValue>
  {
    [StringValue(p.uuid), StringValue(p.username)]
  }

  predicate LoginSuccessValid(p: LoginSuccess)
  {
    SF.Valid(p.uuid) && SF.Valid(p.username)
  }

  datatype JoinGame = JoinGame(
    entityId: int,
    gamemode: int,
    dimension: int,
    hashedSeed: int,
    maxPlayers: int,
    levelType: SF.StringField,
    viewDistance: VarInt.VarIntField,
    reducedDebugInfo: bool,
    enableRespawnScreen: bool)

  function JoinGameValues(p: JoinGame): seq<FieldValue>
  {
    [IntegerValue(Numeric.Int, p.entityId), IntegerValue(Numeric.UByte, p.gamemode),
     IntegerValue(Numeric.Int, p.dimension), IntegerValue(Numeric.Long, p.hashedSeed),
     IntegerValue(Numeric.UByte, p.maxPlayers), StringValue(p.levelType),
     VarIntValue(p.viewDistance), BoolValue(p.reducedDebugInfo), BoolValue(p.enableRespawnScreen)]
  }

  predicate JoinGameValid(p: JoinGame)
  {
    && Numeric.InRange(Numeric.Int, p.entityId) && Numeric.InRange(Numeric.UByte, p.gamemode)
    && Numeric.InRange(Numeric.Int, p.dimension) && Numeric.InRange(Numeric.Long, p.hashedSeed)
    && Numeric.InRange(Numeric.UByte, p.maxPlayers) && SF.Valid(p.levelType)
    && VarInt.Valid(p.viewDistance)
  }

  // ---------------------------------------------------------------------
  // Properties of the descriptors

  /** A Handshake body holds exactly its four fields back to back and
      reads back as the packet. */
  lemma HandshakeRoundTrip(p: Handshake)
    requires HandshakeValid(p)
    ensures AllValid(Impl, HandshakeValues(p))
    ensures ReadHandshake(PacketBody(0x00, EncodeBody(HandshakeValues(p)))) == Ok(p)
  {
    var vals := HandshakeValues(p);
    MatchesPointwise(Impl, HANDSHAKE.fields, vals);
    RoundTrip(HANDSHAKE, vals);
    var q := HandshakeOf(vals);
    assert HandshakeValues(q)[0] == vals[0] && HandshakeValues(q)[1] == vals[1];
    assert HandshakeValues(q)[2] == vals[2] && HandshakeValues(q)[3] == vals[3];
  }

  /** Any ID but 0x00 fails with `UnexpectedPacket`, whatever the body. */
  lemma HandshakeWrongId(id: i32, body: seq<byte>)
    requires id != 0x00
    ensures ReadHandshake(PacketBody(id, body)) == Err(UnexpectedPacket(0x00, id))
  {
  }

  lemma HandshakeSize(p: Handshake)
    requires HandshakeValid(p)
    ensures AllValid(Impl, HandshakeValues(p))
    ensures BodySize(HandshakeValues(p)) ==
      VarInt.Size(p.protocolVersion) + SF.Size(p.serverAddress) + 2 + VarInt.Size(p.nextState)
  {
    ImplCallable();
    var a, b, c, d := VarIntValue(p.protocolVersion), StringValue(p.serverAddress),
      IntegerValue(Numeric.UShort, p.serverPort), VarIntValue(p.nextState);
    var t3 := [d] + [];
    var t2 := [c] + t3;
    var t1 := [b] + t2;
    var t0 := [a] + t1;
    assert HandshakeValues(p) == t0;
    FieldsCons(Impl, d, []);
    FieldsCons(Impl, c, t3);
    FieldsCons(Impl, b, t2);
    FieldsCons(Impl, a, t1);
  }

  /** A `LoginStart` body reads back as the packet. */
  lemma LoginStartRoundTrip(p: LoginStart)
    requires LoginStartValid(p)
    ensures AllValid(Impl, LoginStartValues(p))
    ensures ReadLoginStart(PacketBody(0x00, EncodeBody(LoginStartValues(p)))) == Ok(p)
  {
    var vals := LoginStartValues(p);
    MatchesPointwise(Impl, LOGIN_START.fields, vals);
    RoundTrip(LOGIN_START, vals);
    var q := LoginStartOf(vals);
    assert LoginStartValues(q)[0] == vals[0];
  }

  /** An `EncryptionResponse` body reads back as the packet. */
  lemma EncryptionResponseRoundTrip(p: EncryptionResponse)
    requires EncryptionResponseValid(p)
    ensures AllValid(Impl, EncryptionResponseValues(p))
    ensures ReadEncryptionResponse(PacketBody(0x01, EncodeBody(EncryptionResponseValues(p)))) == Ok(p)
  {
    var vals := EncryptionResponseValues(p);
    MatchesPointwise(Impl, ENCRYPTION_RESPONSE.fields, vals);
    RoundTrip(ENCRYPTION_RESPONSE, vals);
    var q := EncryptionResponseOf(vals);
    assert EncryptionResponseValues(q)[0] == vals[0] && EncryptionResponseValues(q)[1] == vals[1];
  }

  /** `Empty` reads only from an empty body. */
  lemma EmptyOnlyEmpty(body: seq<byte>)
    ensures ReadEmpty(PacketBody(0x00, body)).Ok? <==> body == []
    ensures body != [] ==> ReadEmpty(PacketBody(0x00, body)) == Err(FullPacketNotRead(|body|, 0))
  {
    ImplLawful();
    assert DecodeFields(Impl, EMPTY.fields, body) == Ok(Parsed([], body));
  }

  /** A `Ping` body is exactly the 8 big-endian bytes of its payload. */
  lemma PingBodyIsEightBytes(body: seq<byte>)
    ensures ReadPing(PacketBody(0x01, body)).Ok? <==> |body| == 8
    ensures ReadPing(PacketBody(0x01, body)).Ok? ==>
      ReadPing(PacketBody(0x01, body)).value.payload == Numeric.Decode(Numeric.Long, body).value.value
  {
    ImplLawful();
    var d := Numeric.Decode(Numeric.Long, body);
    Numeric.Sizes();
    assert Impl(PING.fields[0]).read(body) == ReadInteger(Numeric.Long, body);
    assert PING.fields[1..] == [];
    if |body| >= 8 {
      assert ReadInteger(Numeric.Long, body) == Ok(Parsed(IntegerValue(Numeric.Long, d.value.value), body[8..]));
      assert DecodeFields(Impl, [], body[8..]) == Ok(Parsed([], body[8..]));
      assert [IntegerValue(Numeric.Long, d.value.value)] + [] == [IntegerValue(Numeric.Long, d.value.value)];
      assert DecodeFields(Impl, PING.fields, body) ==
        Ok(Parsed([IntegerValue(Numeric.Long, d.value.value)], body[8..]));
    } else {
      assert DecodeFields(Impl, PING.fields, body) == Err(Io);
    }
  }

  /** `Pong::write_packet`. */
  function WritePong(p: Pong): seq<byte>
    requires PongValid(p)
  {
    MatchesPointwise(Impl, PONG.fields, PongValues(p));
    MatchesAllValid(Impl, PONG.fields, PongValues(p));
    Encode(PONG.id, PongValues(p))
  }

  /** The `Pong` built from a `Ping`'s payload carries the ping's 8 body
      bytes unchanged: its frame is the length 9, the ID 1 and those
      bytes. */
  lemma PongEchoesPing(body: seq<byte>)
    requires ReadPing(PacketBody(0x01, body)).Ok?
    ensures PongValid(Pong(ReadPing(PacketBody(0x01, body)).value.payload))
    ensures WritePong(Pong(ReadPing(PacketBody(0x01, body)).value.payload)) == [9, 1] + body
  {
    PingBodyIsEightBytes(body);
    var x := ReadPing(PacketBody(0x01, body)).value.payload;
    Numeric.EncodeDecoded(Numeric.Long, body);
    assert Numeric.Encode(Numeric.Long, x) == body;
    var vals := PongValues(Pong(x));
    MatchesPointwise(Impl, PONG.fields, vals);
    MatchesAllValid(Impl, PONG.fields, vals);
    ImplCallable();
    FieldsCons(Impl, vals[0], []);
    assert vals == [vals[0]] + [];
    assert EncodeBody(vals) == body;
    Framed(PONG.id, vals);
    VarInt.SmallEncode(9);
    VarInt.SmallEncode(1);
  }

  /** `JoinGame`'s fields take 4 + 1 + 4 + 8 + 1 + the string's size +
      the VarInt's size + 1 + 1 bytes, and its length prefix counts one
      more for the ID 0x26. */
  lemma JoinGameLength(p: JoinGame)
    requires JoinGameValid(p)
    ensures AllValid(Impl, JoinGameValues(p))
    ensures BodySize(JoinGameValues(p)) ==
      4 + 1 + 4 + 8 + 1 + SF.Size(p.levelType) + VarInt.Size(p.viewDistance) + 1 + 1
    ensures |VarInt.Encode(JOIN_GAME.id) + EncodeBody(JoinGameValues(p))| == 1 + BodySize(JoinGameValues(p))
  {
    ImplCallable();
    var vals := JoinGameValues(p);
    var head, tail := vals[..5], vals[5..];
    assert vals == head + tail;
    JoinGameHead(p);
    JoinGameTail(p);
    FieldsAppend(Impl, head, tail);
    VarInt.SmallEncode(0x26);
  }

  lemma JoinGameHead(p: JoinGame)
    requires JoinGameValid(p)
    ensures Callable(Impl) && AllValid(Impl, JoinGameValues(p)[..5])
    ensures FieldsSize(Impl, JoinGameValues(p)[..5]) == 4 + 1 + 4 + 8 + 1
  {
    ImplCallable();
    Numeric.Sizes();
    var vals := JoinGameValues(p);
    var t4 := [vals[4]] + [];
    var t3 := [vals[3]] + t4;
    var t2 := [vals[2]] + t3;
    var t1 := [vals[1]] + t2;
    var t0 := [vals[0]] + t1;
    assert vals[..5] == t0;
    FieldsCons(Impl, vals[4], []);
    FieldsCons(Impl, vals[3], t4);
    FieldsCons(Impl, vals[2], t3);
    FieldsCons(Impl, vals[1], t2);
    FieldsCons(Impl, vals[0], t1);
  }

  lemma JoinGameTail(p: JoinGame)
    requires JoinGameValid(p)
    ensures Callable(Impl) && AllValid(Impl, JoinGameValues(p)[5..])
    ensures FieldsSize(Impl, JoinGameValues(p)[5..]) == SF.Size(p.levelType) + VarInt.Size(p.viewDistance) + 1 + 1
  {
    ImplCallable();
    var vals := JoinGameValues(p);
    var t8 := [vals[8]] + [];
    var t7 := [vals[7]] + t8;
    var t6 := [vals[6]] + t7;
    var t5 := [vals[5]] + t6;
    assert vals[5..] == t5;
    FieldsCons(Impl, vals[8], []);
    FieldsCons(Impl, vals[7], t8);
    FieldsCons(Impl, vals[6], t7);
    FieldsCons(Impl, vals[5], t6);
  }

  /** As written, an `EncryptionRequest`'s length prefix falls short of
      the bytes that follow it by the sizes of the two arrays' count
      prefixes. */
  lemma EncryptionRequestLengthShort(p: EncryptionRequest)
    requires EncryptionRequestValid(p)
    ensures AllValid(Impl, EncryptionRequestValues(p))
    ensures Callable(ImplAsWritten) && AllValid(ImplAsWritten, EncryptionRequestValues(p))
    ensures Length(ImplAsWritten, ENCRYPTION_REQUEST.id, EncryptionRequestValues(p)) ==
      |VarInt.Encode(ENCRYPTION_REQUEST.id) + EncodeBody(EncryptionRequestValues(p))|
      - VarInt.Size(p.pubKey.length) - VarInt.Size(p.verifyToken.length)
  {
    ImplCallable();
    AsWrittenUndercounts();
    var vals := EncryptionRequestValues(p);
    var t2 := [vals[2]] + [];
    var t1 := [vals[1]] + t2;
    var t0 := [vals[0]] + t1;
    assert vals == t0;
    FieldsCons(Impl, vals[2], []);
    FieldsCons(Impl, vals[1], t2);
    FieldsCons(Impl, vals[0], t1);
    FieldsCons(ImplAsWritten, vals[2], []);
    FieldsCons(ImplAsWritten, vals[1], t2);
    FieldsCons(ImplAsWritten, vals[0], t1);
    BA.SizeAsWrittenShort(p.pubKey);
    BA.SizeAsWrittenShort(p.verifyToken);
    VarInt.SmallEncode(0x01);
  }
}
