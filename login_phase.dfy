/** `LoginState::handle_transaction` and `into_play_state`
    (mc/src/connection/login.rs): offline logins go straight to the play
    phase; online logins first send an encryption request and wait for
    the response that proves the client holds the verify token. */
module LoginPhase {
  import opened Base
  import opened Utf8
  import SF = StringField
  import BA = ByteArray
  import Fields
  import PacketCodec
  import Packets
  import UuidText
  import opened States

  /** `OnlineStatus`: whether players are authenticated, and the server's
      public key (DER) when they are. */
  datatype OnlineStatus = OnlineMode(publicKey: seq<byte>) | OfflineMode

  /** What the handler asks of the server and of the system, as inputs:
      `ServerData::online_status`, `generate_verify_token`,
      `ServerData::decrypt` (RSA with PKCS#1 padding) and `Uuid::new_v4`. */
  datatype Server = Server(
    onlineStatus: Result<OnlineStatus>,
    verifyToken: Result<seq<byte>>,
    decrypt: seq<byte> -> Result<seq<byte>>,
    newUuid: Uuid)

  /** A public key fits a byte array field, and a generated verify token
      is two random bytes. */
  predicate ServerValid(server: Server)
  {
    && (server.onlineStatus.Ok? && server.onlineStatus.value.OnlineMode? ==>
          |server.onlineStatus.value.publicKey| < TWO_31)
    && (server.verifyToken.Ok? ==> |server.verifyToken.value| == 2)
  }

  /** `into_play_state`: the `LoginSuccess` to send, naming the player and
      their UUID as upper-case hyphenated text, and the play state, whose
      comms are online exactly when a shared secret is given. */
  function IntoPlayState(playerName: seq<byte>, playerUuid: Uuid, sharedSecret: Option<seq<byte>>)
    : (r: (Packets.LoginSuccess, ActiveState))
    requires ValidName(playerName)
    ensures Packets.LoginSuccessValid(r.0)
    ensures SF.Take(r.0.username) == playerName
    ensures SF.Take(r.0.uuid) == UuidText.Hyphenated(playerUuid) && |SF.Take(r.0.uuid)| == 36
    ensures r.1.PlayState? && ValidState(r.1)
    ensures r.1.playerName == playerName && r.1.uuid == playerUuid
    ensures r.1.comms.Online? <==> sharedSecret.Some?
    ensures sharedSecret.Some? ==> r.1.comms.sharedSecret == sharedSecret.value
  {
    var text := UuidText.Hyphenated(playerUuid);
    assert IsAscii(text);
    AsciiValid(text);
    var response := Packets.LoginSuccess(SF.New(text), SF.New(playerName));
    var comms := if sharedSecret.Some? then Online(sharedSecret.value) else Offline;
    (response, PlayState(playerName, playerUuid, comms))
  }

  /** The encryption request of an online login: an empty server ID, the
      public key and the verify token. */
  function Request(publicKey: seq<byte>, verifyToken: seq<byte>): (p: Packets.EncryptionRequest)
    requires |publicKey| < TWO_31 && |verifyToken| < TWO_31
    ensures Packets.EncryptionRequestValid(p)
    ensures SF.Take(p.serverId) == [] && p.pubKey.contents == publicKey && p.verifyToken.contents == verifyToken
  {
    Packets.EncryptionRequest(SF.New([]), BA.New(publicKey), BA.New(verifyToken))
  }

  /** The `LoginStart` arm: offline, enter play as the named player after
      writing `LoginSuccess`; online, write an encryption request with a
      fresh token and wait in the login phase holding name and token. */
  function HandleLoginStart(packet: PacketBody, server: Server, ch: Channels): (t: Transaction)
    requires ServerValid(server)
    ensures t.sent == []
    ensures t.result.Ok? ==> Packets.ReadLoginStart(packet).Ok? && ValidState(t.result.value)
    ensures t.result.Ok? && t.result.value.PlayState? ==>
      && server.onlineStatus == Ok(OfflineMode)
      && t.result.value == PlayState(SF.Take(Packets.ReadLoginStart(packet).value.name), server.newUuid, Offline)
      && t.written == [LoginSuccessOut(IntoPlayState(t.result.value.playerName, server.newUuid, None).0)]
    ensures t.result.Ok? && !t.result.value.PlayState? ==>
      && server.onlineStatus.Ok? && server.onlineStatus.value.OnlineMode? && server.verifyToken.Ok?
      && t.result.value == LoginState(SF.Take(Packets.ReadLoginStart(packet).value.name), server.verifyToken.value)
      && t.written == [EncryptionRequestOut(Request(server.onlineStatus.value.publicKey, server.verifyToken.value))]
  {
    match Packets.ReadLoginStart(packet)
    case Err(e) => Fail(e)
    case Ok(loginStart) =>
      var name := SF.Take(loginStart.name);
      match server.onlineStatus
      case Err(e) => Fail(e)
      case Ok(OfflineMode) =>
        var (response, play) := IntoPlayState(name, server.newUuid, None);
        WriteThen(ch, LoginSuccessOut(response), Ok(play))
      case Ok(OnlineMode(publicKey)) =>
        match server.verifyToken
        case Err(e) => Fail(e)
        case Ok(token) =>
          WriteThen(ch, EncryptionRequestOut(Request(publicKey, token)), Ok(LoginState(name, token)))
  }

  /** The `EncryptionResponse` arm: both fields are decrypted, the token
      first; a token other than the stored one is `VerifyTokenMismatch`,
      and otherwise the stored player enters play, with online comms
      holding the decrypted shared secret, after writing `LoginSuccess`. */
  function HandleEncryptionResponse(playerName: seq<byte>, verifyToken: seq<byte>, packet: PacketBody,
                                    server: Server, ch: Channels): (t: Transaction)
    requires ValidName(playerName)
    ensures t.sent == []
    ensures t.result == Err(VerifyTokenMismatch) ==> t.written == []
    ensures t.result.Ok? ==>
      && Packets.ReadEncryptionResponse(packet).Ok?
      && server.decrypt(Packets.ReadEncryptionResponse(packet).value.verifyToken.contents) == Ok(verifyToken)
      && server.decrypt(Packets.ReadEncryptionResponse(packet).value.sharedSecret.contents).Ok?
      && t.result.value == PlayState(playerName, server.newUuid,
           Online(server.decrypt(Packets.ReadEncryptionResponse(packet).value.sharedSecret.contents).value))
      && ValidState(t.result.value)
      && t.written == [LoginSuccessOut(IntoPlayState(playerName, server.newUuid, Some(t.result.value.comms.sharedSecret)).0)]
  {
    match Packets.ReadEncryptionResponse(packet)
    case Err(e) => Fail(e)
    case Ok(response) =>
      match server.decrypt(response.verifyToken.contents)
      case Err(e) => Fail(e)
      case Ok(decryptedToken) =>
        match server.decrypt(response.sharedSecret.contents)
        case Err(e) => Fail(e)
        case Ok(sharedSecret) =>
          if verifyToken != decryptedToken then
            Fail(VerifyTokenMismatch)
          else
            var (success, play) := IntoPlayState(playerName, server.newUuid, Some(sharedSecret));
            WriteThen(ch, LoginSuccessOut(success), Ok(play))
  }

  /** `handle_transaction` in the login phase, holding `playerName` and
      `verifyToken`: any packet but the two arms' is `BadPacketId`. */
  function Handle(playerName: seq<byte>, verifyToken: seq<byte>, packet: PacketBody, server: Server, ch: Channels)
    : (t: Transaction)
    requires ValidName(playerName) && ServerValid(server)
    ensures t.sent == []
    ensures t.result.Ok? ==> ValidState(t.result.value)
    ensures t.result.Ok? ==> t.result.value.PlayState? || t.result.value.LoginState?
    ensures packet.id == 0x00 ==> t == HandleLoginStart(packet, server, ch)
    ensures packet.id == 0x01 ==> t == HandleEncryptionResponse(playerName, verifyToken, packet, server, ch)
    ensures packet.id != 0x00 && packet.id != 0x01 ==> t == Fail(BadPacketId(packet.id))
    ensures t.result.Ok? && t.result.value.PlayState? ==>
      t.written == [LoginSuccessOut(IntoPlayState(t.result.value.playerName, server.newUuid,
        if t.result.value.comms.Online? then Some(t.result.value.comms.sharedSecret) else None).0)]
  {
    if packet.id == Packets.LOGIN_START.id then
      HandleLoginStart(packet, server, ch)
    else if packet.id == Packets.ENCRYPTION_RESPONSE.id then
      HandleEncryptionResponse(playerName, verifyToken, packet, server, ch)
    else
      Fail(BadPacketId(packet.id))
  }

  /** The `LoginStart` packet a client sends for `name`. */
  function LoginStartBody(name: seq<byte>): (body: PacketBody)
    requires ValidName(name)
  {
    Packets.LoginStartRoundTrip(Packets.LoginStart(SF.New(name)));
    PacketBody(0x00, PacketCodec.EncodeBody(Packets.LoginStartValues(Packets.LoginStart(SF.New(name)))))
  }

  /** The `EncryptionResponse` packet a client sends. */
  function ResponseBody(response: Packets.EncryptionResponse): (body: PacketBody)
    requires Packets.EncryptionResponseValid(response)
  {
    Packets.EncryptionResponseRoundTrip(response);
    PacketBody(0x01, PacketCodec.EncodeBody(Packets.EncryptionResponseValues(response)))
  }

  /** Offline, a `LoginStart` for `name` enters play as `name`, with a
      fresh UUID and offline comms, after writing `LoginSuccess`. */
  lemma OfflineLogin(name: seq<byte>, token: seq<byte>, server: Server, ch: Channels)
    requires ValidName(name) && ServerValid(server)
    requires server.onlineStatus == Ok(OfflineMode) && ch.writeOk
    ensures Handle([], token, LoginStartBody(name), server, ch).result == Ok(PlayState(name, server.newUuid, Offline))
  {
    AsciiValid([]);
    Packets.LoginStartRoundTrip(Packets.LoginStart(SF.New(name)));
  }

  /** Online, the two packets of a login: a `LoginStart` for `name` is
      answered with an encryption request carrying the fresh token, and
      an `EncryptionResponse` whose token decrypts to it enters play as
      `name`, with online comms holding the decrypted shared secret. */
  lemma OnlineLogin(name: seq<byte>, server: Server, response: Packets.EncryptionResponse, ch: Channels)
    requires ValidName(name) && ServerValid(server) && ch.writeOk
    requires server.onlineStatus.Ok? && server.onlineStatus.value.OnlineMode? && server.verifyToken.Ok?
    requires Packets.EncryptionResponseValid(response)
    requires server.decrypt(response.verifyToken.contents) == server.verifyToken
    requires server.decrypt(response.sharedSecret.contents).Ok?
    ensures Handle([], [], LoginStartBody(name), server, ch).result == Ok(LoginState(name, server.verifyToken.value))
    ensures Handle(name, server.verifyToken.value, ResponseBody(response), server, ch).result
      == Ok(PlayState(name, server.newUuid, Online(server.decrypt(response.sharedSecret.contents).value)))
  {
    AsciiValid([]);
    Packets.LoginStartRoundTrip(Packets.LoginStart(SF.New(name)));
    Packets.EncryptionResponseRoundTrip(response);
  }

  /** A response whose token decrypts to anything but the stored token is
      refused with `VerifyTokenMismatch`, and nothing is written. */
  lemma TokenMismatch(name: seq<byte>, token: seq<byte>, server: Server, response: Packets.EncryptionResponse, ch: Channels)
    requires ValidName(name) && ServerValid(server)
    requires Packets.EncryptionResponseValid(response)
    requires server.decrypt(response.verifyToken.contents).Ok?
    requires server.decrypt(response.verifyToken.contents).value != token
    requires server.decrypt(response.sharedSecret.contents).Ok?
    ensures Handle(name, token, ResponseBody(response), server, ch) == Fail(VerifyTokenMismatch)
  {
    Packets.EncryptionResponseRoundTrip(response);
  }
}
