/** `PlayState::handle_transaction` (mc/src/connection/play.rs). The play
    packets' IDs and their generated readers belong to a crate that is not
    part of this model, so they are inputs: one ID and one reader per
    packet the handler knows. */
module PlayPhase {
  import opened Base
  import SF = StringField
  import opened States

  /** The `ID` constants the handler matches, in the order of its arms. */
  datatype PlayIds = PlayIds(
    settings: i32,
    customPayload: i32,
    teleportConfirm: i32,
    positionLook: i32,
    keepAlive: i32)

  /** A plugin message: its channel identifier, split, and its data. */
  datatype CustomPayload = CustomPayload(namespace: seq<byte>, location: seq<byte>, data: seq<byte>)

  /** Each packet's `read_packet`, reduced to what the handler uses: the
      teleport ID and the keep-alive ID. */
  datatype PlayReaders = PlayReaders(
    settings: PacketBody -> Result<()>,
    customPayload: PacketBody -> Result<CustomPayload>,
    teleportConfirm: PacketBody -> Result<i32>,
    positionLook: PacketBody -> Result<()>,
    keepAlive: PacketBody -> Result<int>)

  /** The channel `minecraft:brand`, whose data must be a string. */
  predicate IsBrand(p: CustomPayload)
  {
    p.namespace == Ascii("minecraft") && p.location == Ascii("brand")
  }

  /** The plugin message arm: the brand channel's data is read as a
      string field, whose error propagates; any other channel is fine. */
  function CheckPayload(p: CustomPayload): (r: Result<()>)
    ensures r.Err? <==> IsBrand(p) && SF.Read(p.data).Err?
    ensures r.Err? ==> r.error == SF.Read(p.data).error
  {
    if IsBrand(p) then
      match SF.Read(p.data)
      case Err(e) => Err(e)
      case Ok(_) => Ok(())
    else
      Ok(())
  }

  /** `handle_transaction` in the play phase: one arm per known ID, in
      order, each reading its packet; confirmations and keep-alives are
      forwarded to the game; every success stays in the same play state. */
  function Handle(self: ActiveState, packet: PacketBody, ids: PlayIds, readers: PlayReaders, ch: Channels)
    : (t: Transaction)
    requires self.PlayState?
    ensures t.written == []
    ensures t.result.Ok? ==> t.result.value == self
    ensures packet.id !in {ids.settings, ids.customPayload, ids.teleportConfirm, ids.positionLook, ids.keepAlive}
      ==> t == Fail(BadPacketId(packet.id))
    ensures |t.sent| <= 1
    ensures |t.sent| == 1 ==> t.sent[0].0 == self.uuid && t.result.Ok?
    ensures |t.sent| == 1 && t.sent[0].1.VerifyTeleport? ==>
      && packet.id == ids.teleportConfirm
      && readers.teleportConfirm(packet) == Ok(t.sent[0].1.teleportId)
    ensures |t.sent| == 1 && !t.sent[0].1.VerifyTeleport? ==>
      && t.sent[0].1.VerifyKeepAlive?
      && packet.id == ids.keepAlive
      && readers.keepAlive(packet) == Ok(t.sent[0].1.keepAliveId)
  {
    if packet.id == ids.settings then
      match readers.settings(packet)
      case Err(e) => Fail(e)
      case Ok(_) => Transaction(Ok(self), [], [])
    else if packet.id == ids.customPayload then
      match readers.customPayload(packet)
      case Err(e) => Fail(e)
      case Ok(p) =>
        match CheckPayload(p)
        case Err(e) => Fail(e)
        case Ok(_) => Transaction(Ok(self), [], [])
    else if packet.id == ids.teleportConfirm then
      match readers.teleportConfirm(packet)
      case Err(e) => Fail(e)
      case Ok(id) => SendThen(ch, (self.uuid, VerifyTeleport(id)), Ok(self))
    else if packet.id == ids.positionLook then
      match readers.positionLook(packet)
      case Err(e) => Fail(e)
      case Ok(_) => Transaction(Ok(self), [], [])
    else if packet.id == ids.keepAlive then
      match readers.keepAlive(packet)
      case Err(e) => Fail(e)
      case Ok(id) => SendThen(ch, (self.uuid, VerifyKeepAlive(id)), Ok(self))
    else
      Fail(BadPacketId(packet.id))
  }

  /** `id` reaches the `TeleportConfirm` arm: the arms before it do not
      match it. */
  predicate ReachesTeleportConfirm(ids: PlayIds, id: i32)
  {
    id == ids.teleportConfirm && id != ids.settings && id != ids.customPayload
  }

  /** A teleport confirmation is forwarded to the game as
      `VerifyTeleport` from this player, or fails with `ChannelClosed`
      when the game's channel is closed. */
  lemma TeleportForwarded(self: ActiveState, packet: PacketBody, ids: PlayIds, readers: PlayReaders, ch: Channels)
    requires self.PlayState? && ReachesTeleportConfirm(ids, packet.id)
    requires readers.teleportConfirm(packet).Ok?
    ensures ch.sendOk ==>
      Handle(self, packet, ids, readers, ch)
        == Transaction(Ok(self), [], [(self.uuid, VerifyTeleport(readers.teleportConfirm(packet).value))])
    ensures !ch.sendOk ==> Handle(self, packet, ids, readers, ch) == Fail(ChannelClosed)
  {
  }
}
