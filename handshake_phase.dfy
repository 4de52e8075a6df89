/** `HandshakeState::handle_transaction` (mc/src/connection/handshake.rs):
    the packet is read as a `Handshake`, and since the arms for the
    status and login states are commented out, every next state is
    refused. */
module HandshakePhase {
  import opened Base
  import opened PacketCodec
  import Fields
  import Packets
  import opened States

  function Handle(packet: PacketBody): (t: Transaction)
    ensures t.result.Err? && t.written == [] && t.sent == []
    ensures Packets.ReadHandshake(packet).Err? ==> t.result.error == Packets.ReadHandshake(packet).error
    ensures Packets.ReadHandshake(packet).Ok? ==>
      t.result.error == BadNextState(Packets.ReadHandshake(packet).value.nextState.value)
  {
    match Packets.ReadHandshake(packet)
    case Err(e) => Fail(e)
    case Ok(handshake) => Fail(BadNextState(handshake.nextState.value))
  }

  /** A client's handshake, whatever state it asks for, is answered with
      `BadNextState` of that state. */
  lemma EveryNextStateRefused(p: Packets.Handshake)
    requires Packets.HandshakeValid(p)
    ensures AllValid(Fields.Impl, Packets.HandshakeValues(p))
    ensures Handle(PacketBody(0x00, EncodeBody(Packets.HandshakeValues(p)))) == Fail(BadNextState(p.nextState.value))
  {
    Packets.HandshakeRoundTrip(p);
  }

  /** A packet with another ID gives `UnexpectedPacket`. */
  lemma OtherIdUnexpected(id: i32, body: seq<byte>)
    requires id != 0x00
    ensures Handle(PacketBody(id, body)) == Fail(UnexpectedPacket(0x00, id))
  {
    Packets.HandshakeWrongId(id, body);
  }
}
