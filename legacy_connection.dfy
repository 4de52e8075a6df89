/** The older `Connection` enum of mc/src/connection.rs, the one the
    frame loop of server/src/main.rs drives. */
module LegacyConnection {
  import opened Base

  datatype Connection = Handshake | Status

  /** What one call of `handle` does: it returns, or it stops the thread
      in a `todo!()` or `unimplemented!()`. */
  datatype Handled = Returned(result: Result<Connection>) | Panicked

  /** `Connection::default()`. */
  const DEFAULT: Connection := Handshake

  /** `Handshake::handle` matches on a `next_state` that is the constant 1,
      not a value read from the packet. */
  const HARD_WIRED_NEXT_STATE: i32 := 1

  /** The `match next_state` of `Handshake::handle`: 1 moves to `Status`,
      2 is `unimplemented!()`, and anything else is `BadNextState`. */
  function NextState(nextState: i32): (h: Handled)
    ensures h == Returned(Ok(Status)) <==> nextState == 1
    ensures h.Panicked? <==> nextState == 2
    ensures h.Returned? && h.result.Err? <==> nextState != 1 && nextState != 2
    ensures h.Returned? && h.result.Err? ==> h.result.error == BadNextState(nextState)
  {
    if nextState == 1 then Returned(Ok(Status))
    else if nextState == 2 then Panicked
    else Returned(Err(BadNextState(nextState)))
  }

  /** `Handshake::handle`: the packet is not looked at. */
  function HandshakeHandle(packet: PacketBody): (h: Handled)
    ensures h == Returned(Ok(Status))
  {
    NextState(HARD_WIRED_NEXT_STATE)
  }

  /** `Connection::handle`: dispatch on the variant; `Status::handle` is
      `todo!()`. */
  function Handle(c: Connection, packet: PacketBody): (h: Handled)
    ensures c.Handshake? ==> h == Returned(Ok(Status))
    ensures c.Status? ==> h.Panicked?
    ensures h != Returned(Err(BadNextState(HARD_WIRED_NEXT_STATE)))
  {
    match c
    case Handshake => HandshakeHandle(packet)
    case Status => Panicked
  }
}
