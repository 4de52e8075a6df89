/** The per-connection frame loop of server/src/main.rs: `do_handle`
    reads a length VarInt, checks it, reads the packet ID VarInt and then
    `length` body bytes into a reused buffer, and hands the packet to the
    connection; the loop rebinds the connection until the first error. */
module Frame {
  import opened Base
  import VarInt
  import Fields
  import PacketCodec
  import LC = LegacyConnection

  /** The largest frame length `do_handle` accepts. */
  const MAX_LENGTH: nat := 65535

  /** One frame read from the front of `input`, as `do_handle` reads it:
      the body is the `length` bytes that follow the ID, so the ID's own
      bytes are not taken off the length. */
  function ReadFrame(input: seq<byte>): (r: Result<Parsed<PacketBody>>)
    ensures r.Ok? ==> 1 <= |r.value.value.body| <= MAX_LENGTH
    ensures r.Ok? ==> |r.value.value.body| + |r.value.rest| + 2 <= |input|
    ensures r.Ok? ==> input[|input| - |r.value.rest| - |r.value.value.body|..] == r.value.value.body + r.value.rest
    ensures r.Err? ==> r.error == Io || r.error == BadVarInt || r.error.BadPacketLength?
  {
    var length :- VarInt.Decode(input);
    var n := length.value.value;
    if n < 1 || n > MAX_LENGTH then
      Err(BadPacketLength(UsizeOf(n)))
    else
      var id :- VarInt.Decode(length.rest);
      if |id.rest| < n then
        Err(Io)
      else
        assert id.rest == id.rest[..n] + id.rest[n..];
        Ok(Parsed(PacketBody(id.value.value, id.rest[..n]), id.rest[n..]))
  }

  /** A length outside [1, 65535] is refused with that length as a
      `usize` (sign extended when negative), before the ID is read. */
  lemma BadLength(n: i32, more: seq<byte>)
    requires n < 1 || n > MAX_LENGTH
    ensures ReadFrame(VarInt.Encode(n) + more) == Err(BadPacketLength(UsizeOf(n)))
  {
    VarInt.RoundTrip(n, more);
  }

  /** A well-formed length and an ID, then `tail`: the body is the first
      `n` bytes of `tail`, or `Io` when it is shorter. */
  lemma FrameAfterHeader(n: i32, id: i32, tail: seq<byte>)
    requires 1 <= n <= MAX_LENGTH
    ensures |tail| < n ==> ReadFrame(VarInt.Encode(n) + (VarInt.Encode(id) + tail)) == Err(Io)
    ensures |tail| >= n ==>
      ReadFrame(VarInt.Encode(n) + (VarInt.Encode(id) + tail)) == Ok(Parsed(PacketBody(id, tail[..n]), tail[n..]))
  {
    VarInt.RoundTrip(n, VarInt.Encode(id) + tail);
    VarInt.RoundTrip(id, tail);
  }

  /** A frame whose length counts only the body reads back as sent, and
      what follows it is left for the next frame. */
  lemma ReadsBodyOfLength(id: i32, body: seq<byte>, next: seq<byte>)
    requires 1 <= |body| <= MAX_LENGTH
    ensures ReadFrame(VarInt.Encode(|body|) + VarInt.Encode(id) + body + next) == Ok(Parsed(PacketBody(id, body), next))
  {
    assert VarInt.Encode(|body|) + VarInt.Encode(id) + body + next
        == VarInt.Encode(|body|) + (VarInt.Encode(id) + (body + next));
    FrameAfterHeader(|body|, id, body + next);
    assert (body + next)[..|body|] == body;
    assert (body + next)[|body|..] == next;
  }

  /** A packet framed the way the packet writer frames it (its length
      counts the ID bytes) is over-read: the body gets as many bytes of
      the next frame as the ID took, or the read fails with `Io` when the
      stream holds fewer. */
  lemma OverReadsWrittenPacket(id: i32, body: seq<byte>, next: seq<byte>)
    requires 1 <= |VarInt.Encode(id)| + |body| <= MAX_LENGTH
    ensures var k := |VarInt.Encode(id)|;
      var r := ReadFrame(VarInt.Encode(k + |body|) + VarInt.Encode(id) + body + next);
      && (|next| >= k ==> r == Ok(Parsed(PacketBody(id, body + next[..k]), next[k..])))
      && (|next| < k ==> r == Err(Io))
  {
    var k := |VarInt.Encode(id)|;
    var tail := body + next;
    assert VarInt.Encode(k + |body|) + VarInt.Encode(id) + body + next
        == VarInt.Encode(k + |body|) + (VarInt.Encode(id) + tail);
    FrameAfterHeader(k + |body|, id, tail);
    if |next| >= k {
      SplitAfter(body, next, k);
    }
  }

  lemma SplitAfter(a: seq<byte>, b: seq<byte>, k: nat)
    requires k <= |b|
    ensures (a + b)[..|a| + k] == a + b[..k] && (a + b)[|a| + k..] == b[k..]
  {
  }

  /** The same over-read for the bytes `write_packet` produces: reading
      back a written packet takes the ID's bytes from the next frame. */
  lemma WrittenPacketOverRead(id: i32, vals: seq<Fields.FieldValue>, next: seq<byte>)
    requires PacketCodec.AllValid(Fields.Impl, vals)
    requires 1 <= |VarInt.Encode(id)| + PacketCodec.BodySize(vals) <= MAX_LENGTH
    requires |next| >= |VarInt.Encode(id)|
    ensures ReadFrame(PacketCodec.Encode(id, vals) + next) ==
      Ok(Parsed(PacketBody(id, PacketCodec.EncodeBody(vals) + next[..|VarInt.Encode(id)|]), next[|VarInt.Encode(id)|..]))
  {
    var body := PacketCodec.EncodeBody(vals);
    VarInt.EncodeShape(id);
    PacketCodec.Framed(id, vals);
    assert |VarInt.Encode(id) + body| == |VarInt.Encode(id)| + |body|;
    assert PacketCodec.Encode(id, vals) + next == VarInt.Encode(|VarInt.Encode(id)| + |body|) + VarInt.Encode(id) + body + next;
    OverReadsWrittenPacket(id, body, next);
  }

  // ---------------------------------------------------------------------
  // The loop

  /** How the loop of `handle_connection` ends: at the first error, or in
      a panic of the connection's handler. */
  datatype Ending = Stopped(error: Error) | Panicked

  /** The loop over the whole input: frame after frame, each handed to the
      connection the previous one returned. */
  function Serve(connection: LC.Connection, input: seq<byte>): Ending
    decreases |input|
  {
    match ReadFrame(input)
    case Err(e) => Stopped(e)
    case Ok(f) =>
      match LC.Handle(connection, f.value)
      case Panicked => Panicked
      case Returned(Err(e)) => Stopped(e)
      case Returned(Ok(c)) => Serve(c, f.rest)
  }

  /** The first frame that cannot be read ends the loop with its error. */
  lemma StopsAtBadFrame(connection: LC.Connection, input: seq<byte>)
    requires ReadFrame(input).Err?
    ensures Serve(connection, input) == Stopped(ReadFrame(input).error)
  {
  }

  /** Driving the older connection: the first frame moves it to `Status`,
      whose `todo!()` handler panics on the second frame; a stream that
      ends after one frame stops with the read error instead. */
  lemma LegacyConnectionLasts(input: seq<byte>)
    requires ReadFrame(input).Ok?
    ensures var rest := ReadFrame(input).value.rest;
      && (ReadFrame(rest).Ok? ==> Serve(LC.DEFAULT, input) == Panicked)
      && (ReadFrame(rest).Err? ==> Serve(LC.DEFAULT, input) == Stopped(ReadFrame(rest).error))
  {
    var rest := ReadFrame(input).value.rest;
    assert Serve(LC.DEFAULT, input) == Serve(LC.Status, rest);
  }

  /** The socket reader and the frame buffer of `handle_connection`. */
  class Connection {
    /** The bytes the `BufReader` has yet to yield. */
    var input: seq<byte>
    /** `buf`, cleared and resized for every frame. */
    var buf: seq<byte>

    constructor(input: seq<byte>)
      ensures this.input == input && buf == []
    {
      this.input := input;
      buf := [];
    }

    /** `do_handle`: read one frame from the input into `buf` and hand it
        to `connection`. On success the input is left at the next frame
        and `buf` holds exactly this frame's body. On a failed read only
        the error is stated: what the reader has consumed and what `buf`
        holds are left unspecified, as `read_exact` leaves them, and the
        connection loop stops there. */
    method DoHandle(connection: LC.Connection) returns (h: LC.Handled)
      modifies this
      ensures ReadFrame(old(input)).Err? ==> h == LC.Returned(Err(ReadFrame(old(input)).error))
      ensures ReadFrame(old(input)).Ok? ==>
        && input == ReadFrame(old(input)).value.rest
        && buf == ReadFrame(old(input)).value.value.body
        && h == LC.Handle(connection, ReadFrame(old(input)).value.value)
    {
      var length := VarInt.Read(input);
      if length.Err? {
        return LC.Returned(Err(length.error));
      }
      input := length.value.rest;
      var n := length.value.value.value;
      if n < 1 || n > MAX_LENGTH {
        return LC.Returned(Err(BadPacketLength(UsizeOf(n))));
      }
      var id := VarInt.Read(input);
      if id.Err? {
        return LC.Returned(Err(id.error));
      }
      input := id.value.rest;
      buf := [];
      buf := Zeros(n);
      if n > 0 {
        // read_exact: fills the whole buffer or fails
        if |input| < n {
          input := [];
          return LC.Returned(Err(Io));
        }
        buf := input[..n];
        input := input[n..];
      }
      h := LC.Handle(connection, PacketBody(id.value.value.value, buf));
    }

    /** The loop of `handle_connection`, from the default connection. */
    method HandleConnection() returns (e: Ending)
      modifies this
      ensures e == Serve(LC.DEFAULT, old(input))
    {
      var connection := LC.DEFAULT;
      while true
        invariant Serve(connection, input) == Serve(LC.DEFAULT, old(input))
        decreases |input|
      {
        var before := input;
        var h := DoHandle(connection);
        match h {
          case Panicked =>
            return Panicked;
          case Returned(Err(err)) =>
            return Stopped(err);
          case Returned(Ok(c)) =>
            assert ReadFrame(before).Ok?;
            connection := c;
        }
      }
    }
  }
}
