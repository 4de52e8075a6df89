/** `StatusState::handle_transaction` and `generate_json`
    (mc/src/connection/status.rs): the server list status request and the
    ping that ends a status connection. */
module StatusPhase {
  import opened Base
  import opened Utf8
  import SF = StringField
  import Packets
  import opened States

  /** The description `handle_transaction` advertises. */
  function Description(): (r: seq<byte>)
    ensures ValidUtf8(r) && |r| == 9
  {
    var r := Ascii("mInEcRaFt");
    AsciiValid(r);
    r
  }

  /** The JSON up to the description: the version name at offset 22 and
      the protocol number at offset 43. */
  function JsonHead(): (r: seq<byte>)
    ensures IsAscii(r) && |r| == 115
    ensures r[22..28] == Ascii("1.15.2") && r[43..46] == Ascii("578")
  {
    var a := Ascii("{\"version\": {\"name\": \"");
    var b := Ascii("\", \"protocol\": ");
    var c := Ascii(" }, \"players\": { \"max\": 10, \"online\": 7 }, \"description\": { \"text\": \"");
    var r := a + Ascii("1.15.2") + b + Ascii("578") + c;
    assert r[22..28] == Ascii("1.15.2");
    assert r[43..46] == Ascii("578");
    r
  }

  function JsonMiddle(): (r: seq<byte>)
    ensures IsAscii(r) && |r| == 39
  {
    Ascii("\" }, \"favicon\": \"data:image/png;base64,")
  }

  function JsonTail(): (r: seq<byte>)
    ensures IsAscii(r) && |r| == 2
  {
    Ascii("\"}")
  }

  /** `generate_json`: the description and the icon are pasted into a
      fixed JSON text, the description at offset 115 and the icon 39 bytes
      after it, each unchanged. */
  function GenerateJson(description: seq<byte>, icon: seq<byte>): (r: seq<byte>)
    requires ValidUtf8(description) && ValidUtf8(icon)
    ensures ValidUtf8(r)
    ensures |r| == 115 + |description| + 39 + |icon| + 2
    ensures r[..115] == JsonHead()
    ensures r[115..115 + |description|] == description
    ensures r[115 + |description|..154 + |description|] == JsonMiddle()
    ensures r[154 + |description|..154 + |description| + |icon|] == icon
    ensures r[154 + |description| + |icon|..] == JsonTail()
  {
    var head, middle, tail := JsonHead(), JsonMiddle(), JsonTail();
    AsciiValid(head);
    AsciiValid(middle);
    AsciiValid(tail);
    Concat(head, description);
    Concat(head + description, middle);
    Concat(head + description + middle, icon);
    Concat(head + description + middle + icon, tail);
    Pieces(head, description, middle, icon, tail);
    head + description + middle + icon + tail
  }

  /** Where each of five concatenated pieces sits. */
  lemma Pieces(a: seq<byte>, b: seq<byte>, c: seq<byte>, d: seq<byte>, e: seq<byte>)
    ensures var r := a + b + c + d + e;
      && r[..|a|] == a && r[|a|..|a| + |b|] == b && r[|a| + |b|..|a| + |b| + |c|] == c
      && r[|a| + |b| + |c|..|a| + |b| + |c| + |d|] == d && r[|a| + |b| + |c| + |d|..] == e
  {
  }

  /** The JSON names version "1.15.2" and protocol 578, whatever is
      pasted into it. */
  lemma AdvertisesVersion(description: seq<byte>, icon: seq<byte>)
    requires ValidUtf8(description) && ValidUtf8(icon)
    ensures GenerateJson(description, icon)[22..28] == Ascii("1.15.2")
    ensures GenerateJson(description, icon)[43..46] == Ascii("578")
  {
    var r := GenerateJson(description, icon);
    assert r[22..28] == r[..115][22..28];
    assert r[43..46] == r[..115][43..46];
  }

  /** The icon file is a string, and the status JSON built from it fits a
      `StringField`. */
  predicate IconFits(icon: seq<byte>)
  {
    ValidUtf8(icon) && |icon| < TWO_31 - 165
  }

  /** The status response `handle_transaction` writes. */
  function Response(icon: seq<byte>): (p: Packets.StatusResponse)
    requires IconFits(icon)
    ensures Packets.StatusResponseValid(p)
    ensures SF.Take(p.jsonResponse) == GenerateJson(Description(), icon)
  {
    Packets.StatusResponse(SF.New(GenerateJson(Description(), icon)))
  }

  /** `handle_transaction` in the status phase. */
  function Handle(packet: PacketBody, icon: seq<byte>, ch: Channels): (t: Transaction)
    requires IconFits(icon)
    ensures t.sent == []
    ensures t.result.Ok? ==> t.result.value == StatusState
    ensures packet.id != 0x00 && packet.id != 0x01 ==> t == Fail(BadPacketId(packet.id))
    ensures packet.id == 0x00 ==> (t.result.Ok? <==> Packets.ReadEmpty(packet).Ok? && ch.writeOk)
    ensures packet.id == 0x00 && t.written != [] ==> t.written == [StatusResponseOut(Response(icon))]
    ensures packet.id == 0x01 ==> t.result.Err?
    ensures packet.id == 0x01 && Packets.ReadPing(packet).Ok? ==>
      && t.result.error == (if ch.writeOk then PleaseDisconnect else Io)
      && t.written == (if ch.writeOk then [PongOut(Packets.Pong(Packets.ReadPing(packet).value.payload))] else [])
    ensures packet.id == 0x01 && Packets.ReadPing(packet).Err? ==> t == Fail(Packets.ReadPing(packet).error)
  {
    if packet.id == 0x00 then
      match Packets.ReadEmpty(packet)
      case Err(e) => Fail(e)
      case Ok(_) => WriteThen(ch, StatusResponseOut(Response(icon)), Ok(StatusState))
    else if packet.id == 0x01 then
      match Packets.ReadPing(packet)
      case Err(e) => Fail(e)
      case Ok(ping) => WriteThen(ch, PongOut(Packets.Pong(ping.payload)), Err(PleaseDisconnect))
    else
      Fail(BadPacketId(packet.id))
  }

  /** An empty status request is answered with the status JSON and the
      connection stays in the status phase. */
  lemma RequestAnswered(icon: seq<byte>, ch: Channels)
    requires IconFits(icon) && ch.writeOk
    ensures Handle(PacketBody(0x00, []), icon, ch) == Transaction(Ok(StatusState), [StatusResponseOut(Response(icon))], [])
  {
    Packets.EmptyOnlyEmpty([]);
  }

  /** An eight-byte ping is answered with a pong carrying the same eight
      bytes, written before the connection is told to close. */
  lemma PingEchoed(body: seq<byte>, icon: seq<byte>, ch: Channels)
    requires IconFits(icon) && ch.writeOk && |body| == 8
    ensures Handle(PacketBody(0x01, body), icon, ch).result == Err(PleaseDisconnect)
    ensures |Handle(PacketBody(0x01, body), icon, ch).written| == 1
    ensures Handle(PacketBody(0x01, body), icon, ch).written[0].PongOut?
    ensures Packets.WritePong(Handle(PacketBody(0x01, body), icon, ch).written[0].pong) == [9, 1] + body
  {
    Packets.PingBodyIsEightBytes(body);
    Packets.PongEchoesPing(body);
  }
}
