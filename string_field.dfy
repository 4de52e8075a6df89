/** `StringField` and `ChatField` (mc/src/field/string.rs). A Rust
    `String` is its UTF-8 bytes, always well formed. */
module StringField {
  import opened Base
  import opened Utf8
  import VarInt

  /** The string and its length as a VarInt, stored side by side. */
  datatype StringField = StringField(value: seq<byte>, length: VarInt.VarIntField)

  /** `new`: the byte length must fit in an i32 (the source asserts it). */
  function New(value: seq<byte>): (f: StringField)
    requires ValidUtf8(value) && |value| < TWO_31
    ensures Take(f) == value && Valid(f)
    ensures f.length.value == |value|
  {
    StringField(value, VarInt.FromValue(|value|))
  }

  /** What `new` builds: a well-formed string and the canonical VarInt of
      its byte length. */
  predicate Valid(f: StringField)
  {
    && ValidUtf8(f.value)
    && |f.value| < TWO_31
    && f.length == VarInt.FromValue(|f.value|)
  }

  /** `take`: the stored string. */
  function Take(f: StringField): seq<byte>
  {
    f.value
  }

  /** `size()`: the VarInt's size plus its value as a `usize`. */
  function Size(f: StringField): nat
  {
    VarInt.Size(f.length) + UsizeOf(f.length.value)
  }

  /** `write`: the length bytes, then the string bytes. */
  function Write(f: StringField): (bs: seq<byte>)
    requires f.length.byteCount <= |f.length.bytes|
  {
    VarInt.Bytes(f.length) + f.value
  }

  /** `read`: a VarInt length, then exactly that many bytes, which must be
      well formed (`BadString` otherwise). A negative length is sign
      extended to a `usize` of at least 2^63 by the source; no input has
      that many bytes, so it is an `Io` error here. */
  function Read(s: seq<byte>): (r: Result<Parsed<StringField>>)
    ensures r.Ok? ==> Valid(r.value.value) && |r.value.rest| + |r.value.value.value| < |s|
    ensures r.Ok? ==> s[|s| - |r.value.rest| - |r.value.value.value|..] == r.value.value.value + r.value.rest
    ensures r.Err? ==> r.error in {Io, BadVarInt, BadString}
  {
    var p :- VarInt.Decode(s);
    var len := p.value.value;
    if len < 0 || |p.rest| < len then Err(Io)
    else
      var bytes := p.rest[..len];
      if !ValidUtf8(bytes) then Err(BadString)
      else
        assert p.rest == bytes + p.rest[len..];
        Ok(Parsed(New(bytes), p.rest[len..]))
  }

  /** `size()` counts exactly the bytes `write` emits: a VarInt of the
      byte length, and the bytes. */
  lemma SizeIsWritten(f: StringField)
    requires Valid(f)
    ensures Size(f) == |Write(f)| == |VarInt.Encode(|f.value|)| + |f.value|
    ensures Write(f) == VarInt.Encode(|f.value|) + f.value
  {
  }

  /** `read` once the length VarInt has been decoded. */
  lemma ReadAfterLength(s: seq<byte>, len: VarInt.VarIntField, tail: seq<byte>)
    requires VarInt.Decode(s) == Ok(Parsed(len, tail))
    requires 0 <= len.value <= |tail| && ValidUtf8(tail[..len.value])
    ensures Read(s) == Ok(Parsed(New(tail[..len.value]), tail[len.value..]))
  {
  }

  /** `read(write(new(s)))` gives `s` back, and what follows is left. */
  lemma RoundTrip(value: seq<byte>, rest: seq<byte>)
    requires ValidUtf8(value) && |value| < TWO_31
    ensures Read(Write(New(value)) + rest) == Ok(Parsed(New(value), rest))
  {
    var len := VarInt.FromValue(|value|);
    var tail := value + rest;
    var s := VarInt.Bytes(len) + tail;
    var head := VarInt.Bytes(len);
    assert Write(New(value)) == head + value;
    Assoc(head, value, rest);
    VarInt.DecodeValid(len, tail);
    assert tail[..|value|] == value;
    assert tail[|value|..] == rest;
    ReadAfterLength(s, len, tail);
  }

  /** A well-formed length followed by malformed bytes gives `BadString`. */
  lemma MalformedIsBadString()
    ensures Read([0x02, 0xC0, 0x80]) == Err(BadString)
  {
    VarInt.SmallEncode(2);
    VarInt.RoundTrip(2, [0xC0, 0x80]);
    assert [0x02, 0xC0, 0x80] == VarInt.Encode(2) + [0xC0, 0x80];
    assert [0xC0, 0x80][..2] == [0xC0, 0x80];
    Utf8.Examples();
  }

  /** Fewer bytes than the length announces give `Io`. */
  lemma ShortIsIo()
    ensures Read([0x03, 0x61, 0x62]) == Err(Io)
  {
    VarInt.SmallEncode(3);
    VarInt.RoundTrip(3, [0x61, 0x62]);
    assert [0x03, 0x61, 0x62] == VarInt.Encode(3) + [0x61, 0x62];
  }

  /** A negative length (-1 here) gives `Io`. */
  lemma NegativeLengthIsIo()
    ensures Read([0xff, 0xff, 0xff, 0xff, 0x0f]) == Err(Io)
  {
    var s: seq<byte> := [0xff, 0xff, 0xff, 0xff, 0x0f];
    VarInt.MinusOneTestVector();
    VarInt.RoundTrip(-1, []);
    assert VarInt.Encode(-1) + [] == s;
    assert VarInt.Decode(s).value.value.value == -1;
  }

  // ---------------------------------------------------------------------
  // ChatField

  /** A chat component: a string holding JSON text. */
  datatype ChatField = ChatField(inner: StringField)

  function ChatPrefix(): (r: seq<byte>)
    ensures ValidUtf8(r) && |r| == 10
  {
    var r := Ascii("{\"text\": \"");
    AsciiValid(r);
    r
  }

  function ChatSuffix(): (r: seq<byte>)
    ensures ValidUtf8(r) && |r| == 2
  {
    var r := Ascii("\"}");
    AsciiValid(r);
    r
  }

  /** `ChatField::new(v)`: `{"text": "<v>"}` with `v` pasted in as is. */
  function ChatNew(v: seq<byte>): (c: ChatField)
    requires ValidUtf8(v) && |v| < TWO_31 - 12
    ensures Valid(c.inner)
    ensures ChatValue(c) == ChatPrefix() + v + ChatSuffix()
  {
    Concat(ChatPrefix(), v);
    Concat(ChatPrefix() + v, ChatSuffix());
    ChatField(New(ChatPrefix() + v + ChatSuffix()))
  }

  function ChatValue(c: ChatField): seq<byte>
  {
    Take(c.inner)
  }

  function ChatSize(c: ChatField): nat
  {
    Size(c.inner)
  }

  function ChatWrite(c: ChatField): seq<byte>
    requires c.inner.length.byteCount <= |c.inner.length.bytes|
  {
    Write(c.inner)
  }

  function ChatRead(s: seq<byte>): (r: Result<Parsed<ChatField>>)
    ensures r.Ok? <==> Read(s).Ok?
    ensures r.Ok? ==> r.value == Parsed(ChatField(Read(s).value.value), Read(s).value.rest)
  {
    var p :- Read(s);
    Ok(Parsed(ChatField(p.value), p.rest))
  }

  /** Size, write and read go through the inner string: a chat message
      adds 12 bytes of JSON around the text, and reads back as written. */
  lemma ChatRoundTrip(v: seq<byte>, rest: seq<byte>)
    requires ValidUtf8(v) && |v| < TWO_31 - 12
    ensures ChatSize(ChatNew(v)) == |ChatWrite(ChatNew(v))|
    ensures |ChatValue(ChatNew(v))| == |v| + 12
    ensures ChatRead(ChatWrite(ChatNew(v)) + rest) == Ok(Parsed(ChatNew(v), rest))
  {
    var text := ChatPrefix() + v + ChatSuffix();
    assert text == ChatValue(ChatNew(v));
    SizeIsWritten(New(text));
    RoundTrip(text, rest);
  }

  /** Nothing is escaped: a message that is one double quote yields the
      malformed JSON `{"text": """}`, three quotes in a row. */
  lemma ChatNoEscaping()
    ensures var t := ChatValue(ChatNew([0x22]));
            |t| == 13 && t[9] == 0x22 && t[10] == 0x22 && t[11] == 0x22 && t[12] == 0x7D
  {
    var v: seq<byte> := [0x22];
    AsciiValid(v);
    var p, q := ChatPrefix(), ChatSuffix();
    assert p[9] == 0x22;
    assert q[0] == 0x22 && q[1] == 0x7D;
    var t := ChatValue(ChatNew(v));
    assert t == p + v + q;
  }
}
