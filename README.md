# minecraft-server-rs protocol engine, modelled in Dafny

This project models the protocol core of minecraft-server-rs, a Minecraft
Java Edition server (protocol 578, version 1.15.2) written in Rust. The
model has three layers:

* The field codec of `mc/src/field/`. This is how each protocol field is
  sized, written and read: VarInts (with the older `VarInt` of
  `mc/src/types.rs`), strings and chat components, length-prefixed byte
  arrays, big-endian integers and booleans, and packed block positions.
* The packets built on those fields. The read and write code generated by
  `mc-packet-derive` is modelled once, over a packet descriptor (its ID and
  its field kinds, in order). It is then applied to the packet types of
  `mc/src/packet/`.
* The connection and game logic:
  * the per-connection frame loop of `server/src/main.rs`, with the older
    `Connection` enum it drives;
  * the phase state machine of `mc/src/connection/`: handshake, status,
    login and play, each as a transaction that returns the next state, the
    packets written and the messages sent to the game;
  * the `handle_packet` wrapper that kicks on error and remembers the UUID;
  * the plaintext-to-encrypted switch of `ActiveComms`, modelled on its
    own: no code of the core calls `upgrade`, so it is not wired to the
    login phase;
  * the game's player table of `mc/src/game/mod.rs`, with its join
    packets, teleport confirmation and message loop.

Pure code becomes functions and lemmas. State that the source updates in
place becomes a class:

* the socket reader and frame buffer (`Frame.Connection`);
* `ConnectionState`;
* `ActiveComms`;
* `Game`.

Each class's methods are proved against the function that specifies them.
Loops stay loops, with their invariants:

* the VarInt read and write loops;
* the field statements of `read_packet`;
* the size accumulation of `write_packet`;
* the frame loop;
* the join sends;
* the game's message loop.

Integers keep the source's widths explicitly:

* `value as u32` and `transmute::<u32, i32>` are `Base.ToU32` and
  `Base.ToI32`;
* `usize` casts of negative i32 lengths sign-extend (`Base.UsizeOf`);
* the position field works on the 64-bit pattern of an i64.

Strings are byte sequences. A Rust `String` is a well-formed UTF-8 byte
sequence, as section 4 of RFC 3629 defines it (`Utf8.ValidUtf8`).

Where the Minecraft Java protocol (protocol 578) and the code disagree, the
model follows the code. These are the places where the code departs from the
protocol or from itself:

* **Frame length.** `write_packet` counts the ID VarInt in the frame
  length. `do_handle` in `server/src/main.rs` reads `length` body bytes
  *after* the ID. So a written packet is over-read by the ID's size, as
  `Frame.OverReadsWrittenPacket` and `Frame.WrittenPacketOverRead` state.
* **Handshake.** `handshake.rs` refuses every next state, because its
  status and login arms are commented out.
* **Older handshake.** The older `Handshake::handle` of
  `mc/src/connection.rs` matches a constant `next_state` of 1.
* **`PlayState` fields.** `mod.rs` declares `PlayState` with two fields, a
  name and a UUID, while `login.rs` builds it with three: those two and
  `comms`. The model keeps all three (`States.PlayState`).

## Model

| member | source | states |
|---|---|---|
| Base.ToU32 | mc/src/field/varint.rs:61 | `v as u32` keeps non-negative values and adds 2^32 to negative ones |
| Base.ToI32 | mc/src/field/varint.rs:45 | the transmute back to i32 is the inverse of `as u32` |
| Base.WrapI32 | mc/mc-packet-derive/src/lib.rs:162 | `len as i32` is `len` whenever it fits in 31 bits |
| Base.UsizeOf | server/src/main.rs:20-22 | a negative i32 cast to `usize` is at least 2^63; a non-negative one is unchanged |
| Utf8.CharLen | mc/src/field/string.rs:46 | the first well-formed character takes at most 4 bytes of the input |
| Utf8.Split | mc/src/field/string.rs:46 | a non-empty well-formed string begins with a whole character and continues well formed |
| Utf8.Join | mc/src/field/string.rs:46 | a whole character followed by a well-formed string is well formed |
| Utf8.Concat | mc/src/connection/status.rs:48-50 | concatenating well-formed strings gives a well-formed string (needed for the pasted JSON) |
| Utf8.AsciiValid | mc/src/connection/status.rs:48-50 | ASCII text is well-formed UTF-8 |
| Utf8.Examples | mc/src/field/string.rs:46 | overlong forms, surrogates, code points past U+10FFFF, stray continuation bytes and truncated characters are rejected; multi-byte characters are accepted |
| VarInt.Pad5 | mc/src/field/varint.rs:28 | the five-byte buffer starts with the bytes read and is zero after them |
| VarInt.Bytes | mc/src/field/varint.rs:92-94 | `bytes()` has exactly `size()` bytes |
| VarInt.Leb128Length | mc/src/field/varint.rs:64-80 | a value below 128^k encodes in 1 to k bytes |
| VarInt.Leb128Continuation | mc/src/field/varint.rs:65-70 | every byte but the last carries the continuation bit, and the last does not |
| VarInt.Leb128Value | mc/src/field/varint.rs:34 | the 7-bit groups of the encoding spell the encoded number |
| VarInt.Leb128Groups | mc/src/field/varint.rs:65-67 | byte i holds bits 7i to 7i+6 of the number |
| VarInt.EncodeShape | mc/src/field/varint.rs:59-86 | `new` uses 1 to 5 bytes (the assert at line 80), continuation bits on all but the last, spelling `v as u32` |
| VarInt.FromValue | mc/src/field/varint.rs:59-86 | the field `new(v)` builds holds `v`, is well formed and its bytes are the encoding of `v` |
| VarInt.New | mc/src/field/varint.rs:59-86 | the loop of `new` builds exactly `FromValue(value)` |
| VarInt.TestVectors | mc/src/field/varint.rs:129-133 | 0, 1, 127, 128 and 255 encode to the test's bytes |
| VarInt.MaxTestVector | mc/src/field/varint.rs:134 | 2147483647 encodes to ff ff ff ff 07 |
| VarInt.MinusOneTestVector | mc/src/field/varint.rs:135 | -1 encodes to ff ff ff ff 0f |
| VarInt.MinTestVector | mc/src/field/varint.rs:136 | -2147483648 encodes to 80 80 80 80 08 |
| VarInt.SmallEncode | mc/src/field/varint.rs:64-78 | a value below 128 is its own single byte |
| VarInt.SmallField | mc/src/field/varint.rs:81-85 | `new` of a value below 128 stores that byte padded with zeros and a count of 1 |
| VarInt.ContinuationRun | mc/src/field/varint.rs:30-40 | the run of leading continuation bytes ends at the first byte below 128 |
| VarInt.Decode | mc/src/field/varint.rs:25-52 | a successful read returns a well-formed field whose bytes are the consumed prefix; errors are `Io` or, past five bytes, `BadVarInt` |
| VarInt.DecodeValid | mc/src/field/varint.rs:25-55 | reading what `write` emits gives the same field back and leaves the rest |
| VarInt.RoundTrip | mc/src/field/varint.rs:102-125 | `read(new(v).bytes())` yields `v` with the same bytes, for every i32 |
| VarInt.ReadStopsAtTerminator | mc/src/field/varint.rs:139-149 | the stream 01 01 01 reads as three VarInts of 1, one byte each |
| VarInt.NonMinimalAccepted | mc/src/field/varint.rs:30-40 | 80 00 is accepted as 0 with its two bytes kept, unlike `new(0)` |
| VarInt.OverlongRejected | mc/src/field/varint.rs:42-43 | five continuation bytes followed by more input give `BadVarInt` |
| VarInt.TruncatedIsIo | mc/src/field/varint.rs:31 | input that ends inside the VarInt is an `Io` error |
| VarInt.ReadAsWritten | mc/src/field/varint.rs:30-43 | as written, the read panics exactly on the inputs the model rejects with `BadVarInt` |
| VarInt.SixByteInputPanics | mc/src/field/varint.rs:32 | 80 80 80 80 80 01 indexes `bytes[5]` as written |
| VarInt.GroupValueAppend | mc/src/field/varint.rs:34 | one more byte adds its group at weight 128^n |
| VarInt.Accumulate | mc/src/field/varint.rs:34 | the OR into `out` adds the new group modulo 2^32 |
| VarInt.Pad5Snoc | mc/src/field/varint.rs:32 | storing byte n extends the buffer of the first n bytes |
| VarInt.DecodeTerminated | mc/src/field/varint.rs:37-51 | once the terminator is byte n-1, the result holds the accumulated value, the buffer and n |
| VarInt.Read | mc/src/field/varint.rs:25-52 | the byte loop returns exactly `Decode(s)` |
| LegacyVarInt.Decode | mc/src/types.rs:9-29 | a successful read consumes 1 to 5 bytes and leaves the rest |
| LegacyVarInt.AgreesWithField | mc/src/types.rs:9-29 | the older reader accepts exactly what the field reader accepts, with the same value and rest |
| LegacyVarInt.RoundTrip | mc/src/types.rs:97-106 | write then read gives every i32 back |
| LegacyVarInt.Read | mc/src/types.rs:9-29 | the shift-and-or loop returns exactly `Decode(s)` |
| LegacyVarInt.Write | mc/src/types.rs:35-61 | `write` emits the canonical encoding and succeeds |
| Numeric.Width | mc/src/field/primitive.rs:27-29 | `size()` is `size_of` the type, 1 to 8 bytes |
| Numeric.Modulus | mc/src/field/primitive.rs:46-51 | a type of w bytes has 256^w bit patterns |
| Numeric.Bits | mc/src/field/primitive.rs:38-40 | the bit pattern of a value fits its width |
| Numeric.FromBits | mc/src/field/primitive.rs:32-34 | decoding a bit pattern gives an in-range value with that pattern |
| Numeric.BeBytes | mc/src/field/primitive.rs:38-40 | big-endian output has exactly w bytes |
| Numeric.BeValueBound | mc/src/field/primitive.rs:32-34 | w bytes spell a number below 256^w |
| Numeric.BeValueOfBytes | mc/src/field/primitive.rs:32-40 | reading big-endian bytes inverts writing them |
| Numeric.BeBytesOfValue | mc/src/field/primitive.rs:32-40 | writing the number some bytes spell gives back those bytes |
| Numeric.Encode | mc/src/field/primitive.rs:38-40 | `write` emits `size()` bytes |
| Numeric.Decode | mc/src/field/primitive.rs:32-34 | `read` succeeds exactly when `size()` bytes are there, returning an in-range value and the rest; otherwise `Io` |
| Numeric.RoundTrip | mc/src/field/primitive.rs:32-40 | `read(write(v)) == v` for every in-range value of every width, leaving the rest |
| Numeric.EncodeDecoded | mc/src/field/primitive.rs:32-40 | whatever `read` accepts, `write` reproduces byte for byte |
| Numeric.Sizes | mc/src/field/primitive.rs:46-51 | Short and UShort take 2 bytes, Int 4, Long 8, UByte 1 |
| Numeric.Examples | mc/src/field/long.rs:29-35 | big-endian two's complement patterns of sample values |
| Numeric.UShortRead | mc/src/field/ushort.rs:9-11 | a UShort is two bytes, high first; fewer is `Io` |
| Numeric.UByteRaw | mc/src/field/primitive.rs:79-85 | a UByte is one raw byte, read back unchanged |
| Numeric.EncodeBool | mc/src/field/primitive.rs:112-114 | `b as u8` is 1 for true and 0 for false |
| Numeric.DecodeBool | mc/src/field/primitive.rs:108-110 | byte 1 reads as true and every other byte as false; empty input is `Io` |
| Numeric.BoolRoundTrip | mc/src/field/primitive.rs:108-114 | a written bool reads back unchanged |
| Numeric.BoolReadIsLenient | mc/src/field/primitive.rs:108-110 | byte 2 is accepted as false and does not round-trip |
| StringField.New | mc/src/field/string.rs:15-23 | `new` needs the length to fit an i32 (the assert) and stores the string with its length |
| StringField.Read | mc/src/field/string.rs:41-50 | a read string is well formed, is taken from directly after its length, and errors are `Io`, `BadVarInt` or `BadString` |
| StringField.SizeIsWritten | mc/src/field/string.rs:37-39 | `size()` counts exactly the length VarInt and the bytes `write` emits |
| StringField.ReadAfterLength | mc/src/field/string.rs:41-50 | after the length, exactly that many well-formed bytes are taken |
| StringField.RoundTrip | mc/src/field/string.rs:41-56 | `read(write(new(s)))` gives `s` back and leaves the rest |
| StringField.MalformedIsBadString | mc/src/field/string.rs:46 | malformed UTF-8 after a good length gives `BadString` |
| StringField.ShortIsIo | mc/src/field/string.rs:44-45 | fewer bytes than announced give `Io` |
| StringField.NegativeLengthIsIo | mc/src/field/string.rs:42-45 | a negative length gives `Io` |
| StringField.ChatPrefix | mc/src/field/string.rs:67 | the prefix `{"text": "` is well formed and 10 bytes long |
| StringField.ChatSuffix | mc/src/field/string.rs:67 | the closing `"}` is well formed and 2 bytes long |
| StringField.ChatNew | mc/src/field/string.rs:64-69 | `ChatField::new` wraps the text in the JSON prefix and suffix, unchanged |
| StringField.ChatRead | mc/src/field/string.rs:83-87 | a chat field reads as its inner string field, with the same errors |
| StringField.ChatRoundTrip | mc/src/field/string.rs:79-91 | chat size counts its written bytes, is 12 longer than the text, and chat read inverts write |
| StringField.ChatNoEscaping | mc/src/field/string.rs:67 | a double quote in the text is pasted in unescaped |
| ByteArray.New | mc/src/field/array.rs:6-9 | a field holding the bytes with their canonical count |
| ByteArray.Read | mc/src/field/array.rs:22-31 | a successful read is a well-formed field whose written form is the consumed prefix; errors are `Io` or `BadVarInt` |
| ByteArray.RoundTrip | mc/src/field/array.rs:22-37 | `read(write(f))` returns the same count and bytes |
| ByteArray.SizeAsWrittenShort | mc/src/field/array.rs:18-20 | the corrected size counts what `write` emits; `size()` as written falls short by the count's VarInt |
| ByteArray.SizeCounterexample | mc/src/field/array.rs:18-20 | a two-byte array is written as three bytes while `size()` says 2 |
| ByteArray.ShortInput | mc/src/field/array.rs:24-25 | input shorter than the count is `Io` |
| Position.FromTuple | mc/src/field/position.rs:71-75 | `From<(i32, i32, i32)>` keeps the coordinates |
| Position.Sign26 | mc/src/field/position.rs:33-35 | the arithmetic shift gives the signed 26-bit number of the low bits |
| Position.Write | mc/src/field/position.rs:54-62 | `write_field` emits `size()` = 8 bytes |
| Position.Unpack | mc/src/field/position.rs:28-52 | the coordinates read are x, z in [-2^25, 2^25) and y in [0, 4096) |
| Position.Read | mc/src/field/position.rs:28-52 | reading needs 8 bytes, consumes exactly them and yields in-range coordinates |
| Position.HighGroup | mc/src/field/position.rs:33 | `>> 38` of the packed word is the sign-extended top group, and the low 12 bits survive |
| Position.ShiftedGroup | mc/src/field/position.rs:34 | `<< 26 >> 38` isolates z, sign extended |
| Position.UnpackPack | mc/src/field/position.rs:28-62 | reading the packed word gives each coordinate's low bits: x and z sign extended from 26 bits, y from its low 12 bits |
| Position.ReadWrite | mc/src/field/position.rs:28-62 | `read_field(write_field(p))` for every p, as each coordinate's truncation |
| Position.RoundTrip | mc/src/field/position.rs:28-62 | the round trip is exact for positions in range |
| Position.Sign26Mod | mc/src/field/position.rs:33-35 | sign extension inverts truncation on [-2^25, 2^25) |
| Position.NegativeY | mc/src/field/position.rs:35-41 | y = -1 reads back as 4095 (the sign fix is commented out) |
| Fields.VarIntImplements | mc/src/field/varint.rs:21-55 | VarInt keeps the field contract: size counts the writes, read inverts write, reads are well formed and consume input |
| Fields.StringImplements | mc/src/field/string.rs:30-57 | the string field keeps the field contract |
| Fields.ChatSizeIsWritten | mc/src/field/string.rs:79-81 | the chat field's size counts its writes |
| Fields.ChatRoundTrip | mc/src/field/string.rs:83-91 | the chat field's read inverts its write |
| Fields.ChatReadValid | mc/src/field/string.rs:83-87 | a chat read is well formed and consumes input |
| Fields.ChatImplements | mc/src/field/string.rs:59-92 | the chat field keeps the field contract |
| Fields.IntegerImplements | mc/src/field/primitive.rs:20-42 | every fixed-width integer field keeps the field contract |
| Fields.BoolImplements | mc/src/field/primitive.rs:97-115 | the bool field keeps the field contract |
| Fields.ByteArraySizeIsWritten | mc/src/field/array.rs:18-37 | the corrected byte array size counts its writes |
| Fields.ByteArrayRoundTrip | mc/src/field/array.rs:22-37 | the byte array read inverts its write |
| Fields.ByteArrayReadSuffix | mc/src/field/array.rs:22-31 | a byte array read is well formed and consumes input |
| Fields.ByteArrayImplements | mc/src/field/array.rs:11-38 | the byte array with the corrected size keeps the field contract |
| Fields.PositionImplements | mc/src/field/position.rs:17-63 | the position field keeps the field contract on its in-range values |
| Fields.ImplLawful | mc/src/field/mod.rs:4-9 | every field type keeps the contract the generated packet code relies on |
| Fields.ImplAsWrittenBreaksSize | mc/src/field/array.rs:18-20 | with the byte array's `size()` as written the table breaks the contract: 2 is reported for 3 written bytes |
| PacketCodec.MatchesAllValid | mc/mc-packet-derive/src/lib.rs:107 | values that match a descriptor are values their implementations hold |
| PacketCodec.DecodeFields | mc/mc-packet-derive/src/lib.rs:107 | the chained field reads never lengthen the input |
| PacketCodec.DecodeFieldsMatches | mc/mc-packet-derive/src/lib.rs:107 | the values read are of the declared kinds, in order, each well formed |
| PacketCodec.DecodeWith | mc/mc-packet-derive/src/lib.rs:97-126 | a wrong ID is `UnexpectedPacket`; success means the fields read to exactly the end of the body |
| PacketCodec.DecodeAfterFields | mc/mc-packet-derive/src/lib.rs:113-125 | after the fields, leftover bytes give `FullPacketNotRead` with the body length and the bytes read |
| PacketCodec.ReadStep | mc/mc-packet-derive/src/lib.rs:107 | one field statement: its error ends the read, its success advances the cursor |
| PacketCodec.CursorAdvances | mc/mc-packet-derive/src/lib.rs:113-114 | the cursor position is the input length minus what is left |
| PacketCodec.ReadFields | mc/mc-packet-derive/src/lib.rs:105-107 | the statement-by-statement reads return exactly `DecodeFields` |
| PacketCodec.ReadPacket | mc/mc-packet-derive/src/lib.rs:97-126 | the generated `read_packet` returns exactly `DecodeWith` |
| PacketCodec.WritePacket | mc/mc-packet-derive/src/lib.rs:154-174 | the generated `write_packet` emits `VarInt(len)`, `VarInt(ID)` and the fields, with `len` accumulated from the sizes |
| PacketCodec.DecodeEncodeFields | mc/mc-packet-derive/src/lib.rs:107-170 | reading the written fields gives them back and leaves the rest |
| PacketCodec.DecodeRoundTrip | mc/mc-packet-derive/src/lib.rs:97-174 | a body that is the written fields reads back as the same values |
| PacketCodec.TrailingBytesRejected | mc/mc-packet-derive/src/lib.rs:118-122 | extra bytes after the fields fail with `FullPacketNotRead` |
| PacketCodec.FieldsSizeIsEncoded | mc/mc-packet-derive/src/lib.rs:160 | with lawful fields, the summed sizes equal the written length |
| PacketCodec.LengthCountsBody | mc/mc-packet-derive/src/lib.rs:156-170 | the length prefix counts exactly the ID bytes and the field bytes after it |
| PacketCodec.MatchesAt | mc/mc-packet-derive/src/lib.rs:107 | the i-th value has the i-th declared kind |
| PacketCodec.MatchesPointwise | mc/mc-packet-derive/src/lib.rs:107 | values of the declared kinds at every index match the descriptor |
| PacketCodec.FieldsAppend | mc/mc-packet-derive/src/lib.rs:160-170 | sizes and writes of two runs of fields add up |
| PacketCodec.Decode | mc/mc-packet-derive/src/lib.rs:97-126 | `read_packet` with the repository's field types refuses wrong IDs and returns matching values |
| PacketCodec.EncodeBody | mc/mc-packet-derive/src/lib.rs:170 | the fields' bytes are as long as their summed sizes |
| PacketCodec.RoundTrip | mc/mc-packet-derive/src/lib.rs:97-174 | every packet's written body reads back as the same values |
| PacketCodec.Framed | mc/mc-packet-derive/src/lib.rs:154-170 | a written packet is `VarInt(ID size + body size)`, the ID and the body |
| PacketCodec.FieldsSizeUndercount | mc/mc-packet-derive/src/lib.rs:160 | a size table that never overcounts gives a smaller total, strictly so with a byte array |
| PacketCodec.AsWrittenUndercounts | mc/src/field/array.rs:18-20 | the byte array's `size()` as written is the only size smaller than what is written |
| PacketCodec.LengthAsWrittenShort | mc/mc-packet-derive/src/lib.rs:156-163 | as written, a packet with a byte array announces fewer bytes than follow the length |
| Packets.IdsDistinct | mc/src/packet/status.rs:12-34 | in each phase and direction the IDs name one packet type; both directions reuse 0x00 and 0x01 |
| Packets.HandshakeOf | mc/src/packet/handshake.rs:10-17 | the four values `read_packet` returns are a valid `Handshake` |
| Packets.ReadHandshake | mc/src/packet/handshake.rs:10-17 | `Handshake::read_packet` is the generated decode of its four fields |
| Packets.ReadEmpty | mc/src/packet/status.rs:12-14 | `Empty::read_packet` is the generated decode of no fields |
| Packets.PingOf | mc/src/packet/status.rs:16-20 | the value read is a valid `Ping` |
| Packets.ReadPing | mc/src/packet/status.rs:16-20 | `Ping::read_packet` is the generated decode of one long |
| Packets.LoginStartOf | mc/src/packet/login.rs:10-14 | the value read is a valid `LoginStart` |
| Packets.ReadLoginStart | mc/src/packet/login.rs:10-14 | `LoginStart::read_packet` is the generated decode of one string |
| Packets.EncryptionResponseOf | mc/src/packet/login.rs:30-35 | the values read are a valid `EncryptionResponse` |
| Packets.ReadEncryptionResponse | mc/src/packet/login.rs:30-35 | `EncryptionResponse::read_packet` is the generated decode of two byte arrays |
| Packets.HandshakeRoundTrip | mc/src/packet/handshake.rs:10-17 | a written handshake body reads back as the packet |
| Packets.HandshakeWrongId | mc/mc-packet-derive/src/lib.rs:98-103 | any ID but 0x00 gives `UnexpectedPacket` whatever the body |
| Packets.HandshakeSize | mc/src/packet/handshake.rs:10-17 | a handshake body is the two VarInts, the string and two bytes |
| Packets.LoginStartRoundTrip | mc/src/packet/login.rs:10-14 | a written `LoginStart` body reads back as the packet |
| Packets.EncryptionResponseRoundTrip | mc/src/packet/login.rs:30-35 | a written `EncryptionResponse` body reads back as the packet |
| Packets.EmptyOnlyEmpty | mc/mc-packet-derive/src/lib.rs:113-125 | `Empty` reads only from an empty body; any other body is `FullPacketNotRead` |
| Packets.PingBodyIsEightBytes | mc/src/packet/status.rs:16-20 | a ping body reads exactly when it is 8 bytes, as their big-endian value |
| Packets.PongEchoesPing | mc/src/packet/status.rs:30-34 | the pong built from a ping's payload is written as 09 01 and the ping's 8 bytes |
| Packets.JoinGameLength | mc/src/packet/play.rs:9-21 | `JoinGame`'s length is the ID byte and the field sizes in declaration order |
| Packets.JoinGameHead | mc/src/packet/play.rs:12-16 | the first five fields take 4 + 1 + 4 + 8 + 1 bytes |
| Packets.JoinGameTail | mc/src/packet/play.rs:17-20 | the last four take the string's size, the VarInt's and two bytes |
| Packets.EncryptionRequestLengthShort | mc/src/packet/login.rs:22-28 | as written, an `EncryptionRequest`'s length falls short by its two count VarInts |
| Frame.ReadFrame | server/src/main.rs:18-30 | a frame's body has 1 to 65535 bytes, follows the two VarInts, and errors are `Io`, `BadVarInt` or `BadPacketLength` |
| Frame.BadLength | server/src/main.rs:20-22 | a length outside [1, 65535] is refused as its `usize` value before the ID is read |
| Frame.FrameAfterHeader | server/src/main.rs:24-30 | after length and ID, the body is the next `length` bytes, or `Io` when fewer remain |
| Frame.ReadsBodyOfLength | server/src/main.rs:18-36 | a frame whose length counts only the body reads back as sent, leaving the next frame |
| Frame.OverReadsWrittenPacket | server/src/main.rs:24-30 | a length that counts the ID takes that many bytes of the next frame into the body |
| Frame.WrittenPacketOverRead | server/src/main.rs:24-30 | reading back what `write_packet` emits over-reads by the ID's size |
| Frame.StopsAtBadFrame | server/src/main.rs:38-46 | the first unreadable frame ends the loop with its error |
| Frame.LegacyConnectionLasts | server/src/main.rs:38-46 | from the default connection, the second frame panics in `Status::handle` |
| Frame.Connection.constructor | server/src/main.rs:10-16 | the reader starts at the stream's first byte with an empty buffer |
| Frame.Connection.DoHandle | server/src/main.rs:18-36 | one frame is read into `buf` and handed on, leaving the input at the next frame; a read error is returned, with the reader's position and `buf` after it left unspecified |
| Frame.Connection.HandleConnection | server/src/main.rs:38-46 | the loop ends as `Serve` from the default connection |
| LegacyConnection.NextState | mc/src/connection.rs:31-35 | 1 moves to `Status`, 2 panics, and anything else is `BadNextState` |
| LegacyConnection.HandshakeHandle | mc/src/connection.rs:28-36 | the hard-wired next state always moves to `Status` |
| LegacyConnection.Handle | mc/src/connection.rs:19-24 | handshake moves to `Status`; status panics (`todo!()` at line 41) |
| States.Fail | mc/src/connection/mod.rs:120-139 | a failing transaction writes and sends nothing |
| States.WriteThen | mc/src/connection/status.rs:31 | a packet counts as written only when the write succeeds; a failed write is `Io` |
| States.SendThen | mc/src/connection/play.rs:51-60 | a message counts as sent only when the channel accepts it; otherwise `ChannelClosed` |
| HandshakePhase.Handle | mc/src/connection/handshake.rs:16-29 | every handshake fails: a read error, or `BadNextState` of the state asked for |
| HandshakePhase.EveryNextStateRefused | mc/src/connection/handshake.rs:24-28 | a client's handshake is answered with `BadNextState` of its next state |
| HandshakePhase.OtherIdUnexpected | mc/src/connection/handshake.rs:22 | another packet ID gives `UnexpectedPacket` |
| StatusPhase.Description | mc/src/connection/status.rs:26 | the description is well formed and 9 bytes long |
| StatusPhase.JsonHead | mc/src/connection/status.rs:48-50 | the JSON head names version 1.15.2 and protocol 578 at fixed offsets |
| StatusPhase.GenerateJson | mc/src/connection/status.rs:48-50 | the JSON is well formed, with the description and the icon pasted unchanged between the fixed pieces |
| StatusPhase.AdvertisesVersion | mc/src/connection/status.rs:48-50 | whatever is pasted in, the JSON names version 1.15.2 and protocol 578 |
| StatusPhase.Response | mc/src/connection/status.rs:24-29 | the status response holds the generated JSON |
| StatusPhase.Handle | mc/src/connection/status.rs:14-45 | an empty request writes the status and stays; a ping writes the pong and then asks to disconnect; other IDs are `BadPacketId` |
| StatusPhase.RequestAnswered | mc/src/connection/status.rs:21-33 | an empty request is answered with the status JSON, staying in status |
| StatusPhase.PingEchoed | mc/src/connection/status.rs:34-42 | an 8-byte ping is echoed in a pong before `PleaseDisconnect` |
| LoginPhase.IntoPlayState | mc/src/connection/login.rs:107-139 | `LoginSuccess` names the player and the upper-case hyphenated UUID; the play state is online exactly with a shared secret |
| LoginPhase.Request | mc/src/connection/login.rs:46-51 | the encryption request has an empty server ID, the public key and the token |
| LoginPhase.HandleLoginStart | mc/src/connection/login.rs:27-63 | offline: `LoginSuccess` and play under a fresh UUID; online: an encryption request and a login state holding the name and token |
| LoginPhase.HandleEncryptionResponse | mc/src/connection/login.rs:64-100 | the state enters play only when the token decrypts to the stored one, with online comms holding the decrypted secret; a mismatch writes nothing |
| LoginPhase.Handle | mc/src/connection/login.rs:19-104 | the two arms by ID, and `BadPacketId` for every other |
| LoginPhase.OfflineLogin | mc/src/connection/login.rs:34-42 | offline, `LoginStart` enters play with offline comms as the named player |
| LoginPhase.OnlineLogin | mc/src/connection/login.rs:43-98 | online, `LoginStart` then a matching `EncryptionResponse` enters play with online comms holding the decrypted secret |
| LoginPhase.TokenMismatch | mc/src/connection/login.rs:77-83 | a token that decrypts to anything else is `VerifyTokenMismatch` |
| UuidText.Digit | mc/src/connection/login.rs:115 | each nibble has one upper-case digit, which reads back as it |
| UuidText.Hex | mc/src/connection/login.rs:115 | k nibbles give k upper-case digits |
| UuidText.HexRoundTrip | mc/src/connection/login.rs:115 | the digits read back as the value modulo 16^k |
| UuidText.Hyphenated | mc/src/connection/login.rs:113-119 | 36 bytes, hyphens exactly at offsets 8, 13, 18 and 23, upper-case hex elsewhere |
| UuidText.ParseHyphenated | mc/src/connection/login.rs:113-119 | dropping the hyphens and reading the digits gives the UUID back |
| UuidText.HyphenatedInjective | mc/src/connection/login.rs:113-119 | different UUIDs give different texts |
| PlayPhase.CheckPayload | mc/src/connection/play.rs:29-49 | only a brand message whose data is not a string fails, with the string error |
| PlayPhase.Handle | mc/src/connection/play.rs:16-85 | every success stays in play; confirmations and keep-alives are forwarded as this player's messages; unknown IDs are `BadPacketId` |
| PlayPhase.TeleportForwarded | mc/src/connection/play.rs:51-60 | a teleport confirmation is forwarded as `VerifyTeleport`, or fails with `ChannelClosed` |
| Connection.Dispatch | mc/src/connection/mod.rs:93-118 | only the login phase moves anywhere new; handshake always fails; status and play stay put |
| Connection.Kick | mc/src/connection/mod.rs:120-132 | login errors are kicked with the login `Disconnect`, all others with `KickDisconnect` |
| Connection.HandshakeIsStuck | mc/src/connection/mod.rs:98-138 | from the handshake phase every packet fails and kicks with `KickDisconnect` |
| Connection.ConnectionState.constructor | mc/src/connection/mod.rs:79-85 | a new connection is in the handshake phase with no UUID |
| Connection.ConnectionState.HandlePacket | mc/src/connection/mod.rs:87-146 | the new state, the writes, the kick on error and the default state left behind; entering play from login records the UUID and reports it |
| Connection.ConnectionState.OnDisconnect | mc/src/connection/mod.rs:148-157 | the UUID is taken and, if there was one, the game is told the player left |
| Comms.Through | mc/src/connection/comms.rs:45-51 | plaintext bytes go out as they are, encrypted ones through the cipher's key and IV |
| Comms.Upgraded | mc/src/connection/comms.rs:62-77 | plaintext becomes encrypted with the secret as key and IV when every step succeeds; a failure leaves it plaintext; encrypted stays |
| Comms.UpgradeIdempotent | mc/src/connection/comms.rs:63 | a second upgrade changes nothing |
| Comms.ActiveComms.constructor | mc/src/connection/comms.rs:31-33 | `new` is plaintext |
| Comms.ActiveComms.Read | mc/src/connection/comms.rs:36-43 | reading takes up to n bytes in the current mode and changes nothing else |
| Comms.ActiveComms.Write | mc/src/connection/comms.rs:45-51 | writing appends the buffer in the current mode, or is `Io` and writes nothing |
| Comms.ActiveComms.Upgrade | mc/src/connection/comms.rs:62-77 | the mode becomes `Upgraded` of the old one |
| Comms.WriteAfterUpgrade | mc/src/connection/comms.rs:62-77 | after an upgrade, writes go through the cipher keyed by the first secret |
| Game.NewClientOf | mc/src/game/mod.rs:28-34 | a new client has no teleport pending and nothing queued |
| Game.JoinPacketValid | mc/src/game/mod.rs:155-165 | every field of the join packet is in range |
| Game.LevelTypeText | mc/src/game/mod.rs:161 | the level type is the text "default" |
| Game.LevelTypeBuilt | mc/src/game/mod.rs:161 | the level type field is the one `StringField::new` builds |
| Game.ViewDistanceBuilt | mc/src/game/mod.rs:162 | the view distance is `VarIntField::new(20)` |
| Game.JoinPackets | mc/src/game/mod.rs:155-174 | four packets are queued, the last carrying teleport ID 1234 |
| Game.Lookup | mc/src/game/mod.rs:94-104 | a known UUID gives its client, any other `NoSuchPlayer` |
| Game.Send | mc/src/game/mod.rs:118-126 | the packet is queued for a known player with an open queue; otherwise an error and no change |
| Game.SendAllStep | mc/src/game/mod.rs:148-153 | sending one more packet after a run extends the run |
| Game.SetTeleport | mc/src/game/mod.rs:128-131 | the pending teleport becomes the given ID for a known player |
| Game.CheckTeleport | mc/src/game/mod.rs:133-143 | the pending ID is taken either way; success exactly when it matches; otherwise `IncorrectTeleportConfirm` |
| Game.Kick | mc/src/game/mod.rs:106-116 | a `Disconnect` with the error is queued when possible; a failure changes nothing |
| Game.Joined | mc/src/game/mod.rs:145-178 | the join packets, then teleport ID 1234 pending; the first error stops it |
| Game.StepJoins | mc/src/game/mod.rs:61-70 | a new client replaces any player with its UUID and, when its queue is open, holds the join packets and the pending teleport |
| Game.StepConfirms | mc/src/game/mod.rs:71-86 | a confirmation clears the pending ID; a wrong one queues a `Disconnect` |
| Game.StepIgnores | mc/src/game/mod.rs:59-87 | other messages, and confirmations from unknown players, change nothing |
| Game.StepPlayers | mc/src/game/mod.rs:59-87 | only `NewClient` adds a player and none is removed |
| Game.FoldAppend | mc/src/game/mod.rs:56-88 | handling `a` then `b` is handling `a + b` |
| Game.RunAppend | mc/src/game/mod.rs:56-88 | the message loop over `a + b` is the loop over `a` and then over `b` |
| Game.FoldPlayers | mc/src/game/mod.rs:56-88 | players present after a step sequence are those present before or announced |
| Game.RunPlayers | mc/src/game/mod.rs:56-88 | players enter only through `NewClient` and never leave |
| Game.ConfirmOnce | mc/src/game/mod.rs:133-143 | a joined player can confirm teleport 1234 once; a second confirmation gets them kicked |
| Game.Game.constructor | mc/src/game/mod.rs:46-51 | the game starts with no players |
| Game.Game.SendPacketToClient | mc/src/game/mod.rs:118-126 | the method is `Send` on the table |
| Game.Game.SetTeleportId | mc/src/game/mod.rs:128-131 | the method is `SetTeleport` on the table |
| Game.Game.CheckTeleportId | mc/src/game/mod.rs:133-143 | the method is `CheckTeleport` on the table |
| Game.Game.KickWithError | mc/src/game/mod.rs:106-116 | the method is `Kick` on the table |
| Game.Game.SendEach | mc/src/game/mod.rs:148-174 | sending packets one at a time is `SendAll`: all of them, or none after the first failure |
| Game.Game.OnPlayerJoined | mc/src/game/mod.rs:145-178 | the method is `Joined` on the table |
| Game.Game.HandleMessage | mc/src/game/mod.rs:59-87 | one turn of the loop is `Step` |
| Game.Game.RunMessages | mc/src/game/mod.rs:53-92 | the loop over the messages is `Run` |

## Left out

- I/O failures are inputs. A failing read is the end of the input; whether a write or a send succeeds is a boolean (`States.Channels`, the `kickOk` and `sendOk` parameters). Partial writes and `flush` are not modelled.
- Async execution and concurrency are not modelled: the `async` handlers, the spawned game task, the `CHashMap` locking and the mutex around the server data. The message loop handles one message at a time, in arrival order.
- No code of the core calls `ActiveComms::upgrade` (mc/src/connection/comms.rs:62-77): a successful online login only stores the decrypted secret in the play state's comms (mc/src/connection/login.rs:126-128), and the connection keeps writing plaintext. `Comms` is therefore modelled on its own and is not wired to the login phase or to `ConnectionState`.
- The AES-128-CFB8 cipher is not modelled. Encrypted bytes are tagged with the key and IV they pass through (`Comms.Segment`).
- RSA decryption, random verify tokens and `Uuid::new_v4` are parameters of `LoginPhase.Server`. So is the online status from `ServerData`; it is part of mc/src/server.rs, which is not part of this model.
- The play packets' IDs and readers (Settings, CustomPayload, TeleportConfirm, PlayerPositionAndLook, KeepAlive) come from the external `packets` crate. They are parameters (`PlayPhase.PlayIds`, `PlayPhase.PlayReaders`).
- The play packets the game sends (`HeldItemChange`, `SpawnPosition`, `PlayerPositionAndLook`) appear only as their values. `PlayerPositionAndLook`'s floating-point coordinates are not modelled.
- A client's outgoing queue is a list of packets and a flag saying whether its receiver is still there. A receiver that goes away between two sends of one join is not modelled; the queue is open or closed for the whole join.
- The `PlayerJoined` and `PlayerDisconnected` messages reach the game but match no arm of its loop. The model leaves the table unchanged for them, and for the keep-alive message that `PlayPhase.Handle` forwards.
- Connection.ConnectionState.HandlePacket: the UUID recorded on entering play is kept across later packets. That a play-phase connection always holds one (`Tracked`) is proved to be preserved, but not established for an arbitrary starting state.
- StringField.NegativeLengthIsIo: a negative length is cast to a `usize` near 2^64. In the source (string.rs:44, and array.rs:24 for byte arrays), allocating a buffer that large aborts the process. The model reports `Io` instead, the error it gives for any input shorter than the announced length.
- LegacyVarInt.Read: the shift `7 * n` past 31 bits, reachable only on the sixth byte, is written as the model's `BadVarInt` path. Its debug-build overflow panic is not modelled.
- Packet `Display` implementations and logging are not modelled.
- `ServerBound`/`ClientBound` dispatch by trait object is not modelled. The generated code is one read and one write function over a packet descriptor.
- The `main` function and server start-up (server/src/server.rs, server/src/async.rs) are not part of this model.

## Findings

| source | as written | input that shows it | evidently intended | confidence | as-written member | corrected member |
|---|---|---|---|---|---|---|
| mc/src/field/varint.rs:32 | the loop stores every byte in a five-byte buffer before checking the count, so a sixth continuation byte indexes `bytes[5]` and panics; the `n > 5` check at line 42 cannot be reached with n = 6 | 80 80 80 80 80 01 | reject a sixth byte with `BadVarInt` | not executed | VarInt.SixByteInputPanics | VarInt.OverlongRejected |
| mc/src/field/array.rs:18-20 | `size()` returns only the byte count, so `write_packet`'s frame length leaves out the count VarInt of every byte array field | an `EncryptionRequest` whose two arrays hold 2 bytes each is announced as 2 bytes too short | `size()` counts the count VarInt as well as the bytes | not executed | Fields.ImplAsWrittenBreaksSize | Fields.ImplLawful |
