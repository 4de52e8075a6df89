/** The read and write code `#[derive(ServerBoundPacket)]` and
    `#[derive(ClientBoundPacket)]` generate (mc/mc-packet-derive/src/lib.rs),
    as one routine over a packet's descriptor: its ID and the kinds of its
    fields in declaration order. The routine reaches the fields through a
    table of `Field` implementations; `Decode` and `Encode` at the end use
    the repository's own. */
module PacketCodec {
  import opened Base
  import VarInt
  import BA = ByteArray
  import opened Fields

  /** A packet type: `#[packet_id]` and the field kinds in declaration
      order. */
  datatype Descriptor = Descriptor(id: i32, fields: seq<FieldKind>)

  /** A value the implementation of its own kind holds. */
  predicate ValidValue(fs: Table, v: FieldValue)
  {
    fs(KindOf(v)).valid(v)
  }

  predicate AllValid(fs: Table, vals: seq<FieldValue>)
  {
    vals == [] || (ValidValue(fs, vals[0]) && AllValid(fs, vals[1..]))
  }

  /** Values of the kinds `fields` lists, in order, each valid. */
  predicate Matches(fs: Table, fields: seq<FieldKind>, vals: seq<FieldValue>)
  {
    |vals| == |fields| &&
    (vals == [] || (KindOf(vals[0]) == fields[0] && ValidValue(fs, vals[0]) && Matches(fs, fields[1..], vals[1..])))
  }

  lemma {:induction false} MatchesAllValid(fs: Table, fields: seq<FieldKind>, vals: seq<FieldValue>)
    requires Matches(fs, fields, vals)
    ensures AllValid(fs, vals)
    decreases |vals|
  {
    if vals != [] {
      MatchesAllValid(fs, fields[1..], vals[1..]);
    }
  }

  function WriteField(fs: Table, v: FieldValue): seq<byte>
    requires Callable(fs) && ValidValue(fs, v)
  {
    fs(KindOf(v)).write(v)
  }

  function FieldSize(fs: Table, v: FieldValue): nat
    requires Callable(fs) && ValidValue(fs, v)
  {
    fs(KindOf(v)).size(v)
  }

  // ---------------------------------------------------------------------
  // Reading

  /** The fields read one after the other from the same cursor; the first
      error stops the read. */
  function DecodeFields(fs: Table, fields: seq<FieldKind>, s: seq<byte>): (r: Result<Parsed<seq<FieldValue>>>)
    requires Lawful(fs)
    ensures r.Ok? ==> |r.value.rest| <= |s|
    decreases |fields|
  {
    if fields == [] then Ok(Parsed([], s))
    else
      var p :- fs(fields[0]).read(s);
      var q :- DecodeFields(fs, fields[1..], p.rest);
      Ok(Parsed([p.value] + q.value, q.rest))
  }

  /** The values read are of the kinds asked for, in order, each valid. */
  lemma {:induction false} DecodeFieldsMatches(fs: Table, fields: seq<FieldKind>, s: seq<byte>)
    requires Lawful(fs) && DecodeFields(fs, fields, s).Ok?
    ensures Matches(fs, fields, DecodeFields(fs, fields, s).value.value)
    decreases |fields|
  {
    if fields != [] {
      var p := fs(fields[0]).read(s).value;
      assert Implements(fields[0], fs(fields[0]));
      DecodeFieldsMatches(fs, fields[1..], p.rest);
      var vals := DecodeFields(fs, fields, s).value.value;
      assert vals[1..] == DecodeFields(fs, fields[1..], p.rest).value.value;
    }
  }

  /** What `read_packet` returns for a body. An ID other than the
      descriptor's is `UnexpectedPacket`; field errors propagate; fields
      that stop short of the end of the body are `FullPacketNotRead` with
      the body length and the cursor position. */
  function DecodeWith(fs: Table, d: Descriptor, body: PacketBody): (r: Result<seq<FieldValue>>)
    requires Lawful(fs)
    ensures body.id != d.id ==> r == Err(UnexpectedPacket(d.id, body.id))
    ensures r.Ok? ==> body.id == d.id && Matches(fs, d.fields, r.value)
    ensures r.Ok? ==> DecodeFields(fs, d.fields, body.body) == Ok(Parsed(r.value, []))
  {
    if body.id != d.id then Err(UnexpectedPacket(d.id, body.id))
    else
      var p :- DecodeFields(fs, d.fields, body.body);
      DecodeFieldsMatches(fs, d.fields, body.body);
      if p.rest != [] then Err(FullPacketNotRead(|body.body|, |body.body| - |p.rest|))
      else Ok(p.value)
  }

  lemma DecodeAfterFields(fs: Table, d: Descriptor, body: PacketBody, vals: seq<FieldValue>, rest: seq<byte>)
    requires Lawful(fs)
    requires body.id == d.id && DecodeFields(fs, d.fields, body.body) == Ok(Parsed(vals, rest))
    ensures DecodeWith(fs, d, body) ==
      if rest == [] then Ok(vals) else Err(FullPacketNotRead(|body.body|, |body.body| - |rest|))
  {
  }

  /** The fields' reads, as `read_packet`'s statements chain them: the
      values decoded so far in front of what the remaining fields give. */
  function Prepend(vals: seq<FieldValue>, r: Result<Parsed<seq<FieldValue>>>): Result<Parsed<seq<FieldValue>>>
  {
    if r.Err? then r else Ok(Parsed(vals + r.value.value, r.value.rest))
  }

  lemma PrependAssoc(a: seq<FieldValue>, b: seq<FieldValue>, r: Result<Parsed<seq<FieldValue>>>)
    ensures Prepend(a, Prepend(b, r)) == Prepend(a + b, r)
  {
    if r.Ok? {
      assert a + (b + r.value.value) == (a + b) + r.value.value;
    }
  }

  lemma PrependNothing(r: Result<Parsed<seq<FieldValue>>>)
    ensures Prepend([], r) == r
  {
    if r.Ok? {
      assert [] + r.value.value == r.value.value;
    }
  }

  /** One field statement of `read_packet`: an error ends the read, a
      value goes in front of what the remaining fields give. */
  lemma ReadStep(fs: Table, fields: seq<FieldKind>, i: nat, t: seq<byte>)
    requires Lawful(fs) && i < |fields|
    ensures fs(fields[i]).read(t).Err? ==> DecodeFields(fs, fields[i..], t) == Err(fs(fields[i]).read(t).error)
    ensures fs(fields[i]).read(t).Ok? ==> Suffix(fs(fields[i]).read(t).value.rest, t)
    ensures fs(fields[i]).read(t).Ok? ==>
      DecodeFields(fs, fields[i..], t) == Prepend([fs(fields[i]).read(t).value.value], DecodeFields(fs, fields[i + 1..], fs(fields[i]).read(t).value.rest))
  {
    var ks := fields[i..];
    assert ks[0] == fields[i] && ks[1..] == fields[i + 1..];
    assert Implements(ks[0], fs(ks[0]));
  }

  /** What a read leaves of the input from the cursor on is the input
      from a cursor further on. */
  lemma CursorAdvances(s: seq<byte>, position: nat, rest: seq<byte>)
    requires position <= |s| && Suffix(rest, s[position..])
    ensures position < |s| - |rest| <= |s| && s[|s| - |rest|..] == rest
  {
    assert s[position..][|s[position..]| - |rest|..] == s[|s| - |rest|..];
  }

  /** The field statements of `read_packet`: each field read at the
      cursor, which then moves past it. */
  method ReadFields(fs: Table, fields: seq<FieldKind>, s: seq<byte>) returns (r: Result<Parsed<seq<FieldValue>>>)
    requires Lawful(fs)
    ensures r == DecodeFields(fs, fields, s)
  {
    var position: nat := 0;
    var vals: seq<FieldValue> := [];
    var i := 0;
    assert fields[0..] == fields && s[0..] == s;
    PrependNothing(DecodeFields(fs, fields, s));
    while i < |fields|
      invariant 0 <= i <= |fields| && position <= |s|
      invariant DecodeFields(fs, fields, s) == Prepend(vals, DecodeFields(fs, fields[i..], s[position..]))
      decreases |fields| - i
    {
      var t := s[position..];
      var field := fs(fields[i]).read(t);
      ReadStep(fs, fields, i, t);
      if field.Err? {
        return Err(field.error);
      }
      var rest := field.value.rest;
      PrependAssoc(vals, [field.value.value], DecodeFields(fs, fields[i + 1..], rest));
      CursorAdvances(s, position, rest);
      vals := vals + [field.value.value];
      position := |s| - |rest|;
      i := i + 1;
    }
    assert fields[i..] == [];
    assert vals + [] == vals;
    r := Ok(Parsed(vals, s[position..]));
  }

  /** `read_packet`: the ID check, the fields, then the cursor position
      against the body length. */
  method ReadPacket(fs: Table, d: Descriptor, body: PacketBody) returns (r: Result<seq<FieldValue>>)
    requires Lawful(fs)
    ensures r == DecodeWith(fs, d, body)
  {
    if body.id != d.id {
      return Err(UnexpectedPacket(d.id, body.id));
    }
    var p :- ReadFields(fs, d.fields, body.body);
    DecodeAfterFields(fs, d, body, p.value, p.rest);
    var position := |body.body| - |p.rest|;
    if position != |body.body| {
      return Err(FullPacketNotRead(|body.body|, position));
    }
    r := Ok(p.value);
  }

  // ---------------------------------------------------------------------
  // Writing

  function EncodeFields(fs: Table, vals: seq<FieldValue>): seq<byte>
    requires Callable(fs) && AllValid(fs, vals)
  {
    if vals == [] then [] else WriteField(fs, vals[0]) + EncodeFields(fs, vals[1..])
  }

  function FieldsSize(fs: Table, vals: seq<FieldValue>): nat
    requires Callable(fs) && AllValid(fs, vals)
  {
    if vals == [] then 0 else FieldSize(fs, vals[0]) + FieldsSize(fs, vals[1..])
  }

  /** The `len` `write_packet` computes: the ID VarInt's size and each
      field's size. */
  function Length(fs: Table, id: i32, vals: seq<FieldValue>): nat
    requires Callable(fs) && AllValid(fs, vals)
  {
    VarInt.Size(VarInt.FromValue(id)) + FieldsSize(fs, vals)
  }

  /** What `write_packet` emits: `VarInt(len as i32)`, `VarInt(ID)`, then
      each field in declaration order. */
  function EncodeWith(fs: Table, id: i32, vals: seq<FieldValue>): seq<byte>
    requires Callable(fs) && AllValid(fs, vals)
  {
    VarInt.Encode(WrapI32(Length(fs, id, vals))) + VarInt.Encode(id) + EncodeFields(fs, vals)
  }

  /** `write_packet`: `len` accumulated field by field, then the writes. */
  method WritePacket(fs: Table, id: i32, vals: seq<FieldValue>) returns (out: seq<byte>)
    requires Callable(fs) && AllValid(fs, vals)
    ensures out == EncodeWith(fs, id, vals)
  {
    var packetId := VarInt.New(id);
    var len := VarInt.Size(packetId);
    var i := 0;
    while i < |vals|
      invariant 0 <= i <= |vals| && AllValid(fs, vals[i..])
      invariant len + FieldsSize(fs, vals[i..]) == Length(fs, id, vals)
      decreases |vals| - i
    {
      assert vals[i..][1..] == vals[i + 1..];
      len := len + FieldSize(fs, vals[i]);
      i := i + 1;
    }
    var lenField := VarInt.New(WrapI32(len));
    out := VarInt.Bytes(lenField) + VarInt.Bytes(packetId);
    i := 0;
    while i < |vals|
      invariant 0 <= i <= |vals| && AllValid(fs, vals[i..])
      invariant out + EncodeFields(fs, vals[i..]) == EncodeWith(fs, id, vals)
      decreases |vals| - i
    {
      assert vals[i..][1..] == vals[i + 1..];
      out := out + WriteField(fs, vals[i]);
      i := i + 1;
    }
    assert vals[i..] == [];
  }

  // ---------------------------------------------------------------------
  // Reading what was written

  lemma {:induction false} DecodeEncodeFields(fs: Table, fields: seq<FieldKind>, vals: seq<FieldValue>, rest: seq<byte>)
    requires Lawful(fs) && Matches(fs, fields, vals)
    ensures AllValid(fs, vals)
    ensures DecodeFields(fs, fields, EncodeFields(fs, vals) + rest) == Ok(Parsed(vals, rest))
    decreases |vals|
  {
    MatchesAllValid(fs, fields, vals);
    if vals != [] {
      var s := EncodeFields(fs, vals) + rest;
      var tail := EncodeFields(fs, vals[1..]) + rest;
      assert s == WriteField(fs, vals[0]) + tail;
      assert Implements(fields[0], fs(fields[0]));
      assert fs(fields[0]).read(s) == Ok(Parsed(vals[0], tail));
      DecodeEncodeFields(fs, fields[1..], vals[1..], rest);
      assert [vals[0]] + vals[1..] == vals;
    } else {
      assert EncodeFields(fs, vals) + rest == rest;
    }
  }

  /** A body that is exactly the fields' encoding reads back as those
      fields. */
  lemma DecodeRoundTrip(fs: Table, d: Descriptor, vals: seq<FieldValue>)
    requires Lawful(fs) && Matches(fs, d.fields, vals)
    ensures AllValid(fs, vals)
    ensures DecodeWith(fs, d, PacketBody(d.id, EncodeFields(fs, vals))) == Ok(vals)
  {
    DecodeEncodeFields(fs, d.fields, vals, []);
    assert EncodeFields(fs, vals) + [] == EncodeFields(fs, vals);
    DecodeAfterFields(fs, d, PacketBody(d.id, EncodeFields(fs, vals)), vals, []);
  }

  /** Trailing bytes after the fields fail with `FullPacketNotRead`, the
      cursor standing at the end of the fields. */
  lemma TrailingBytesRejected(fs: Table, d: Descriptor, vals: seq<FieldValue>, extra: seq<byte>)
    requires Lawful(fs) && Matches(fs, d.fields, vals) && extra != []
    ensures AllValid(fs, vals)
    ensures DecodeWith(fs, d, PacketBody(d.id, EncodeFields(fs, vals) + extra)) ==
      Err(FullPacketNotRead(|EncodeFields(fs, vals)| + |extra|, |EncodeFields(fs, vals)|))
  {
    DecodeEncodeFields(fs, d.fields, vals, extra);
    var body := PacketBody(d.id, EncodeFields(fs, vals) + extra);
    DecodeAfterFields(fs, d, body, vals, extra);
    assert |body.body| == |EncodeFields(fs, vals)| + |extra|;
  }

  lemma {:induction false} FieldsSizeIsEncoded(fs: Table, vals: seq<FieldValue>)
    requires Lawful(fs) && AllValid(fs, vals)
    ensures FieldsSize(fs, vals) == |EncodeFields(fs, vals)|
    decreases |vals|
  {
    if vals != [] {
      assert Implements(KindOf(vals[0]), fs(KindOf(vals[0])));
      FieldsSizeIsEncoded(fs, vals[1..]);
    }
  }

  /** The length prefix counts exactly the bytes after it (ID and fields)
      whenever it fits in an i32. */
  lemma LengthCountsBody(fs: Table, id: i32, vals: seq<FieldValue>)
    requires Lawful(fs) && AllValid(fs, vals)
    requires Length(fs, id, vals) < TWO_31
    ensures EncodeWith(fs, id, vals) ==
      VarInt.Encode(Length(fs, id, vals)) + (VarInt.Encode(id) + EncodeFields(fs, vals))
    ensures |VarInt.Encode(id) + EncodeFields(fs, vals)| == Length(fs, id, vals)
  {
    FieldsSizeIsEncoded(fs, vals);
  }

  // ---------------------------------------------------------------------
  // Building field lists one value at a time

  lemma {:induction false} MatchesAt(fs: Table, fields: seq<FieldKind>, vals: seq<FieldValue>, i: nat)
    requires Matches(fs, fields, vals) && i < |fields|
    ensures |vals| == |fields| && KindOf(vals[i]) == fields[i] && ValidValue(fs, vals[i])
    decreases i
  {
    if i > 0 {
      MatchesAt(fs, fields[1..], vals[1..], i - 1);
    }
  }

  /** `vals` matches `fields` when every value is of the kind listed at
      its position and valid. */
  lemma {:induction false} MatchesPointwise(fs: Table, fields: seq<FieldKind>, vals: seq<FieldValue>)
    requires |vals| == |fields|
    requires forall i :: 0 <= i < |vals| ==> KindOf(vals[i]) == fields[i] && ValidValue(fs, vals[i])
    ensures Matches(fs, fields, vals)
    decreases |vals|
  {
    if vals != [] {
      assert forall i :: 0 <= i < |vals| - 1 ==> vals[1..][i] == vals[i + 1];
      MatchesPointwise(fs, fields[1..], vals[1..]);
    }
  }

  lemma MatchesCons(fs: Table, k: FieldKind, ks: seq<FieldKind>, v: FieldValue, vals: seq<FieldValue>)
    requires KindOf(v) == k && ValidValue(fs, v) && Matches(fs, ks, vals)
    ensures Matches(fs, [k] + ks, [v] + vals)
  {
    assert ([k] + ks)[1..] == ks;
    assert ([v] + vals)[1..] == vals;
  }

  lemma FieldsCons(fs: Table, v: FieldValue, vals: seq<FieldValue>)
    requires Callable(fs) && ValidValue(fs, v) && AllValid(fs, vals)
    ensures AllValid(fs, [v] + vals)
    ensures FieldsSize(fs, [v] + vals) == FieldSize(fs, v) + FieldsSize(fs, vals)
    ensures EncodeFields(fs, [v] + vals) == WriteField(fs, v) + EncodeFields(fs, vals)
  {
    assert ([v] + vals)[1..] == vals;
  }

  lemma {:induction false} FieldsAppend(fs: Table, a: seq<FieldValue>, b: seq<FieldValue>)
    requires Callable(fs) && AllValid(fs, a) && AllValid(fs, b)
    ensures AllValid(fs, a + b)
    ensures FieldsSize(fs, a + b) == FieldsSize(fs, a) + FieldsSize(fs, b)
    decreases |a|
  {
    if a != [] {
      assert (a + b)[1..] == a[1..] + b;
      FieldsAppend(fs, a[1..], b);
    } else {
      assert a + b == b;
    }
  }

  // ---------------------------------------------------------------------
  // With the repository's field types

  lemma ImplCallable()
    ensures Callable(Impl)
  {
    ImplLawful();
  }

  /** What the generated `read_packet` returns for a body. */
  function Decode(d: Descriptor, body: PacketBody): (r: Result<seq<FieldValue>>)
    ensures body.id != d.id ==> r == Err(UnexpectedPacket(d.id, body.id))
    ensures r.Ok? ==> body.id == d.id && Matches(Impl, d.fields, r.value)
  {
    ImplLawful();
    DecodeWith(Impl, d, body)
  }

  /** The sum of the fields' `size()`. */
  function BodySize(vals: seq<FieldValue>): nat
    requires AllValid(Impl, vals)
  {
    ImplLawful();
    FieldsSize(Impl, vals)
  }

  /** The fields as `write_packet` emits them after the two prefixes;
      their sizes add up to its length. */
  function EncodeBody(vals: seq<FieldValue>): (bs: seq<byte>)
    requires AllValid(Impl, vals)
    ensures |bs| == BodySize(vals)
  {
    ImplLawful();
    FieldsSizeIsEncoded(Impl, vals);
    EncodeFields(Impl, vals)
  }

  /** What the generated `write_packet` emits. */
  function Encode(id: i32, vals: seq<FieldValue>): seq<byte>
    requires AllValid(Impl, vals)
  {
    ImplLawful();
    EncodeWith(Impl, id, vals)
  }

  /** The body `write_packet` emits reads back as the same values. */
  lemma RoundTrip(d: Descriptor, vals: seq<FieldValue>)
    requires Matches(Impl, d.fields, vals)
    ensures AllValid(Impl, vals)
    ensures Decode(d, PacketBody(d.id, EncodeBody(vals))) == Ok(vals)
  {
    ImplLawful();
    DecodeRoundTrip(Impl, d, vals);
    EncodeBodyIsFields(vals);
    DecodeIsWith(d, PacketBody(d.id, EncodeFields(Impl, vals)));
  }

  lemma EncodeBodyIsFields(vals: seq<FieldValue>)
    requires AllValid(Impl, vals)
    ensures Lawful(Impl) && EncodeBody(vals) == EncodeFields(Impl, vals)
  {
    ImplLawful();
  }

  lemma DecodeIsWith(d: Descriptor, body: PacketBody)
    ensures Lawful(Impl) && Decode(d, body) == DecodeWith(Impl, d, body)
  {
    ImplLawful();
  }

  /** The packet's frame: its length prefix counts exactly the ID's and
      the fields' bytes that follow it. */
  lemma Framed(id: i32, vals: seq<FieldValue>)
    requires AllValid(Impl, vals)
    requires VarInt.Size(VarInt.FromValue(id)) + BodySize(vals) < TWO_31
    ensures Encode(id, vals) ==
      VarInt.Encode(|VarInt.Encode(id) + EncodeBody(vals)|) + (VarInt.Encode(id) + EncodeBody(vals))
  {
    ImplLawful();
    LengthCountsBody(Impl, id, vals);
  }

  predicate HasByteArray(vals: seq<FieldValue>)
  {
    vals != [] && (vals[0].ByteArrayValue? || HasByteArray(vals[1..]))
  }

  /** `gs` holds the values `fs` holds and reports sizes no larger, and
      strictly smaller for byte arrays. */
  ghost predicate Undercounts(gs: Table, fs: Table)
    requires Callable(gs) && Callable(fs)
  {
    && (forall k, v :: gs(k).valid(v) == fs(k).valid(v))
    && (forall k, v :: fs(k).valid(v) ==> gs(k).size(v) <= fs(k).size(v))
    && (forall v :: fs(ByteArrayKind).valid(v) ==> gs(ByteArrayKind).size(v) < fs(ByteArrayKind).size(v))
  }

  lemma {:induction false} FieldsSizeUndercount(gs: Table, fs: Table, vals: seq<FieldValue>)
    requires Callable(gs) && Callable(fs) && Undercounts(gs, fs) && AllValid(fs, vals)
    ensures AllValid(gs, vals)
    ensures FieldsSize(gs, vals) <= FieldsSize(fs, vals)
    ensures HasByteArray(vals) ==> FieldsSize(gs, vals) < FieldsSize(fs, vals)
    decreases |vals|
  {
    if vals != [] {
      FieldsSizeUndercount(gs, fs, vals[1..]);
    }
  }

  /** The byte array's `size()` as written undercounts, every other size
      is the same. */
  lemma AsWrittenUndercounts()
    ensures Callable(Impl) && Callable(ImplAsWritten) && Undercounts(ImplAsWritten, Impl)
  {
    ImplAsWrittenBreaksSize();
    ImplLawful();
    forall k, v | Impl(k).valid(v)
      ensures ImplAsWritten(k).size(v) <= Impl(k).size(v)
    {
      if k == ByteArrayKind {
        BA.SizeAsWrittenShort(v.bytes);
      }
    }
    forall v | Impl(ByteArrayKind).valid(v)
      ensures ImplAsWritten(ByteArrayKind).size(v) < Impl(ByteArrayKind).size(v)
    {
      BA.SizeAsWrittenShort(v.bytes);
    }
  }

  /** As written, a packet with a byte array field announces fewer bytes
      than follow its length prefix. */
  lemma LengthAsWrittenShort(id: i32, vals: seq<FieldValue>)
    requires AllValid(Impl, vals) && HasByteArray(vals)
    ensures Lawful(Impl) && Callable(ImplAsWritten) && AllValid(ImplAsWritten, vals)
    ensures Length(ImplAsWritten, id, vals) < Length(Impl, id, vals)
    ensures Length(ImplAsWritten, id, vals) < |VarInt.Encode(id) + EncodeFields(Impl, vals)|
  {
    AsWrittenUndercounts();
    FieldsSizeUndercount(ImplAsWritten, Impl, vals);
    ImplLawful();
    FieldsSizeIsEncoded(Impl, vals);
  }
}
