/** The field types a packet is made of (mc/src/field/), each behind the
    `Field` trait: `size`, `read` and `write`. The packet code generated by
    the derive macro calls fields only through this trait, so it is
    modelled over a table of implementations, one per field kind, that
    keeps the trait's contract (`Lawful`); `Impl` is the table of the
    repository's field types and is proved lawful. */
module Fields {
  import opened Base
  import VarInt
  import Numeric
  import SF = StringField
  import BA = ByteArray
  import Position

  datatype FieldKind =
    | VarIntKind
    | StringKind
    | ChatKind
    | IntegerKind(width: Numeric.IntKind)
    | BoolKind
    | ByteArrayKind
    | PositionKind

  datatype FieldValue =
    | VarIntValue(varint: VarInt.VarIntField)
    | StringValue(str: SF.StringField)
    | ChatValue(chat: SF.ChatField)
    | IntegerValue(kind: Numeric.IntKind, n: int)
    | BoolValue(b: bool)
    | ByteArrayValue(bytes: BA.ByteArrayField)
    | PositionValue(pos: Position.Position)

  function KindOf(v: FieldValue): FieldKind
  {
    match v
    case VarIntValue(_) => VarIntKind
    case StringValue(_) => StringKind
    case ChatValue(_) => ChatKind
    case IntegerValue(k, _) => IntegerKind(k)
    case BoolValue(_) => BoolKind
    case ByteArrayValue(_) => ByteArrayKind
    case PositionValue(_) => PositionKind
  }

  /** `rest` is what is left of `s` after at least one byte was read. */
  predicate Suffix(rest: seq<byte>, s: seq<byte>)
  {
    |rest| < |s| && rest == s[|s| - |rest|..]
  }

  /** A `Field` implementation: the values it holds, and its `size`,
      `read` and `write`. */
  datatype FieldImpl = FieldImpl(
    valid: FieldValue -> bool,
    size: FieldValue --> nat,
    read: seq<byte> -> Result<Parsed<FieldValue>>,
    write: FieldValue --> seq<byte>)

  /** The implementation the generated code calls for each field kind. */
  type Table = FieldKind -> FieldImpl

  /** `size` and `write` are defined on every value the implementation
      holds. */
  ghost predicate Callable(fs: Table)
  {
    forall k, v :: fs(k).valid(v) ==> fs(k).size.requires(v) && fs(k).write.requires(v)
  }

  /** The `Field` contract for kind `k`: values are of kind `k`; `size` is
      the number of bytes `write` emits; `read` gives back what `write`
      wrote and leaves what follows; and a successful `read` consumes at
      least one byte and yields a value the implementation holds. */
  ghost predicate Implements(k: FieldKind, i: FieldImpl)
  {
    && (forall v :: i.valid(v) ==> KindOf(v) == k && i.size.requires(v) && i.write.requires(v))
    && (forall v :: i.valid(v) ==> i.size(v) == |i.write(v)|)
    && (forall v, rest :: i.valid(v) ==> i.read(i.write(v) + rest) == Ok(Parsed(v, rest)))
    && (forall s :: i.read(s).Ok? ==> i.valid(i.read(s).value.value) && Suffix(i.read(s).value.rest, s))
  }

  ghost predicate Lawful(fs: Table)
  {
    Callable(fs) && forall k :: Implements(k, fs(k))
  }

  // ---------------------------------------------------------------------
  // The repository's field types

  predicate ValidVarInt(v: FieldValue)
  {
    v.VarIntValue? && VarInt.Valid(v.varint)
  }

  function SizeVarInt(v: FieldValue): nat
    requires ValidVarInt(v)
  {
    VarInt.Size(v.varint)
  }

  function ReadVarInt(s: seq<byte>): Result<Parsed<FieldValue>>
  {
    var p :- VarInt.Decode(s);
    Ok(Parsed(VarIntValue(p.value), p.rest))
  }

  function WriteVarInt(v: FieldValue): seq<byte>
    requires ValidVarInt(v)
  {
    VarInt.Bytes(v.varint)
  }

  predicate ValidString(v: FieldValue)
  {
    v.StringValue? && SF.Valid(v.str)
  }

  function SizeString(v: FieldValue): nat
    requires ValidString(v)
  {
    SF.Size(v.str)
  }

  function ReadString(s: seq<byte>): Result<Parsed<FieldValue>>
  {
    var p :- SF.Read(s);
    Ok(Parsed(StringValue(p.value), p.rest))
  }

  function WriteString(v: FieldValue): seq<byte>
    requires ValidString(v)
  {
    SF.Write(v.str)
  }

  predicate ValidChat(v: FieldValue)
  {
    v.ChatValue? && SF.Valid(v.chat.inner)
  }

  function SizeChat(v: FieldValue): nat
    requires ValidChat(v)
  {
    SF.ChatSize(v.chat)
  }

  function ReadChat(s: seq<byte>): Result<Parsed<FieldValue>>
  {
    var p :- SF.ChatRead(s);
    Ok(Parsed(ChatValue(p.value), p.rest))
  }

  function WriteChat(v: FieldValue): seq<byte>
    requires ValidChat(v)
  {
    SF.ChatWrite(v.chat)
  }

  /** An integer of width `w` in the range of its Rust type. */
  predicate ValidInteger(w: Numeric.IntKind, v: FieldValue)
  {
    v.IntegerValue? && v.kind == w && Numeric.InRange(w, v.n)
  }

  function SizeInteger(v: FieldValue): nat
    requires v.IntegerValue? && ValidInteger(v.kind, v)
  {
    Numeric.Width(v.kind)
  }

  function ReadInteger(w: Numeric.IntKind, s: seq<byte>): Result<Parsed<FieldValue>>
  {
    var p :- Numeric.Decode(w, s);
    Ok(Parsed(IntegerValue(w, p.value), p.rest))
  }

  function WriteInteger(v: FieldValue): seq<byte>
    requires v.IntegerValue? && ValidInteger(v.kind, v)
  {
    Numeric.Encode(v.kind, v.n)
  }

  predicate ValidBool(v: FieldValue)
  {
    v.BoolValue?
  }

  function SizeBool(v: FieldValue): nat
    requires ValidBool(v)
  {
    1
  }

  function ReadBool(s: seq<byte>): Result<Parsed<FieldValue>>
  {
    var p :- Numeric.DecodeBool(s);
    Ok(Parsed(BoolValue(p.value), p.rest))
  }

  function WriteBool(v: FieldValue): seq<byte>
    requires ValidBool(v)
  {
    Numeric.EncodeBool(v.b)
  }

  predicate ValidByteArray(v: FieldValue)
  {
    v.ByteArrayValue? && BA.Valid(v.bytes)
  }

  /** The byte array's size with its count prefix included. */
  function SizeByteArray(v: FieldValue): nat
    requires ValidByteArray(v)
  {
    BA.Size(v.bytes)
  }

  /** The byte array's `size()` as written: the count alone. */
  function SizeByteArrayAsWritten(v: FieldValue): nat
    requires ValidByteArray(v)
  {
    BA.SizeAsWritten(v.bytes)
  }

  function ReadByteArray(s: seq<byte>): Result<Parsed<FieldValue>>
  {
    var p :- BA.Read(s);
    Ok(Parsed(ByteArrayValue(p.value), p.rest))
  }

  function WriteByteArray(v: FieldValue): seq<byte>
    requires ValidByteArray(v)
  {
    BA.Write(v.bytes)
  }

  predicate ValidPosition(v: FieldValue)
  {
    v.PositionValue? && Position.InRange(v.pos)
  }

  function SizePosition(v: FieldValue): nat
    requires ValidPosition(v)
  {
    Position.Size(v.pos)
  }

  function ReadPosition(s: seq<byte>): Result<Parsed<FieldValue>>
  {
    var p :- Position.Read(s);
    Ok(Parsed(PositionValue(p.value), p.rest))
  }

  function WritePosition(v: FieldValue): seq<byte>
    requires ValidPosition(v)
  {
    Position.Write(v.pos)
  }

  /** The field types of the repository, with the byte array's size
      counting its prefix (see `ImplAsWritten`). */
  function Impl(k: FieldKind): FieldImpl
  {
    match k
    case VarIntKind => FieldImpl(ValidVarInt, SizeVarInt, ReadVarInt, WriteVarInt)
    case StringKind => FieldImpl(ValidString, SizeString, ReadString, WriteString)
    case ChatKind => FieldImpl(ValidChat, SizeChat, ReadChat, WriteChat)
    case IntegerKind(w) => FieldImpl(v => ValidInteger(w, v), SizeInteger, s => ReadInteger(w, s), WriteInteger)
    case BoolKind => FieldImpl(ValidBool, SizeBool, ReadBool, WriteBool)
    case ByteArrayKind => FieldImpl(ValidByteArray, SizeByteArray, ReadByteArray, WriteByteArray)
    case PositionKind => FieldImpl(ValidPosition, SizePosition, ReadPosition, WritePosition)
  }

  /** The same table with the byte array's `size()` as written. */
  function ImplAsWritten(k: FieldKind): FieldImpl
  {
    if k == ByteArrayKind then Impl(k).(size := SizeByteArrayAsWritten) else Impl(k)
  }

  lemma VarIntImplements()
    ensures Implements(VarIntKind, Impl(VarIntKind))
  {
    var i := Impl(VarIntKind);
    assert i == FieldImpl(ValidVarInt, SizeVarInt, ReadVarInt, WriteVarInt);
    forall v, rest | i.valid(v)
      ensures i.read(i.write(v) + rest) == Ok(Parsed(v, rest))
    {
      VarInt.DecodeValid(v.varint, rest);
    }
  }

  lemma StringImplements()
    ensures Implements(StringKind, Impl(StringKind))
  {
    var i := Impl(StringKind);
    assert i == FieldImpl(ValidString, SizeString, ReadString, WriteString);
    forall v | i.valid(v)
      ensures i.size(v) == |i.write(v)|
    {
      SF.SizeIsWritten(v.str);
    }
    forall v, rest | i.valid(v)
      ensures i.read(i.write(v) + rest) == Ok(Parsed(v, rest))
    {
      assert v.str == SF.New(v.str.value);
      SF.RoundTrip(v.str.value, rest);
    }
  }

  lemma ChatSizeIsWritten(v: FieldValue)
    requires ValidChat(v)
    ensures SizeChat(v) == |WriteChat(v)|
  {
    SF.SizeIsWritten(v.chat.inner);
  }

  lemma ChatRoundTrip(v: FieldValue, rest: seq<byte>)
    requires ValidChat(v)
    ensures ReadChat(WriteChat(v) + rest) == Ok(Parsed(v, rest))
  {
    assert v.chat.inner == SF.New(v.chat.inner.value);
    SF.RoundTrip(v.chat.inner.value, rest);
  }

  lemma ChatReadValid(s: seq<byte>)
    requires ReadChat(s).Ok?
    ensures ValidChat(ReadChat(s).value.value) && Suffix(ReadChat(s).value.rest, s)
  {
    var p := SF.Read(s).value;
    assert ReadChat(s) == Ok(Parsed(ChatValue(SF.ChatField(p.value)), p.rest));
  }

  lemma ChatImplements()
    ensures Implements(ChatKind, Impl(ChatKind))
  {
    var i := Impl(ChatKind);
    assert i == FieldImpl(ValidChat, SizeChat, ReadChat, WriteChat);
    forall v | i.valid(v)
      ensures i.size(v) == |i.write(v)|
    {
      ChatSizeIsWritten(v);
    }
    forall v, rest | i.valid(v)
      ensures i.read(i.write(v) + rest) == Ok(Parsed(v, rest))
    {
      ChatRoundTrip(v, rest);
    }
    forall s | i.read(s).Ok?
      ensures i.valid(i.read(s).value.value) && Suffix(i.read(s).value.rest, s)
    {
      ChatReadValid(s);
    }
  }

  lemma IntegerImplements(w: Numeric.IntKind)
    ensures Implements(IntegerKind(w), Impl(IntegerKind(w)))
  {
    var i := Impl(IntegerKind(w));
    forall v, rest | i.valid(v)
      ensures i.read(i.write(v) + rest) == Ok(Parsed(v, rest))
    {
      assert i.read(i.write(v) + rest) == ReadInteger(w, WriteInteger(v) + rest);
      Numeric.RoundTrip(w, v.n, rest);
    }
  }

  lemma BoolImplements()
    ensures Implements(BoolKind, Impl(BoolKind))
  {
    var i := Impl(BoolKind);
    assert i == FieldImpl(ValidBool, SizeBool, ReadBool, WriteBool);
    forall v, rest | i.valid(v)
      ensures i.read(i.write(v) + rest) == Ok(Parsed(v, rest))
    {
      Numeric.BoolRoundTrip(v.b, rest);
    }
  }

  lemma ByteArraySizeIsWritten(v: FieldValue)
    requires ValidByteArray(v)
    ensures SizeByteArray(v) == |WriteByteArray(v)|
  {
    BA.SizeAsWrittenShort(v.bytes);
  }

  lemma ByteArrayRoundTrip(v: FieldValue, rest: seq<byte>)
    requires ValidByteArray(v)
    ensures ReadByteArray(WriteByteArray(v) + rest) == Ok(Parsed(v, rest))
  {
    BA.RoundTrip(v.bytes, rest);
  }

  lemma ByteArrayReadSuffix(s: seq<byte>)
    requires ReadByteArray(s).Ok?
    ensures ValidByteArray(ReadByteArray(s).value.value) && Suffix(ReadByteArray(s).value.rest, s)
  {
    var p := BA.Read(s).value;
    assert s == BA.Write(p.value) + p.rest;
  }

  lemma ByteArrayImplements()
    ensures Implements(ByteArrayKind, Impl(ByteArrayKind))
  {
    var i := Impl(ByteArrayKind);
    assert i == FieldImpl(ValidByteArray, SizeByteArray, ReadByteArray, WriteByteArray);
    forall v | i.valid(v)
      ensures i.size(v) == |i.write(v)|
    {
      ByteArraySizeIsWritten(v);
    }
    forall v, rest | i.valid(v)
      ensures i.read(i.write(v) + rest) == Ok(Parsed(v, rest))
    {
      ByteArrayRoundTrip(v, rest);
    }
    forall s | i.read(s).Ok?
      ensures i.valid(i.read(s).value.value) && Suffix(i.read(s).value.rest, s)
    {
      ByteArrayReadSuffix(s);
    }
  }

  lemma PositionImplements()
    ensures Implements(PositionKind, Impl(PositionKind))
  {
    var i := Impl(PositionKind);
    assert i == FieldImpl(ValidPosition, SizePosition, ReadPosition, WritePosition);
    forall v, rest | i.valid(v)
      ensures i.read(i.write(v) + rest) == Ok(Parsed(v, rest))
    {
      Position.RoundTrip(v.pos, rest);
    }
  }

  /** Every field type of the repository keeps the `Field` contract. */
  lemma ImplLawful()
    ensures Lawful(Impl)
  {
    forall k
      ensures Implements(k, Impl(k))
    {
      match k
      case VarIntKind => VarIntImplements();
      case StringKind => StringImplements();
      case ChatKind => ChatImplements();
      case IntegerKind(w) => IntegerImplements(w);
      case BoolKind => BoolImplements();
      case ByteArrayKind => ByteArrayImplements();
      case PositionKind => PositionImplements();
    }
  }

  /** As written, the table is callable but breaks the contract: the byte
      array `[7, 9]` writes three bytes and reports a size of two. */
  lemma ImplAsWrittenBreaksSize()
    ensures Callable(ImplAsWritten)
    ensures ImplAsWritten(ByteArrayKind).size(ByteArrayValue(BA.New([7, 9]))) == 2
    ensures |ImplAsWritten(ByteArrayKind).write(ByteArrayValue(BA.New([7, 9])))| == 3
    ensures !Lawful(ImplAsWritten)
  {
    ImplLawful();
    BA.SizeCounterexample();
  }
}
