/** `VarIntThenByteArrayField` (mc/src/field/array.rs): raw bytes after a
    VarInt count. */
module ByteArray {
  import opened Base
  import VarInt

  datatype ByteArrayField = ByteArrayField(length: VarInt.VarIntField, contents: seq<byte>)

  /** A field whose count is a VarInt `read` or `new` can produce and
      equals the number of bytes held. */
  predicate Valid(f: ByteArrayField)
  {
    VarInt.Valid(f.length) && f.length.value == |f.contents|
  }

  /** A field holding `bytes` with the canonical count in front; the
      source builds its arrays by `read` only. */
  function New(bytes: seq<byte>): (f: ByteArrayField)
    requires |bytes| < TWO_31
    ensures Valid(f) && f.contents == bytes
  {
    ByteArrayField(VarInt.FromValue(|bytes|), bytes)
  }

  /** `size()` as written: only the count, without the VarInt in front. */
  function SizeAsWritten(f: ByteArrayField): nat
  {
    UsizeOf(f.length.value)
  }

  /** The number of bytes `write` emits. */
  function Size(f: ByteArrayField): nat
  {
    VarInt.Size(f.length) + UsizeOf(f.length.value)
  }

  /** `write`: the count's bytes, then the array. */
  function Write(f: ByteArrayField): seq<byte>
    requires f.length.byteCount <= |f.length.bytes|
  {
    VarInt.Bytes(f.length) + f.contents
  }

  /** `read`: a VarInt count, then exactly that many raw bytes; short
      input is an `Io` error, and so is a negative count (sign extended to
      at least 2^63 bytes by the source). */
  function Read(s: seq<byte>): (r: Result<Parsed<ByteArrayField>>)
    ensures r.Ok? ==> Valid(r.value.value)
    ensures r.Ok? ==> s == Write(r.value.value) + r.value.rest
    ensures r.Err? ==> r.error == Io || r.error == BadVarInt
  {
    var p :- VarInt.Decode(s);
    var len := p.value.value;
    if len < 0 || |p.rest| < len then Err(Io)
    else
      assert p.rest == p.rest[..len] + p.rest[len..];
      Ok(Parsed(ByteArrayField(p.value, p.rest[..len]), p.rest[len..]))
  }

  /** `read(write(f))` returns the same count and bytes when the count
      equals the array length. */
  lemma RoundTrip(f: ByteArrayField, rest: seq<byte>)
    requires Valid(f)
    ensures Read(Write(f) + rest) == Ok(Parsed(f, rest))
  {
    var s := Write(f) + rest;
    assert s == VarInt.Bytes(f.length) + (f.contents + rest);
    VarInt.DecodeValid(f.length, f.contents + rest);
    assert (f.contents + rest)[..|f.contents|] == f.contents;
    assert (f.contents + rest)[|f.contents|..] == rest;
  }

  /** `Size` counts what `write` emits; `size()` as written falls short of
      it by the size of the count, at least one byte. */
  lemma SizeAsWrittenShort(f: ByteArrayField)
    requires Valid(f)
    ensures Size(f) == |Write(f)|
    ensures SizeAsWritten(f) == |Write(f)| - VarInt.Size(f.length) < |Write(f)|
  {
  }

  /** A two-byte array is written as three bytes, but `size()` reports 2. */
  lemma SizeCounterexample()
    ensures Write(New([7, 9])) == [2, 7, 9]
    ensures SizeAsWritten(New([7, 9])) == 2
  {
    VarInt.TestVectors();
    assert VarInt.Encode(2) == [2];
  }

  /** Input shorter than the count is an `Io` error. */
  lemma ShortInput()
    ensures Read([3, 1, 2]) == Err(Io)
  {
    VarInt.TestVectors();
    assert VarInt.Encode(3) == [3];
    VarInt.RoundTrip(3, [1, 2]);
    assert [3, 1, 2] == VarInt.Encode(3) + [1, 2];
  }
}
