/** The fixed-width fields: `ShortField`, `UShortField`, `IntField`,
    `LongField` and `UByteField` of mc/src/field/primitive.rs, the separate
    `LongField` of mc/src/field/long.rs and `UShortField` of
    mc/src/field/ushort.rs. Each is one big-endian conversion of a two's
    complement or unsigned integer; `BoolField` is one byte. */
module Numeric {
  import opened Base

  datatype IntKind = Short | UShort | Int | Long | UByte

  /** `size()`: `size_of` the Rust integer type. */
  function Width(k: IntKind): (w: nat)
    ensures 1 <= w <= 8
  {
    match k
    case Short => 2
    case UShort => 2
    case Int => 4
    case Long => 8
    case UByte => 1
  }

  predicate Signed(k: IntKind)
  {
    k == Short || k == Int || k == Long
  }

  function Pow256(n: nat): (p: nat)
    ensures p >= 1
  {
    if n == 0 then 1 else 256 * Pow256(n - 1)
  }

  /** 2^(8 * Width(k)), the number of bit patterns of the type. */
  function Modulus(k: IntKind): (m: nat)
    ensures m == Pow256(Width(k))
  {
    match k
    case Short => 0x1_0000
    case UShort => 0x1_0000
    case Int => assert Pow256(2) == 0x1_0000; TWO_32
    case Long => assert Pow256(4) == TWO_32; TWO_64
    case UByte => 0x100
  }

  /** The values of the Rust type behind `k`. */
  predicate InRange(k: IntKind, v: int)
  {
    var half: int := Modulus(k) / 2;
    if Signed(k) then -half <= v < half else 0 <= v < Modulus(k)
  }

  /** The unsigned bit pattern of `v`. */
  function Bits(k: IntKind, v: int): (u: nat)
    requires InRange(k, v)
    ensures u < Modulus(k)
  {
    if v < 0 then v + Modulus(k) else v
  }

  /** The value of the bit pattern `u` in the Rust type behind `k`. */
  function FromBits(k: IntKind, u: nat): (v: int)
    requires u < Modulus(k)
    ensures InRange(k, v) && Bits(k, v) == u
  {
    if Signed(k) && u >= Modulus(k) / 2 then u - Modulus(k) else u
  }

  /** The `w` bytes of `u mod 256^w`, most significant first. */
  function BeBytes(w: nat, u: nat): (bs: seq<byte>)
    ensures |bs| == w
  {
    if w == 0 then [] else BeBytes(w - 1, u / 256) + [u % 256]
  }

  /** The number the bytes spell, most significant first. */
  function BeValue(bs: seq<byte>): nat
  {
    if bs == [] then 0 else 256 * BeValue(bs[..|bs| - 1]) + bs[|bs| - 1]
  }

  lemma {:induction false} BeValueBound(bs: seq<byte>)
    ensures BeValue(bs) < Pow256(|bs|)
  {
    if bs != [] {
      BeValueBound(bs[..|bs| - 1]);
    }
  }

  /** Reading a big-endian number inverts writing it. */
  lemma {:induction false} BeValueOfBytes(w: nat, u: nat)
    requires u < Pow256(w)
    ensures BeValue(BeBytes(w, u)) == u
  {
    if w > 0 {
      var bs := BeBytes(w, u);
      assert bs[..w - 1] == BeBytes(w - 1, u / 256);
      BeValueOfBytes(w - 1, u / 256);
    }
  }

  /** Writing the number a run of bytes spells gives the same bytes. */
  lemma {:induction false} BeBytesOfValue(bs: seq<byte>)
    ensures BeBytes(|bs|, BeValue(bs)) == bs
  {
    if bs != [] {
      var init := bs[..|bs| - 1];
      BeBytesOfValue(init);
      BeValueBound(init);
      assert (256 * BeValue(init) + bs[|bs| - 1]) / 256 == BeValue(init);
      assert bs == init + [bs[|bs| - 1]];
    }
  }

  /** `write`: the big-endian bytes of `v`. */
  function Encode(k: IntKind, v: int): (bs: seq<byte>)
    requires InRange(k, v)
    ensures |bs| == Width(k)
  {
    BeBytes(Width(k), Bits(k, v))
  }

  /** `read`: the first `Width(k)` bytes as a big-endian value; shorter
      input is an `Io` error. */
  function Decode(k: IntKind, s: seq<byte>): (r: Result<Parsed<int>>)
    ensures r.Ok? <==> |s| >= Width(k)
    ensures r.Ok? ==> InRange(k, r.value.value) && r.value.rest == s[Width(k)..]
    ensures r.Err? ==> r.error == Io
  {
    if |s| < Width(k) then Err(Io)
    else
      BeValueBound(s[..Width(k)]);
      Ok(Parsed(FromBits(k, BeValue(s[..Width(k)])), s[Width(k)..]))
  }

  /** `read(write(v)) == v`, and the bytes after the field are left for
      the next field. */
  lemma RoundTrip(k: IntKind, v: int, rest: seq<byte>)
    requires InRange(k, v)
    ensures Decode(k, Encode(k, v) + rest) == Ok(Parsed(v, rest))
  {
    var s := Encode(k, v) + rest;
    assert s[..Width(k)] == Encode(k, v);
    assert s[Width(k)..] == rest;
    BeValueOfBytes(Width(k), Bits(k, v));
  }

  /** The other direction: whatever `read` accepts, `write` reproduces
      byte for byte. */
  lemma EncodeDecoded(k: IntKind, s: seq<byte>)
    requires |s| >= Width(k)
    ensures Encode(k, Decode(k, s).value.value) + Decode(k, s).value.rest == s
  {
    var head := s[..Width(k)];
    BeValueBound(head);
    BeBytesOfValue(head);
    assert s == head + s[Width(k)..];
  }

  /** The sizes of the integer fields. */
  lemma Sizes()
    ensures Width(Short) == 2 && Width(UShort) == 2 && Width(Int) == 4
    ensures Width(Long) == 8 && Width(UByte) == 1
    ensures Pow256(2) == 0x1_0000 && Pow256(4) == TWO_32 && Pow256(8) == TWO_64
  {
  }

  /** Big-endian, two's complement byte patterns. */
  lemma Examples()
    ensures Encode(Int, -1) == [0xff, 0xff, 0xff, 0xff]
    ensures Encode(Short, 0x102) == [0x01, 0x02]
    ensures Encode(Long, 1) == [0, 0, 0, 0, 0, 0, 0, 1]
    ensures Encode(UByte, 0xab) == [0xab]
  {
  }

  /** `UShortField::read` (ushort.rs) consumes exactly two bytes and forms
      `s[0] * 256 + s[1]`; the rest is left unread. */
  lemma UShortRead(s: seq<byte>)
    ensures |s| < 2 ==> Decode(UShort, s) == Err(Io)
    ensures |s| >= 2 ==> Decode(UShort, s) == Ok(Parsed(s[0] as int * 256 + s[1] as int, s[2..]))
  {
    if |s| >= 2 {
      var h := s[..2];
      assert h[..1] == [s[0]];
      assert BeValue([s[0]]) == s[0] by { assert [s[0]][..0] == []; }
    }
  }

  /** `UByteField`: one raw byte, read back unchanged. */
  lemma UByteRaw(b: byte, rest: seq<byte>)
    ensures Encode(UByte, b) == [b]
    ensures Decode(UByte, [b] + rest) == Ok(Parsed(b, rest))
  {
    assert [b][..0] == [];
    RoundTrip(UByte, b, rest);
  }

  // ---------------------------------------------------------------------
  // BoolField

  /** `BoolField::write`: `b as u8`. */
  function EncodeBool(b: bool): (bs: seq<byte>)
    ensures |bs| == 1 && (bs[0] == 0 || bs[0] == 1)
    ensures bs[0] == 1 <==> b
  {
    [if b then 1 else 0]
  }

  /** `BoolField::read`: byte 1 is true, every other byte false. */
  function DecodeBool(s: seq<byte>): (r: Result<Parsed<bool>>)
    ensures r.Ok? <==> |s| >= 1
    ensures r.Ok? ==> (r.value.value <==> s[0] == 1) && r.value.rest == s[1..]
    ensures r.Err? ==> r.error == Io
  {
    if |s| == 0 then Err(Io) else Ok(Parsed(s[0] == 1, s[1..]))
  }

  lemma BoolRoundTrip(b: bool, rest: seq<byte>)
    ensures DecodeBool(EncodeBool(b) + rest) == Ok(Parsed(b, rest))
  {
    assert (EncodeBool(b) + rest)[1..] == rest;
  }

  /** There is no bad-bool error: byte 2 reads as false, and does not come
      back from `write`. */
  lemma BoolReadIsLenient()
    ensures DecodeBool([2]) == Ok(Parsed(false, []))
    ensures EncodeBool(DecodeBool([2]).value.value) != [2]
  {
  }
}
