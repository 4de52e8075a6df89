/** `VarIntField` (mc/src/field/varint.rs): the protocol's variable-length
    integer. The u32 bits of an i32 are cut into 7-bit groups, least
    significant group first; every byte but the last carries the
    continuation bit 0x80. This is the byte layout of unsigned LEB128
    (section 7.6 of DWARF version 5), capped at five bytes. */
module VarInt {
  import opened Base

  /** 128^k, the weight of the k-th 7-bit group. */
  function Pow128(k: nat): (p: nat)
    ensures p >= 1
  {
    if k == 0 then 1 else 128 * Pow128(k - 1)
  }

  /** Unsigned LEB128 of `u`. */
  function Leb128(u: nat): seq<byte>
    decreases u
  {
    if u < 128 then [u] else [u % 128 + 128] + Leb128(u / 128)
  }

  /** The number the 7-bit groups of `bs` spell, least significant first
      (continuation bits are ignored). */
  function GroupValue(bs: seq<byte>): nat
  {
    if bs == [] then 0 else bs[0] % 128 + 128 * GroupValue(bs[1..])
  }

  /** The wire bytes of `v`: LEB128 of `v as u32`. */
  function Encode(v: i32): seq<byte>
  {
    Leb128(ToU32(v))
  }

  /** The field as the source stores it: the value, a five-byte buffer and
      how many of its bytes are in use. */
  datatype VarIntField = VarIntField(value: i32, bytes: seq<byte>, byteCount: nat)

  function Pad5(bs: seq<byte>): (r: seq<byte>)
    requires |bs| <= 5
    ensures |r| == 5 && r[..|bs|] == bs
    ensures forall i :: |bs| <= i < 5 ==> r[i] == 0
  {
    bs + Zeros(5 - |bs|)
  }

  /** What a field built by `new` or returned by `read` looks like: one to
      five bytes in use, the continuation bit on all of them but the last,
      the unused tail of the buffer zero, and the value the low 32 bits of
      the groups. Non-minimal encodings such as [80 00] are included. */
  predicate Valid(f: VarIntField)
  {
    && |f.bytes| == 5
    && 1 <= f.byteCount <= 5
    && (forall i :: 0 <= i < f.byteCount - 1 ==> f.bytes[i] >= 128)
    && f.bytes[f.byteCount - 1] < 128
    && (forall i :: f.byteCount <= i < 5 ==> f.bytes[i] == 0)
    && f.value == ToI32(GroupValue(f.bytes[..f.byteCount]) % TWO_32)
  }

  /** `size()`: the number of bytes in use. */
  function Size(f: VarIntField): nat
  {
    f.byteCount
  }

  /** `bytes()`: the bytes in use; `write` emits exactly these. */
  function Bytes(f: VarIntField): (r: seq<byte>)
    requires f.byteCount <= |f.bytes|
    ensures |r| == Size(f)
  {
    f.bytes[..f.byteCount]
  }

  // ---------------------------------------------------------------------
  // Properties of the encoding

  lemma {:induction false} Leb128Length(u: nat, k: nat)
    requires 1 <= k && u < Pow128(k)
    ensures 1 <= |Leb128(u)| <= k
    decreases u
  {
    if u >= 128 {
      assert k >= 2;
      Leb128Length(u / 128, k - 1);
    }
  }

  lemma {:induction false} Leb128Continuation(u: nat)
    ensures |Leb128(u)| >= 1
    ensures forall i :: 0 <= i < |Leb128(u)| - 1 ==> Leb128(u)[i] >= 128
    ensures Leb128(u)[|Leb128(u)| - 1] < 128
    decreases u
  {
    if u >= 128 {
      Leb128Continuation(u / 128);
    }
  }

  lemma {:induction false} Leb128Value(u: nat)
    ensures GroupValue(Leb128(u)) == u
    decreases u
  {
    if u >= 128 {
      Leb128Value(u / 128);
      assert Leb128(u)[1..] == Leb128(u / 128);
    }
  }

  lemma DivDiv(a: nat, b: nat, c: nat)
    requires b > 0 && c > 0
    ensures a / b / c == a / (b * c)
  {
    var q, r := a / b, a % b;
    var q2, r2 := q / c, q % c;
    assert a == b * q + r;
    assert q == c * q2 + r2;
    assert a == (b * c) * q2 + (b * r2 + r) by {
      assert b * q == b * (c * q2 + r2) == (b * c) * q2 + b * r2;
    }
    assert b * r2 <= b * (c - 1) by { MulMono(b, r2, c - 1); }
    assert b * (c - 1) == b * c - b;
    DivUnique(a, b * c, q2, b * r2 + r);
  }

  lemma {:induction false} Leb128Groups(u: nat, i: nat)
    requires i < |Leb128(u)|
    ensures Leb128(u)[i] % 128 == (u / Pow128(i)) % 128
    decreases u
  {
    if i > 0 {
      assert u >= 128;
      Leb128Groups(u / 128, i - 1);
      DivDiv(u, 128, Pow128(i - 1));
    }
  }

  /** `new(v)` uses one to five bytes; all but the last carry the
      continuation bit; byte `i` holds bits 7i..7i+6 of `v as u32`; and the
      groups spell `v as u32` back. */
  lemma EncodeShape(v: i32)
    ensures 1 <= |Encode(v)| <= 5
    ensures forall i :: 0 <= i < |Encode(v)| - 1 ==> Encode(v)[i] >= 128
    ensures Encode(v)[|Encode(v)| - 1] < 128
    ensures forall i :: 0 <= i < |Encode(v)| ==> Encode(v)[i] % 128 == (ToU32(v) / Pow128(i)) % 128
    ensures GroupValue(Encode(v)) == ToU32(v)
  {
    var u := ToU32(v);
    assert Pow128(5) == 0x8_0000_0000;
    Leb128Length(u, 5);
    Leb128Continuation(u);
    Leb128Value(u);
    forall i | 0 <= i < |Encode(v)|
      ensures Encode(v)[i] % 128 == (u / Pow128(i)) % 128
    {
      Leb128Groups(u, i);
    }
  }

  /** What `VarIntField::new(v)` builds. */
  function FromValue(v: i32): (f: VarIntField)
    ensures Valid(f) && f.value == v
    ensures Size(f) == |Bytes(f)| == |Encode(v)| && 1 <= Size(f) <= 5
    ensures Bytes(f) == Encode(v)
  {
    EncodeShape(v);
    var e := Encode(v);
    assert GroupValue(e) % TWO_32 == ToU32(v);
    VarIntField(v, Pad5(e), |e|)
  }

  /** The test vectors of varint.rs: each value encodes to these bytes. */
  lemma TestVectors()
    ensures Encode(0) == [0x00]
    ensures Encode(1) == [0x01]
    ensures Encode(127) == [0x7f]
    ensures Encode(128) == [0x80, 0x01]
    ensures Encode(255) == [0xff, 0x01]
  {
  }

  /** The five-byte test vectors: the largest value, -1 and the smallest
      value. */
  lemma MaxTestVector()
    ensures Encode(2147483647) == [0xff, 0xff, 0xff, 0xff, 0x07]
  {
    assert Leb128(0x3ff) == [0xff, 0x07];
    assert Leb128(0x1_ffff) == [0xff, 0xff, 0x07];
    assert Leb128(0xff_ffff) == [0xff, 0xff, 0xff, 0x07];
  }

  lemma MinusOneTestVector()
    ensures Encode(-1) == [0xff, 0xff, 0xff, 0xff, 0x0f]
  {
    assert ToU32(-1) == 0xffff_ffff;
    assert Leb128(0x7ff) == [0xff, 0x0f];
    assert Leb128(0x3_ffff) == [0xff, 0xff, 0x0f];
    assert Leb128(0x1ff_ffff) == [0xff, 0xff, 0xff, 0x0f];
  }

  lemma MinTestVector()
    ensures Encode(-2147483648) == [0x80, 0x80, 0x80, 0x80, 0x08]
  {
    assert ToU32(-2147483648) == 0x8000_0000;
  }

  /** A value below 128 is its own single byte. */
  lemma SmallEncode(v: i32)
    requires 0 <= v < 128
    ensures Encode(v) == [v as byte]
  {
  }

  /** The field `new` builds for a value below 128: that byte, padded. */
  lemma SmallField(v: i32)
    requires 0 <= v < 128
    ensures FromValue(v) == VarIntField(v, [v as byte, 0, 0, 0, 0], 1)
  {
    SmallEncode(v);
    assert Pad5([v as byte]) == [v as byte, 0, 0, 0, 0];
  }

  // ---------------------------------------------------------------------
  // Decoding

  /** The number of leading bytes of `s` that carry the continuation bit. */
  function ContinuationRun(s: seq<byte>): (n: nat)
    ensures n <= |s|
    ensures forall i :: 0 <= i < n ==> s[i] >= 128
    ensures n < |s| ==> s[n] < 128
  {
    if s == [] || s[0] < 128 then 0 else 1 + ContinuationRun(s[1..])
  }

  /** What `read` returns on input `s`: the field read from the front and
      the input left over.
      - A terminating byte (high bit clear) among the first five: the field
        holds exactly the bytes up to it, unchanged, and the low 32 bits of
        their groups as an i32.
      - The input ends before a terminating byte: `Io`.
      - The first five bytes all carry the continuation bit: `BadVarInt`
        once a sixth byte has been read, `Io` if there is none. The source
        indexes a five-byte buffer here; see `ReadAsWritten`. */
  function Decode(s: seq<byte>): (r: Result<Parsed<VarIntField>>)
    ensures r.Ok? ==> Valid(r.value.value) && s == Bytes(r.value.value) + r.value.rest
    ensures r.Err? ==> r.error == Io || (r.error == BadVarInt && |s| > 5)
  {
    var k := ContinuationRun(s);
    if k >= 5 then
      (if |s| > 5 then Err(BadVarInt) else Err(Io))
    else if k == |s| then
      Err(Io)
    else
      var b := s[..k + 1];
      var f := VarIntField(ToI32(GroupValue(b) % TWO_32), Pad5(b), k + 1);
      assert f.bytes[..f.byteCount] == b;
      assert s == b + s[k + 1..];
      Ok(Parsed(f, s[k + 1..]))
  }

  /** `read(write(f))` gives back `f` and leaves what follows untouched,
      for every field `new` or `read` can produce. */
  lemma DecodeValid(f: VarIntField, rest: seq<byte>)
    requires Valid(f)
    ensures Decode(Bytes(f) + rest) == Ok(Parsed(f, rest))
  {
    var s := Bytes(f) + rest;
    var k := ContinuationRun(s);
    assert s[f.byteCount - 1] < 128;
    assert k == f.byteCount - 1;
    assert s[..k + 1] == Bytes(f);
    assert s[k + 1..] == rest;
    assert Pad5(Bytes(f)) == f.bytes;
  }

  /** Round trip: `read` of `new(v).bytes()` yields `v` with the same bytes. */
  lemma RoundTrip(v: i32, rest: seq<byte>)
    ensures Decode(Encode(v) + rest) == Ok(Parsed(FromValue(v), rest))
    ensures Decode(Encode(v) + rest).value.value.value == v
  {
    DecodeValid(FromValue(v), rest);
  }

  /** `read` stops at the first byte with the high bit clear: [01 01 01]
      is three separate 1s. */
  lemma ReadStopsAtTerminator()
    ensures Decode([0x01, 0x01, 0x01]) == Ok(Parsed(FromValue(1), [0x01, 0x01]))
    ensures Decode([0x01, 0x01]) == Ok(Parsed(FromValue(1), [0x01]))
    ensures Decode([0x01]) == Ok(Parsed(FromValue(1), []))
  {
    TestVectors();
    assert [0x01, 0x01, 0x01] == Encode(1) + [0x01, 0x01];
    assert [0x01, 0x01] == Encode(1) + [0x01];
    assert [0x01] == Encode(1) + [];
    RoundTrip(1, [0x01, 0x01]);
    RoundTrip(1, [0x01]);
    RoundTrip(1, []);
  }

  /** A non-minimal encoding is accepted and its own bytes are kept:
      [80 00] reads as 0 with a byte count of 2. */
  lemma NonMinimalAccepted()
    ensures Decode([0x80, 0x00]).Ok?
    ensures Decode([0x80, 0x00]).value.value == VarIntField(0, [0x80, 0x00, 0, 0, 0], 2)
    ensures Decode([0x80, 0x00]).value.value != FromValue(0)
  {
    var s: seq<byte> := [0x80, 0x00];
    assert ContinuationRun(s) == 1;
    assert GroupValue(s) == 0 by {
      assert s[1..] == [0x00];
      assert GroupValue([0x00]) == 0 by { assert [0x00][1..] == []; }
    }
    TestVectors();
  }

  /** Five continuation bytes followed by anything give `BadVarInt`. */
  lemma OverlongRejected(s: seq<byte>)
    requires |s| > 5 && forall i :: 0 <= i < 5 ==> s[i] >= 128
    ensures Decode(s) == Err(BadVarInt)
  {
    assert ContinuationRun(s) >= 5;
  }

  /** Input that ends before a terminating byte gives `Io`. */
  lemma TruncatedIsIo(s: seq<byte>)
    requires |s| <= 5 && forall i :: 0 <= i < |s| ==> s[i] >= 128
    ensures Decode(s) == Err(Io)
  {
    assert ContinuationRun(s) == |s|;
  }

  // ---------------------------------------------------------------------
  // What read does as written

  datatype ReadOutcome = Returned(result: Result<Parsed<VarIntField>>) | Panicked

  /** `read` as the source has it: after five continuation bytes it reads a
      sixth and stores it at `bytes[5]` (line 32) of a five-byte array, which
      panics; the `n > 5` check that would return `BadVarInt` comes later. */
  function ReadAsWritten(s: seq<byte>): (o: ReadOutcome)
    ensures o.Panicked? <==> Decode(s) == Err(BadVarInt)
  {
    if ContinuationRun(s) >= 5 && |s| > 5 then Panicked else Returned(Decode(s))
  }

  /** [80 80 80 80 80 01] panics as written; the model returns `BadVarInt`. */
  lemma SixByteInputPanics()
    ensures ReadAsWritten([0x80, 0x80, 0x80, 0x80, 0x80, 0x01]) == Panicked
    ensures Decode([0x80, 0x80, 0x80, 0x80, 0x80, 0x01]) == Err(BadVarInt)
  {
    OverlongRejected([0x80, 0x80, 0x80, 0x80, 0x80, 0x01]);
  }

  // ---------------------------------------------------------------------
  // The two loops of varint.rs

  /** `VarIntField::new`: emits the low 7 bits of the remaining value per
      iteration into a five-byte buffer, setting bit 0x80 while bits remain. */
  method New(value: i32) returns (f: VarIntField)
    ensures f == FromValue(value)
  {
    ghost var u := ToU32(value);
    var n := 0;
    var val: nat := ToU32(value);
    var bytes := new byte[5](_ => 0);
    while true
      invariant 0 <= n <= 4
      invariant Leb128(u) == bytes[..n] + Leb128(val)
      invariant forall i :: n <= i < 5 ==> bytes[i] == 0
      invariant n == 0 ==> val < 0x1_0000_0000
      invariant n == 1 ==> val < 0x200_0000
      invariant n == 2 ==> val < 0x4_0000
      invariant n == 3 ==> val < 0x800
      invariant n == 4 ==> val < 0x10
      decreases 5 - n
    {
      ghost var before := val;
      var next := val % 128;
      val := val / 128;
      if val > 0 {
        next := next + 128;
      }
      assert Leb128(before) == [next] + (if val > 0 then Leb128(val) else []);
      bytes[n] := next;
      assert bytes[..n + 1] == bytes[..n] + [next];
      n := n + 1;
      if val == 0 {
        break;
      }
    }
    assert Leb128(u) == bytes[..n];
    assert bytes[..] == Pad5(Leb128(u));
    f := VarIntField(value, bytes[..], n);
  }

  lemma {:induction false} GroupValueAppend(bs: seq<byte>, b: byte)
    ensures GroupValue(bs + [b]) == GroupValue(bs) + (b % 128) * Pow128(|bs|)
    decreases |bs|
  {
    if bs != [] {
      DropAppend(bs, [b], 1);
      GroupValueAppend(bs[1..], b);
      var g, p := GroupValue(bs[1..]), Pow128(|bs| - 1);
      assert GroupValue(bs + [b]) == bs[0] % 128 + 128 * (g + (b % 128) * p);
      ScaleGroup(b % 128, p);
    }
  }

  lemma ScaleGroup(a: nat, p: nat)
    ensures 128 * (a * p) == a * (128 * p)
  {
  }

  lemma ModAdd(a: nat, x: nat)
    ensures (a % TWO_32 + x) % TWO_32 == (a + x) % TWO_32
  {
    var q := a / TWO_32;
    assert a + x == TWO_32 * q + (a % TWO_32 + x);
    DivUnique(a + x, TWO_32, q + (a % TWO_32 + x) / TWO_32, (a % TWO_32 + x) % TWO_32);
  }

  /** `out |= ((b & 0x7F) as u32) << 7n`: the group's bits are clear in
      `out`, so the OR adds; bits shifted past bit 31 are lost. */
  function OrGroup(out: u32, b: byte, n: nat): u32
  {
    (out + (b % 128) * Pow128(n)) % TWO_32
  }

  /** One iteration of `read`'s accumulator. */
  lemma Accumulate(s: seq<byte>, n: nat, out: u32)
    requires n < |s| && out == GroupValue(s[..n]) % TWO_32
    ensures OrGroup(out, s[n], n) == GroupValue(s[..n + 1]) % TWO_32
  {
    TakeSnoc(s, n);
    GroupValueAppend(s[..n], s[n]);
    ModAdd(GroupValue(s[..n]), (s[n] % 128) * Pow128(n));
  }

  /** Storing byte n of the input in the buffer of its first n bytes. */
  lemma Pad5Snoc(s: seq<byte>, n: nat)
    requires n < 5 && n < |s|
    ensures Pad5(s[..n])[n := s[n]] == Pad5(s[..n + 1])
  {
    TakeSnoc(s, n);
  }

  /** `Decode` once the terminating byte is at index n - 1. */
  lemma DecodeTerminated(s: seq<byte>, n: nat)
    requires 1 <= n <= 5 && n <= |s|
    requires forall i :: 0 <= i < n - 1 ==> s[i] >= 128
    requires s[n - 1] < 128
    ensures Decode(s) == Ok(Parsed(VarIntField(ToI32(GroupValue(s[..n]) % TWO_32), Pad5(s[..n]), n), s[n..]))
  {
    assert ContinuationRun(s) == n - 1;
  }

  /** `VarIntField::read`: one byte per iteration, OR-ing its group into
      `out` at bit 7n (the groups occupy disjoint bits, so the OR is an
      addition; bits shifted past bit 31 are lost). */
  method Read(s: seq<byte>) returns (r: Result<Parsed<VarIntField>>)
    ensures r == Decode(s)
  {
    var out: u32 := 0;
    var n := 0;
    var bytes := new byte[5](_ => 0);
    assert bytes[..] == Pad5(s[..0]);
    while true
      invariant 0 <= n <= 5 && n <= |s|
      invariant forall i :: 0 <= i < n ==> s[i] >= 128
      invariant bytes[..] == Pad5(s[..n])
      invariant out == GroupValue(s[..n]) % TWO_32
      decreases 5 - n
    {
      if n == |s| {
        // read_u8 at the end of the input
        TruncatedIsIo(s);
        return Err(Io);
      }
      var byte := s[n];
      if n == 5 {
        // the sixth byte has nowhere to go: fail instead of indexing bytes[5]
        OverlongRejected(s);
        return Err(BadVarInt);
      }
      Pad5Snoc(s, n);
      bytes[n] := byte;
      Accumulate(s, n, out);
      out := OrGroup(out, byte, n);
      n := n + 1;
      if byte < 128 {
        break;
      }
    }
    DecodeTerminated(s, n);
    r := Ok(Parsed(VarIntField(ToI32(out), bytes[..], n), s[n..]));
  }
}
