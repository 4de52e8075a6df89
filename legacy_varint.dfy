/** The earlier `VarInt` of mc/src/types.rs, a bare i32 that reads and
    writes itself on a byte stream. Its writer produces the same bytes as
    `VarIntField`; its reader has no five-byte buffer and keeps reading
    until a terminating byte. */
module LegacyVarInt {
  import opened Base
  import VarInt

  /** What `VarInt::read` returns on input `s`: the value and the input
      left over. It consumes every continuation byte up to the first byte
      with the high bit clear; more than five bytes in all give
      `BadVarInt`, and input that ends first gives `Io`. */
  function Decode(s: seq<byte>): (r: Result<Parsed<i32>>)
    ensures r.Ok? ==> 1 <= |s| - |r.value.rest| <= 5 && r.value.rest == s[|s| - |r.value.rest|..]
  {
    var k := VarInt.ContinuationRun(s);
    if k == |s| then Err(Io)
    else if k + 1 > 5 then Err(BadVarInt)
    else Ok(Parsed(ToI32(VarInt.GroupValue(s[..k + 1]) % TWO_32), s[k + 1..]))
  }

  /** The two readers accept exactly the same inputs, with the same value
      and the same bytes left over. They differ only in the error for a
      run of more than five continuation bytes that the input ends inside
      of: `Io` here, `BadVarInt` for `VarIntField`. */
  lemma AgreesWithField(s: seq<byte>)
    ensures Decode(s).Ok? <==> VarInt.Decode(s).Ok?
    ensures Decode(s).Ok? ==>
      && Decode(s).value.value == VarInt.Decode(s).value.value.value
      && Decode(s).value.rest == VarInt.Decode(s).value.rest
    ensures Decode(s).Err? && VarInt.Decode(s).Err? && Decode(s).error != VarInt.Decode(s).error ==>
      Decode(s).error == Io && VarInt.Decode(s).error == BadVarInt
  {
    var k := VarInt.ContinuationRun(s);
    if k < 5 && k < |s| {
      assert VarInt.Bytes(VarInt.Decode(s).value.value) == s[..k + 1];
    }
  }

  /** Write then read gives the value back, for every i32. */
  lemma RoundTrip(v: i32, rest: seq<byte>)
    ensures Decode(VarInt.Encode(v) + rest) == Ok(Parsed(v, rest))
  {
    VarInt.RoundTrip(v, rest);
    AgreesWithField(VarInt.Encode(v) + rest);
  }

  /** `VarInt::read`. From the sixth byte on the accumulated value is
      thrown away (the read ends in `BadVarInt`), so the model stops
      accumulating there; the source's shift by 35 bits or more is not
      modelled. */
  method Read(s: seq<byte>) returns (r: Result<Parsed<i32>>)
    ensures r == Decode(s)
  {
    var out: u32 := 0;
    var n := 0;
    while true
      invariant 0 <= n <= |s|
      invariant forall i :: 0 <= i < n ==> s[i] >= 128
      invariant n <= 5 ==> out == VarInt.GroupValue(s[..n]) % TWO_32
      decreases |s| - n
    {
      if n == |s| {
        assert VarInt.ContinuationRun(s) == n;
        return Err(Io);
      }
      var byte := s[n];
      if n < 5 {
        VarInt.Accumulate(s, n, out);
        out := VarInt.OrGroup(out, byte, n);
      }
      n := n + 1;
      if byte < 128 {
        break;
      }
    }
    assert VarInt.ContinuationRun(s) == n - 1;
    if n > 5 {
      return Err(BadVarInt);
    }
    r := Ok(Parsed(ToI32(out), s[n..]));
  }

  /** `VarInt::write`: emits the bytes of `VarIntField::new` and never
      reaches its `n > 5` error. */
  method Write(v: i32) returns (out: seq<byte>, r: Result<()>)
    ensures out == VarInt.Encode(v)
    ensures r == Ok(())
  {
    var n := 0;
    var val: nat := ToU32(v);
    out := [];
    while true
      invariant 0 <= n == |out| <= 4
      invariant VarInt.Encode(v) == out + VarInt.Leb128(val)
      invariant n == 0 ==> val < 0x1_0000_0000
      invariant n == 1 ==> val < 0x200_0000
      invariant n == 2 ==> val < 0x4_0000
      invariant n == 3 ==> val < 0x800
      invariant n == 4 ==> val < 0x10
      decreases 5 - n
    {
      var next := val % 128;
      val := val / 128;
      if val > 0 {
        next := next + 128;
      }
      out := out + [next];
      n := n + 1;
      if val == 0 {
        break;
      }
    }
    if n > 5 {
      return out, Err(BadVarInt);
    }
    r := Ok(());
  }
}
