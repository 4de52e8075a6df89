/** `PositionField` (mc/src/field/position.rs): three i32 coordinates
    packed into one big-endian i64, x in bits 38..63, z in bits 12..37 and
    y in bits 0..11. */
module Position {
  import opened Base
  import Numeric

  const TWO_25: int := 0x200_0000

  datatype Position = Position(x: i32, y: i32, z: i32)

  /** `From<(i32, i32, i32)>`: the coordinates, unchanged. */
  function FromTuple(t: (i32, i32, i32)): (p: Position)
    ensures (p.x, p.y, p.z) == t
  {
    Position(t.0, t.1, t.2)
  }

  /** The coordinates `read_field` can return, and the ones that survive a
      round trip. */
  predicate InRange(p: Position)
  {
    -TWO_25 <= p.x < TWO_25 && -TWO_25 <= p.z < TWO_25 && 0 <= p.y < TWO_12
  }

  /** `size()`: eight bytes. */
  function Size(p: Position): nat
  {
    8
  }

  /** The low 26 bits of `v as u64`, read as a signed 26-bit number. */
  function Sign26(m: nat): (v: int)
    requires m < TWO_26
    ensures -TWO_25 <= v < TWO_25 && (v - m) % TWO_26 == 0
  {
    if m >= TWO_25 then m - TWO_26 else m
  }

  /** The u64 `write_field` builds: `x & 0x3FFFFFF` shifted to bit 38,
      `z & 0x3FFFFFF` to bit 12 and `y & 0xFFF` at bit 0 (the three ranges
      are disjoint, so the ORs are sums). */
  function Pack(p: Position): (u: u64)
  {
    (p.x % TWO_26) * TWO_38 + (p.z % TWO_26) * TWO_12 + p.y % TWO_12
  }

  /** `write_field`: the packed value's bits as an i64, as a `LongField`. */
  function Write(p: Position): (bs: seq<byte>)
    ensures |bs| == Size(p)
  {
    Numeric.Encode(Numeric.Long, ToI64(Pack(p)))
  }

  /** The coordinates `read_field` takes from the long `l`: `l >> 38`
      (arithmetic shift), `l & 0xFFF`, and `l << 26 >> 38`. The sign fixes
      in the source are commented out, so y is never negative. */
  function Unpack(l: i64): (p: Position)
    ensures InRange(p)
  {
    Position(l / TWO_38, l % TWO_12, ToI64((ToU64(l) * TWO_26) % TWO_64) / TWO_38)
  }

  /** `read_field`: a `LongField`, unpacked. */
  function Read(s: seq<byte>): (r: Result<Parsed<Position>>)
    ensures r.Ok? <==> |s| >= 8
    ensures r.Ok? ==> r.value.rest == s[8..] && InRange(r.value.value)
  {
    var p :- Numeric.Decode(Numeric.Long, s);
    Ok(Parsed(Unpack(p.value), p.rest))
  }

  /** A 26-bit group at bit 38 over a 38-bit remainder: the arithmetic
      shift of the i64 gives the group with its sign. */
  lemma HighGroup(g: nat, low: nat)
    requires g < TWO_26 && low < TWO_38
    ensures g * TWO_38 + low < TWO_64
    ensures ToI64(g * TWO_38 + low) / TWO_38 == Sign26(g)
    ensures ToI64(g * TWO_38 + low) % TWO_12 == low % TWO_12
  {
    var u := g * TWO_38 + low;
    assert g * TWO_38 <= (TWO_26 - 1) * TWO_38 by { MulMono(TWO_38, g, TWO_26 - 1); }
    var q := low / TWO_12;
    assert low == TWO_12 * q + low % TWO_12;
    if g >= TWO_25 {
      assert u >= TWO_63 by { MulMono(TWO_38, TWO_25, g); }
      assert ToI64(u) == (g - TWO_26) * TWO_38 + low;
      DivUnique(ToI64(u), TWO_38, g - TWO_26, low);
      DivUnique(ToI64(u), TWO_12, (g - TWO_26) * TWO_26 + q, low % TWO_12);
    } else {
      assert u < TWO_63 by { MulMono(TWO_38, g, TWO_25 - 1); }
      DivUnique(u, TWO_38, g, low);
      DivUnique(u, TWO_12, g * TWO_26 + q, low % TWO_12);
    }
  }

  /** What `read_field` returns for the packed word of (x, y, z): each
      coordinate's low bits, x and z sign-extended from 26 bits and y
      unsigned from 12 bits. */
  lemma UnpackPack(p: Position)
    ensures Unpack(ToI64(Pack(p))) ==
      Position(Sign26(p.x % TWO_26), p.y % TWO_12, Sign26(p.z % TWO_26))
  {
    var xm, zm, ym := p.x % TWO_26, p.z % TWO_26, p.y % TWO_12;
    var low := zm * TWO_12 + ym;
    assert low < TWO_38 by { MulMono(TWO_12, zm, TWO_26 - 1); }
    var u := Pack(p);
    assert u == xm * TWO_38 + low;
    HighGroup(xm, low);
    ShiftedGroup(xm, zm, ym);
    var l := ToI64(u);
    assert ToU64(l) == u;
    assert Unpack(l) == Position(l / TWO_38, l % TWO_12, ToI64((u * TWO_26) % TWO_64) / TWO_38);
  }

  /** `l << 26 >> 38` on the packed word: the shift out of x leaves z at
      the top, and the arithmetic shift gives z with its sign. */
  lemma ShiftedGroup(xm: nat, zm: nat, ym: nat)
    requires xm < TWO_26 && zm < TWO_26 && ym < TWO_12
    requires xm * TWO_38 + zm * TWO_12 + ym < TWO_64
    ensures ToI64(((xm * TWO_38 + zm * TWO_12 + ym) * TWO_26) % TWO_64) / TWO_38 == Sign26(zm)
  {
    var shifted := (xm * TWO_38 + zm * TWO_12 + ym) * TWO_26;
    assert shifted == xm * TWO_64 + (zm * TWO_38 + ym * TWO_26);
    assert zm * TWO_38 <= (TWO_26 - 1) * TWO_38 by { MulMono(TWO_38, zm, TWO_26 - 1); }
    assert ym * TWO_26 < TWO_38 by { MulMono(TWO_26, ym, TWO_12 - 1); }
    DivUnique(shifted, TWO_64, xm, zm * TWO_38 + ym * TWO_26);
    HighGroup(zm, ym * TWO_26);
  }

  /** `read_field(write_field(p))` for every p. */
  lemma ReadWrite(p: Position, rest: seq<byte>)
    ensures Read(Write(p) + rest) ==
      Ok(Parsed(Position(Sign26(p.x % TWO_26), p.y % TWO_12, Sign26(p.z % TWO_26)), rest))
  {
    Numeric.RoundTrip(Numeric.Long, ToI64(Pack(p)), rest);
    UnpackPack(p);
  }

  /** The round trip is exact for x and z in [-2^25, 2^25) and y in
      [0, 4095]. */
  lemma RoundTrip(p: Position, rest: seq<byte>)
    requires InRange(p)
    ensures Read(Write(p) + rest) == Ok(Parsed(p, rest))
  {
    ReadWrite(p, rest);
    Sign26Mod(p.x);
    Sign26Mod(p.z);
    DivUnique(p.y, TWO_12, 0, p.y);
  }

  lemma Sign26Mod(v: int)
    requires -TWO_25 <= v < TWO_25
    ensures Sign26(v % TWO_26) == v
  {
    if v < 0 {
      DivUnique(v, TWO_26, -1, v + TWO_26);
    } else {
      DivUnique(v, TWO_26, 0, v);
    }
  }

  /** A negative y comes back as its low 12 bits: y = -1 reads as 4095. */
  lemma NegativeY(rest: seq<byte>)
    ensures Read(Write(Position(0, -1, 0)) + rest) == Ok(Parsed(Position(0, 4095, 0), rest))
  {
    ReadWrite(Position(0, -1, 0), rest);
    assert -1 % TWO_12 == 4095;
    assert 0 % TWO_26 == 0 && Sign26(0) == 0;
  }
}
