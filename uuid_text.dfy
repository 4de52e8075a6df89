/** The text form `into_play_state` gives a player's UUID
    (mc/src/connection/login.rs): the string representation of section 3
    of RFC 4122, 32 hexadecimal digits in groups of 8-4-4-4-12 separated
    by hyphens, written with upper-case letters by `encode_upper`. */
module UuidText {
  import opened Base

  const HYPHEN: byte := 0x2D

  function Pow16(k: nat): (p: nat)
    ensures p >= 1
  {
    if k == 0 then 1 else 16 * Pow16(k - 1)
  }

  predicate IsUpperHex(b: byte)
  {
    (0x30 <= b <= 0x39) || (0x41 <= b <= 0x46)
  }

  /** The upper-case digit of a nibble. */
  function Digit(n: nat): (b: byte)
    requires n < 16
    ensures IsUpperHex(b) && DigitValue(b) == n
  {
    if n < 10 then 0x30 + n else 0x41 + (n - 10)
  }

  /** The value of an upper-case hexadecimal digit. */
  function DigitValue(b: byte): (n: nat)
    requires IsUpperHex(b)
    ensures n < 16
  {
    if b <= 0x39 then b - 0x30 else b - 0x41 + 10
  }

  /** The low `k` nibbles of `u`, most significant first. */
  function Hex(k: nat, u: nat): (r: seq<byte>)
    ensures |r| == k && forall i :: 0 <= i < k ==> IsUpperHex(r[i])
  {
    if k == 0 then [] else Hex(k - 1, u / 16) + [Digit(u % 16)]
  }

  function HexValue(s: seq<byte>): nat
    requires forall i :: 0 <= i < |s| ==> IsUpperHex(s[i])
  {
    if s == [] then 0 else 16 * HexValue(s[..|s| - 1]) + DigitValue(s[|s| - 1])
  }

  /** Reading the digits back gives the value they were written from,
      reduced to `k` nibbles. */
  lemma {:induction false} HexRoundTrip(k: nat, u: nat)
    ensures HexValue(Hex(k, u)) == u % Pow16(k)
  {
    if k > 0 {
      var h := Hex(k, u);
      assert h[..k - 1] == Hex(k - 1, u / 16);
      HexRoundTrip(k - 1, u / 16);
      NibbleStep(u, Pow16(k - 1));
    }
  }

  /** Taking the lowest nibble off: `u` modulo `16 p` is the rest of
      `u` modulo `p`, shifted, plus that nibble. */
  lemma NibbleStep(u: nat, p: nat)
    requires p >= 1
    ensures u % (16 * p) == 16 * (u / 16 % p) + u % 16
  {
    var q := u / 16 / p;
    var r := u / 16 % p;
    assert u / 16 == p * q + r;
    assert u == 16 * (u / 16) + u % 16;
    assert 16 * (p * q + r) == (16 * p) * q + 16 * r;
    assert 16 * r <= 16 * p - 16;
    DivUnique(u, 16 * p, q, 16 * r + u % 16);
  }

  lemma UuidDigits()
    ensures Pow16(32) == 0x1_0000_0000_0000_0000_0000_0000_0000_0000
  {
    assert Pow16(8) == 0x1_0000_0000;
    assert Pow16(16) == Pow16(8) * Pow16(8) by { PowAdd(8, 8); }
    PowAdd(16, 16);
  }

  lemma {:induction false} PowAdd(a: nat, b: nat)
    ensures Pow16(a + b) == Pow16(a) * Pow16(b)
  {
    if a > 0 {
      PowAdd(a - 1, b);
    }
  }

  /** `to_hyphenated_ref().encode_upper`: 36 bytes, hyphens at offsets 8,
      13, 18 and 23, an upper-case hexadecimal digit everywhere else. */
  function Hyphenated(u: Uuid): (r: seq<byte>)
    ensures |r| == 36
    ensures forall i :: 0 <= i < 36 ==> (r[i] == HYPHEN <==> i == 8 || i == 13 || i == 18 || i == 23)
    ensures forall i :: 0 <= i < 36 && i != 8 && i != 13 && i != 18 && i != 23 ==> IsUpperHex(r[i])
  {
    var h := Hex(32, u);
    h[..8] + [HYPHEN] + h[8..12] + [HYPHEN] + h[12..16] + [HYPHEN] + h[16..20] + [HYPHEN] + h[20..]
  }

  /** The digits of a hyphenated UUID with the hyphens dropped. */
  function Digits(s: seq<byte>): (d: seq<byte>)
    requires |s| == 36
    ensures |d| == 32
  {
    s[..8] + s[9..13] + s[14..18] + s[19..23] + s[24..]
  }

  /** The text determines the UUID: reading the digits back gives it. */
  lemma ParseHyphenated(u: Uuid)
    ensures Digits(Hyphenated(u)) == Hex(32, u)
    ensures HexValue(Digits(Hyphenated(u))) == u
  {
    var h := Hex(32, u);
    var s := Hyphenated(u);
    assert s[..8] == h[..8];
    assert s[9..13] == h[8..12];
    assert s[14..18] == h[12..16];
    assert s[19..23] == h[16..20];
    assert s[24..] == h[20..];
    assert h == h[..8] + h[8..12] + h[12..16] + h[16..20] + h[20..];
    HexRoundTrip(32, u);
    UuidDigits();
  }

  /** Two players with different UUIDs get different strings. */
  lemma HyphenatedInjective(u: Uuid, v: Uuid)
    requires Hyphenated(u) == Hyphenated(v)
    ensures u == v
  {
    ParseHyphenated(u);
    ParseHyphenated(v);
  }
}
