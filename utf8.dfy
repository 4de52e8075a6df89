/** Well-formed UTF-8 as defined by the grammar in section 4 of RFC 3629,
    the check `String::from_utf8` performs. */
module Utf8 {
  import opened Base

  predicate Tail(b: byte)
  {
    0x80 <= b <= 0xBF
  }

  /** The length of the well-formed character at the front of `s`, or 0
      when `s` does not start with one. */
  function CharLen(s: seq<byte>): (n: nat)
    ensures n <= 4 && n <= |s|
  {
    if |s| == 0 then 0
    else if s[0] <= 0x7F then 1
    else if 0xC2 <= s[0] <= 0xDF then
      (if |s| >= 2 && Tail(s[1]) then 2 else 0)
    else if 0xE0 <= s[0] <= 0xEF then
      var lo := if s[0] == 0xE0 then 0xA0 else 0x80;
      var hi := if s[0] == 0xED then 0x9F else 0xBF;
      (if |s| >= 3 && lo <= s[1] <= hi && Tail(s[2]) then 3 else 0)
    else if 0xF0 <= s[0] <= 0xF4 then
      var lo := if s[0] == 0xF0 then 0x90 else 0x80;
      var hi := if s[0] == 0xF4 then 0x8F else 0xBF;
      (if |s| >= 4 && lo <= s[1] <= hi && Tail(s[2]) && Tail(s[3]) then 4 else 0)
    else 0
  }

  /** `s` is a sequence of well-formed characters. */
  predicate ValidUtf8(s: seq<byte>)
    decreases |s|
  {
    s == [] || (CharLen(s) > 0 && ValidUtf8(s[CharLen(s)..]))
  }

  lemma CharLenPrefix(a: seq<byte>, b: seq<byte>)
    requires CharLen(a) > 0
    ensures CharLen(a + b) == CharLen(a)
  {
    assert (a + b)[..|a|] == a;
  }

  /** A well-formed, non-empty string splits into its first character and
      a well-formed remainder. */
  lemma Split(s: seq<byte>)
    requires ValidUtf8(s) && s != []
    ensures CharLen(s) > 0 && ValidUtf8(s[CharLen(s)..])
  {
  }

  /** The converse of `Split`. */
  lemma Join(s: seq<byte>, n: nat)
    requires s != [] && 0 < n == CharLen(s) && ValidUtf8(s[n..])
    ensures ValidUtf8(s)
  {
  }

  /** Well-formed strings are closed under concatenation. */
  lemma {:induction false} Concat(a: seq<byte>, b: seq<byte>)
    requires ValidUtf8(a) && ValidUtf8(b)
    ensures ValidUtf8(a + b)
    decreases |a|
  {
    if a != [] {
      Split(a);
      var n := CharLen(a);
      var c := a + b;
      CharLenPrefix(a, b);
      Concat(a[n..], b);
      DropAppend(a, b, n);
      Join(c, n);
    } else {
      assert a + b == b;
    }
  }

  predicate IsAscii(s: seq<byte>)
  {
    forall i :: 0 <= i < |s| ==> s[i] < 128
  }

  /** Every ASCII string is well formed. */
  lemma {:induction false} AsciiValid(s: seq<byte>)
    requires IsAscii(s)
    ensures ValidUtf8(s)
    decreases |s|
  {
    if s != [] {
      AsciiValid(s[1..]);
    }
  }

  /** Overlong forms, surrogates, code points past U+10FFFF and truncated
      sequences are rejected; ordinary multi-byte characters are not. */
  lemma Examples()
    ensures ValidUtf8([0xE2, 0x82, 0xAC])
    ensures ValidUtf8([0xF0, 0x9F, 0x98, 0x80])
    ensures !ValidUtf8([0xC0, 0x80])
    ensures !ValidUtf8([0xED, 0xA0, 0x80])
    ensures !ValidUtf8([0xF4, 0x90, 0x80, 0x80])
    ensures !ValidUtf8([0xE2, 0x82])
    ensures !ValidUtf8([0x80])
  {
    assert [0xE2, 0x82, 0xAC][3..] == [];
    assert [0xF0, 0x9F, 0x98, 0x80][4..] == [];
  }
}
