/** A Rust `str` as its UTF-8 bytes (section 4 of RFC 3629), and the encoding of a `char`. */
module Utf8Str {
  import opened Bytes

  /** A Rust `char`, by its code point. */
  type codepoint = c: int | 0 <= c < 0xD800 || 0xE000 <= c < 0x11_0000

  /** Whether a byte continues a character. */
  predicate IsContinuation(b: byte) {
    0x80 <= b < 0xC0
  }

  /** Length of the character at the front of `s`, or 0 when there is none. */
  function CharLen(s: seq<byte>): (n: nat)
    ensures n <= |s|
  {
    if s == [] then 0
    else if s[0] < 0x80 then 1
    else if 0xC2 <= s[0] < 0xE0 then
      if |s| >= 2 && IsContinuation(s[1]) then 2 else 0
    else if 0xE0 <= s[0] < 0xF0 then
      if && |s| >= 3 && IsContinuation(s[1]) && IsContinuation(s[2])
         && (s[0] == 0xE0 ==> s[1] >= 0xA0) && (s[0] == 0xED ==> s[1] < 0xA0)
      then 3 else 0
    else if 0xF0 <= s[0] < 0xF5 then
      if && |s| >= 4 && IsContinuation(s[1]) && IsContinuation(s[2]) && IsContinuation(s[3])
         && (s[0] == 0xF0 ==> s[1] >= 0x90) && (s[0] == 0xF4 ==> s[1] < 0x90)
      then 4 else 0
    else 0
  }

  predicate ValidUtf8(s: seq<byte>)
    decreases |s|
  {
    s == [] || (CharLen(s) > 0 && ValidUtf8(s[CharLen(s)..]))
  }

  function EncodeChar(c: codepoint): (s: seq<byte>)
    ensures 1 <= |s| <= 4 && (|s| == 1 <==> c < 0x80)
  {
    if c < 0x80 then [c]
    else if c < 0x800 then [0xC0 + c / 0x40, 0x80 + c % 0x40]
    else if c < 0x1_0000 then [0xE0 + c / 0x1000, 0x80 + c / 0x40 % 0x40, 0x80 + c % 0x40]
    else [0xF0 + c / 0x4_0000, 0x80 + c / 0x1000 % 0x40, 0x80 + c / 0x40 % 0x40, 0x80 + c % 0x40]
  }

  /** The six low bits of a byte that continues a character. */
  function More(b: byte): nat {
    b % 0x40
  }

  /** The code point of the character at the front of `s`, from its own bits. */
  function CharValue(s: seq<byte>): nat
    requires CharLen(s) > 0
  {
    var lead: nat := s[0];
    match CharLen(s)
    case 1 => lead
    case 2 => lead % 0x20 * 0x40 + More(s[1])
    case 3 => lead % 0x10 * 0x1000 + More(s[1]) * 0x40 + More(s[2])
    case _ => lead % 0x08 * 0x4_0000 + More(s[1]) * 0x1000 + More(s[2]) * 0x40 + More(s[3])
  }

  lemma {:induction false} MoreIs(x: nat)
    ensures More(0x80 + x % 0x40) == x % 0x40
  {
  }

  lemma {:induction false} LeadIs(x: nat)
    ensures x < 0x20 ==> (0xC0 + x) % 0x20 == x
    ensures x < 0x10 ==> (0xE0 + x) % 0x10 == x
    ensures x < 0x08 ==> (0xF0 + x) % 0x08 == x
  {
  }

  /** Encoding keeps the code point. */
  lemma {:induction false} EncodedValue(c: codepoint)
    ensures CharLen(EncodeChar(c)) > 0 && CharValue(EncodeChar(c)) == c
  {
    EncodedIsOneChar(c);
    DivModSum(c, 0x40);
    DivModSum(c / 0x40, 0x40);
    DivModSum(c / 0x1000, 0x40);
    assert c / 0x40 / 0x40 == c / 0x1000 && c / 0x1000 / 0x40 == c / 0x4_0000;
    MoreIs(c);
    MoreIs(c / 0x40);
    MoreIs(c / 0x1000);
    LeadIs(if c < 0x800 then c / 0x40 else if c < 0x1_0000 then c / 0x1000 else c / 0x4_0000);
    hide CharLen, More;
  }

  lemma {:induction false} EncodedIsOneChar(c: codepoint)
    ensures CharLen(EncodeChar(c)) == |EncodeChar(c)|
  {
  }

  /** A character is determined by its own bytes. */
  lemma {:induction false} CharIsLocal(s: seq<byte>, tail: seq<byte>)
    requires CharLen(s) > 0
    ensures CharLen(s + tail) == CharLen(s)
  {
  }

  lemma {:induction false} FirstChar(s: seq<byte>)
    requires s != []
    ensures ValidUtf8(s) <==> CharLen(s) > 0 && ValidUtf8(s[CharLen(s)..])
    ensures ValidUtf8([])
  {
    hide CharLen;
  }

  lemma {:induction false} ValidCat(a: seq<byte>, b: seq<byte>)
    requires ValidUtf8(a) && ValidUtf8(b)
    ensures ValidUtf8(a + b)
    decreases |a|
  {
    hide *;
    if a == [] {
      assert a + b == b;
    } else {
      FirstChar(a);
      FirstChar(a + b);
      CharIsLocal(a, b);
      var n := CharLen(a);
      ValidCat(a[n..], b);
      assert (a + b)[n..] == a[n..] + b;
    }
  }

  lemma {:induction false} BoundaryPastFirst(s: seq<byte>, k: nat)
    requires CharLen(s) > 0 && 0 < k <= |s| && (k < |s| ==> !IsContinuation(s[k]))
    ensures CharLen(s) <= k
  {
  }

  /** Cutting a string where a character starts, or at its end, gives two strings. */
  lemma {:induction false} CutAtBoundary(s: seq<byte>, k: nat)
    requires ValidUtf8(s) && k <= |s| && (k < |s| ==> !IsContinuation(s[k]))
    ensures ValidUtf8(s[..k]) && ValidUtf8(s[k..])
    decreases |s|
  {
    hide *;
    if k == 0 {
      AsciiIsValid([]);
      assert s[0..] == s && s[..0] == [];
    } else {
      FirstChar(s);
      BoundaryPastFirst(s, k);
      var n := CharLen(s);
      var rest := s[n..];
      assert k < |s| ==> rest[k - n] == s[k];
      CutAtBoundary(rest, k - n);
      assert rest[k - n..] == s[k..];
      assert s[..n] + rest == s;
      OneCharValid(s[..n], rest);
      ValidCat(s[..n], rest[..k - n]);
      assert s[..k] == s[..n] + rest[..k - n];
    }
  }

  lemma {:induction false} OneCharValid(c: seq<byte>, tail: seq<byte>)
    requires CharLen(c + tail) == |c| > 0
    ensures ValidUtf8(c)
  {
    CharIsItsPrefix(c, tail);
    hide CharLen;
    assert c[|c|..] == [];
  }

  lemma {:induction false} CharIsItsPrefix(c: seq<byte>, tail: seq<byte>)
    requires CharLen(c + tail) == |c| > 0
    ensures CharLen(c) == |c|
  {
    var s := c + tail;
    assert forall k :: 0 <= k < |c| ==> s[k] == c[k];
  }

  lemma {:induction false} EncodedValid(c: codepoint)
    ensures ValidUtf8(EncodeChar(c))
  {
    EncodedIsOneChar(c);
    hide CharLen, EncodeChar;
    assert EncodeChar(c) + [] == EncodeChar(c);
    OneCharValid(EncodeChar(c), []);
  }

  lemma {:induction false} AsciiIsValid(s: seq<byte>)
    requires forall k :: 0 <= k < |s| ==> s[k] < 0x80
    ensures ValidUtf8(s)
    decreases |s|
  {
    if s != [] {
      AsciiIsValid(s[1..]);
    }
  }

  /** What follows the first byte of a string: another character, or the rest of the first. */
  lemma {:induction false} AfterFirstByte(s: seq<byte>)
    requires ValidUtf8(s) && s != []
    ensures if s[0] < 0x80 then |s| > 1 ==> !IsContinuation(s[1])
            else 0xC2 <= s[0] < 0xF5 && |s| > 1 && IsContinuation(s[1])
  {
    FirstChar(s);
    if s[0] < 0x80 && |s| > 1 {
      FirstChar(s[1..]);
    }
  }
}
