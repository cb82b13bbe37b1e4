/** ULEB128 and SLEB128 decoding (src/util.rs), section 7.6 of DWARF version 5. */
module Leb128 {
  import opened Bytes

  // ----- what an encoding means -----

  /** The first n bytes are one encoding: every byte but the last has its high bit set. */
  predicate IsFrame(bytes: seq<byte>, n: nat) {
    && 1 <= n <= |bytes|
    && bytes[n - 1] < 128
    && forall i :: 0 <= i < n - 1 ==> bytes[i] >= 128
  }

  function FrameLen(bytes: seq<byte>): (r: Option<nat>)
    ensures r.Some? ==> IsFrame(bytes, r.value)
    ensures r.None? ==> forall i :: 0 <= i < |bytes| ==> bytes[i] >= 128
  {
    if bytes == [] then None
    else if bytes[0] < 128 then Some(1)
    else
      var n :- FrameLen(bytes[1..]);
      Some(n + 1)
  }

  /** Little-endian base-128 value of the seven-bit groups. */
  function PayloadValue(bytes: seq<byte>): nat {
    if bytes == [] then 0 else bytes[0] % 128 + 128 * PayloadValue(bytes[1..])
  }

  /** What the unsigned decoder accepts and returns: a frame of up to ten bytes, or of eleven when
      the last is zero, with value modulo 2^64. */
  function Uleb(bytes: seq<byte>): Option<(u64, nat)> {
    var n :- FrameLen(bytes);
    if n <= 10 || (n == 11 && bytes[10] == 0) then Some((Wrap64(PayloadValue(bytes[..n])), n)) else None
  }

  /** Two's-complement value of a frame: bit 6 of the last byte is the sign of shorter frames. */
  function SignedValue(frame: seq<byte>): int
    requires frame != []
  {
    PayloadValue(frame) - if frame[|frame| - 1] % 128 >= 64 then Pow2(7 * |frame|) else 0
  }

  /** What the signed decoder accepts and returns. */
  function Sleb(bytes: seq<byte>): Option<(i64, nat)> {
    var n :- FrameLen(bytes);
    if n <= 9 then
      SignedValueBound(bytes[..n]);
      Some((SignedValue(bytes[..n]), n))
    else
      var v := ToI64(Wrap64(PayloadValue(bytes[..10])));
      if n == 10 || (n == 11 && bytes[10] == (if v < 0 then 0x7f else 0)) then Some((v, n)) else None
  }

  // ----- lemmas about payloads -----

  lemma {:induction false} PayloadBound(s: seq<byte>)
    ensures PayloadValue(s) < Pow2(7 * |s|)
  {
    if s != [] {
      PayloadBound(s[1..]);
      Pow2Add(7, 7 * |s[1..]|);
      Pow2Is(7);
    }
  }

  lemma {:induction false} PayloadCons(s: seq<byte>)
    ensures PayloadValue([]) == 0
    ensures s != [] ==> PayloadValue(s) == s[0] % 128 + 128 * PayloadValue(s[1..])
  {
  }

  /** One more group below scales what is above it. */
  lemma {:induction false} ScaleGroup(n: nat, k: nat, x: nat)
    requires n == 7 + k
    ensures Pow2(n) * x == 128 * (Pow2(k) * x)
  {
    Pow2Add(7, k);
    Pow2Is(7);
    hide Pow2;
    assert (128 * Pow2(k)) * x == 128 * (Pow2(k) * x);
  }

  lemma {:induction false} PayloadAppend(s: seq<byte>, b: byte)
    ensures PayloadValue(s + [b]) == PayloadValue(s) + b % 128 * Pow2(7 * |s|)
  {
    if s == [] {
      assert s + [b] == [b] && [b][1..] == [];
      PayloadCons([b]);
      hide PayloadValue;
    } else {
      hide *;
      PayloadAppend(s[1..], b);
      PayloadCons(s);
      PayloadCons(s + [b]);
      assert (s + [b])[1..] == s[1..] + [b];
      ScaleGroup(7 * |s|, 7 * |s[1..]|, b % 128);
    }
  }

  lemma {:induction false} SignedValueBound(frame: seq<byte>)
    requires 1 <= |frame| <= 9
    ensures -U63 <= SignedValue(frame) < U63
    ensures 0 - Pow2(7 * |frame|) <= SignedValue(frame) < Pow2(7 * |frame|)
  {
    PayloadBound(frame);
    Pow2Mono(7 * |frame|, 63);
    Pow2Is(63);
  }

  // ----- the decoders -----

  function Shl64(x: u64, shift: nat): u64
    requires shift < 64
  {
    Wrap64(x * Pow2(shift))
  }

  lemma {:induction false} ShlLow(group: nat, i: nat)
    requires i < 9 && group < 128
    ensures Shl64(group, 7 * i) == group * Pow2(7 * i) < U64
  {
    SumBelow(0, group, i);
  }

  lemma {:induction false} TopGroup(group: nat)
    requires group < 128
    ensures Wrap64(group * 0x8000_0000_0000_0000) == group % 2 * 0x8000_0000_0000_0000
  {
  }

  lemma {:induction false} ShlHigh(low: nat, group: nat, shift: nat)
    requires shift == 63 && low < Pow2(shift) && group < 128
    ensures BitOr(low, Shl64(group, shift)) == Wrap64(low + group * Pow2(shift))
  {
    Pow2Is(shift);
    TopGroup(group);
    BitOrDisjoint(low, group % 2, shift);
    assert group % 2 * Pow2(shift) == group % 2 * 0x8000_0000_0000_0000;
    assert group * Pow2(shift) == group * 0x8000_0000_0000_0000;
    WrapSum(low, group);
  }

  lemma {:induction false} WrapSum(low: nat, group: nat)
    requires low < 0x8000_0000_0000_0000
    ensures Wrap64(low + group * 0x8000_0000_0000_0000) == low + group % 2 * 0x8000_0000_0000_0000
  {
    var q, h := group / 2, group % 2;
    assert low + group * 0x8000_0000_0000_0000 == q * 0x1_0000_0000_0000_0000 + (low + h * 0x8000_0000_0000_0000);
    DivUnique(low + group * 0x8000_0000_0000_0000, 0x1_0000_0000_0000_0000, q, low + h * 0x8000_0000_0000_0000);
  }

  lemma {:induction false} OrBits(low: nat, group: nat, i: nat)
    requires i <= 9 && low < Pow2(7 * i) && group < 128
    ensures BitOr(low, Shl64(group, 7 * i)) == Wrap64(low + group * Pow2(7 * i))
  {
    var shift: nat := 7 * i;
    if i < 9 {
      SumBelow(low, group, i);
      hide *;
      ShlLow(group, i);
      BitOrDisjoint(low, group, shift);
      WrapSmall(low + group * Pow2(shift));
    } else {
      hide *;
      ShlHigh(low, group, shift);
    }
  }

  lemma {:induction false} WrapSmall(x: nat)
    requires x < 0x1_0000_0000_0000_0000
    ensures Wrap64(x) == x
  {
  }

  lemma {:induction false} SumBelow(low: nat, group: nat, i: nat)
    requires i < 9 && low < Pow2(7 * i) && group < 128
    ensures low + group * Pow2(7 * i) < 0x8000_0000_0000_0000
  {
    var shift: nat, top: nat := 7 * i, 63;
    Pow2Is(7);
    Pow2Is(top);
    hide *;
    MulLe(group, 127, Pow2(shift));
    Pow2Add(7, shift);
    Pow2Mono(7 + shift, top);
  }

  /** One loop step: the next group lands above the groups already read, modulo 2^64. */
  lemma {:induction false} OrGroup(prefix: seq<byte>, b: byte)
    requires |prefix| <= 9
    ensures Wrap64(PayloadValue(prefix)) == PayloadValue(prefix)
    ensures BitOr(PayloadValue(prefix), Shl64(b % 128, 7 * |prefix|)) == Wrap64(PayloadValue(prefix + [b]))
  {
    hide *;
    ShortPositive(prefix);
    WrapSmall(PayloadValue(prefix));
    PayloadBound(prefix);
    PayloadAppend(prefix, b);
    OrBits(PayloadValue(prefix), b % 128, |prefix|);
  }

  lemma {:induction false} ShortPositive(frame: seq<byte>)
    requires |frame| <= 9
    ensures PayloadValue(frame) < 0x8000_0000_0000_0000
  {
    PayloadBound(frame);
    Pow2Mono(7 * |frame|, 63);
    Pow2Is(63);
  }

  method ReadUleb128(bytes: seq<byte>) returns (r: Option<(u64, nat)>)
    ensures r == Uleb(bytes)
    ensures r.Some? ==> IsFrame(bytes, r.value.1) && r.value.1 <= 11
  {
    hide BitOr, Shl64, Pow2, SignedValue;
    var result: u64, shift: nat, consumed := 0, 0, 0;
    for i := 0 to |bytes|
      invariant consumed == i <= 10 && shift == 7 * i
      invariant forall k :: 0 <= k < i ==> bytes[k] >= 128
      invariant result == Wrap64(PayloadValue(bytes[..i]))
    {
      var b := bytes[i];
      consumed := consumed + 1;
      var payload := b % 128;
      assert bytes[..i + 1] == bytes[..i] + [b];
      if shift >= 64 {
        if payload != 0 || b >= 128 {
          return None;
        }
        PayloadAppend(bytes[..i], b);
        return Some((result, consumed));
      }
      OrGroup(bytes[..i], b);
      result := BitOr(result, Shl64(payload, shift));
      if b < 128 {
        return Some((result, consumed));
      }
      shift := shift + 7;
    }
    return None;
  }

  /** Or-ing in the sign extension of a frame of at most nine bytes subtracts 2^(7n). */
  lemma {:induction false} OrSignMask(frame: seq<byte>)
    requires 1 <= |frame| <= 9
    ensures Pow2(7 * |frame|) <= U63 && PayloadValue(frame) < Pow2(7 * |frame|)
    ensures BitOr(PayloadValue(frame), U64 - Pow2(7 * |frame|)) == PayloadValue(frame) + U64 - Pow2(7 * |frame|)
  {
    hide Pow2, BitOr, PayloadValue;
    var n, rest: nat := 7 * |frame|, 64 - 7 * |frame|;
    PayloadBound(frame);
    Pow2Is(63);
    Pow2Is(64);
    Pow2Mono(n, 63);
    Pow2Add(n, rest);
    MaskProduct(Pow2(n), Pow2(rest));
    BitOrDisjoint(PayloadValue(frame), Pow2(rest) - 1, n);
  }

  lemma {:induction false} MaskProduct(p: nat, q: nat)
    requires p * q == 0x1_0000_0000_0000_0000 && q > 0
    ensures (q - 1) * p == 0x1_0000_0000_0000_0000 - p
  {
  }

  lemma {:induction false} FinishSigned(frame: seq<byte>)
    requires 1 <= |frame| <= 9
    ensures Pow2(7 * |frame|) <= U63
    ensures var bits, mask := Wrap64(PayloadValue(frame)), U64 - Pow2(7 * |frame|);
            var final := if frame[|frame| - 1] % 128 >= 64 then BitOr(bits, mask) else bits;
            final < U64 && ToI64(final) == SignedValue(frame)
  {
    OrSignMask(frame);
    ShortPositive(frame);
    WrapSmall(PayloadValue(frame));
    hide BitOr;
  }

  /** The i64 accumulator is kept as its bit pattern. */
  method ReadSleb128(bytes: seq<byte>) returns (r: Option<(i64, nat)>)
    ensures r == Sleb(bytes)
    ensures r.Some? ==> IsFrame(bytes, r.value.1) && r.value.1 <= 11
  {
    hide BitOr, Shl64, Pow2, SignedValue;
    var result: u64, shift: nat, consumed := 0, 0, 0;
    for i := 0 to |bytes|
      invariant consumed == i <= 10 && shift == 7 * i
      invariant forall k :: 0 <= k < i ==> bytes[k] >= 128
      invariant result == Wrap64(PayloadValue(bytes[..i]))
    {
      var b := bytes[i];
      consumed := consumed + 1;
      var payload := b % 128;
      assert bytes[..i + 1] == bytes[..i] + [b];
      if shift >= 64 {
        if b >= 128 {
          return None;
        }
        var expected := if ToI64(result) < 0 then 0x7f else 0;
        if payload != expected {
          return None;
        }
        return Some((ToI64(result), consumed));
      }
      OrGroup(bytes[..i], b);
      result := BitOr(result, Shl64(payload, shift));
      var nextShift := shift + 7;
      if b < 128 {
        if b % 128 >= 64 && nextShift < 64 {
          FinishSigned(bytes[..i + 1]);
          result := BitOr(result, U64 - Pow2(nextShift));
        } else if nextShift < 64 {
          FinishSigned(bytes[..i + 1]);
        }
        return Some((ToI64(result), consumed));
      }
      shift := nextShift;
    }
    return None;
  }

  // ----- canonical encoders and round trips -----

  function EncodeUleb(v: nat): (s: seq<byte>) {
    if v < 128 then [v] else [v % 128 + 128] + EncodeUleb(v / 128)
  }

  function EncodeSleb(v: int): (s: seq<byte>)
    decreases if v < 0 then -v else v
  {
    var b, rest := v % 128, v / 128;
    if (rest == 0 && b < 64) || (rest == -1 && b >= 64) then [b] else [b + 128] + EncodeSleb(rest)
  }

  /** A frame with one more group in front. */
  lemma {:induction false} FrameCons(b: byte, s: seq<byte>, tail: seq<byte>)
    requires b >= 128 && FrameLen(s + tail) == Some(|s|)
    ensures FrameLen([b] + s + tail) == Some(1 + |s|)
    ensures PayloadValue([b] + s) == b % 128 + 128 * PayloadValue(s)
  {
    assert ([b] + s + tail)[1..] == s + tail && ([b] + s)[1..] == s;
  }

  lemma {:induction false} OneByteFrame(b: byte, tail: seq<byte>)
    requires b < 128
    ensures FrameLen([b] + tail) == Some(1) && PayloadValue([b]) == b
  {
    assert PayloadValue([b]) == b % 128 + 128 * PayloadValue([]);
  }

  lemma {:induction false} UlebFrame(v: nat, tail: seq<byte>)
    ensures var s := EncodeUleb(v);
            s != [] && FrameLen(s + tail) == Some(|s|) && PayloadValue(s) == v
  {
    hide FrameLen, PayloadValue;
    if v < 128 {
      OneByteFrame(v, tail);
    } else {
      UlebFrame(v / 128, tail);
      FrameCons(v % 128 + 128, EncodeUleb(v / 128), tail);
    }
  }

  lemma {:induction false} UlebLength(v: nat, k: nat)
    requires k >= 1 && v < Pow2(7 * k)
    ensures |EncodeUleb(v)| <= k
  {
    if v >= 128 {
      Pow2Add(7, 7 * (k - 1));
      Pow2Is(7);
      UlebLength(v / 128, k - 1);
    }
  }

  /** Every u64 survives encoding, whatever bytes follow it. */
  lemma {:induction false} UlebRoundTrip(v: u64, tail: seq<byte>)
    ensures 1 <= |EncodeUleb(v)| <= 10
    ensures Uleb(EncodeUleb(v) + tail) == Some((v, |EncodeUleb(v)|))
  {
    hide Pow2, PayloadValue, FrameLen, EncodeUleb;
    var s := EncodeUleb(v);
    UlebFrame(v, tail);
    Pow2Is(64);
    Pow2Mono(64, 70);
    UlebLength(v, 10);
    WrapSmall(v);
    assert (s + tail)[..|s|] == s;
  }

  lemma {:induction false} SlebFrame(v: int, tail: seq<byte>)
    ensures var s := EncodeSleb(v);
            s != [] && FrameLen(s + tail) == Some(|s|) && SignedValue(s) == v
    decreases if v < 0 then -v else v
  {
    hide FrameLen, PayloadValue, SignedValue;
    var b, rest := v % 128, v / 128;
    if (rest == 0 && b < 64) || (rest == -1 && b >= 64) {
      OneByteFrame(b, tail);
      OneByteValue(b);
    } else {
      SlebFrame(rest, tail);
      FrameCons(b + 128, EncodeSleb(rest), tail);
      SignedCons([b + 128] + EncodeSleb(rest));
      assert ([b + 128] + EncodeSleb(rest))[1..] == EncodeSleb(rest);
    }
  }

  lemma {:induction false} OneByteValue(b: byte)
    requires b < 128
    ensures SignedValue([b]) == if b >= 64 then b - 128 else b
  {
    assert PayloadValue([b]) == b % 128 + 128 * PayloadValue([]);
    Pow2Is(7);
  }

  lemma {:induction false} SignedCons(s: seq<byte>)
    requires |s| >= 2
    ensures SignedValue(s) == s[0] % 128 + 128 * SignedValue(s[1..])
  {
    var k := 7 * |s[1..]|;
    assert Pow2(7 * |s|) == 128 * Pow2(k) by {
      Pow2Add(7, k);
      Pow2Is(7);
    }
    hide Pow2;
  }

  lemma {:induction false} SlebLength(v: int, k: nat)
    requires k >= 1 && 0 - Pow2(7 * k - 1) <= v < Pow2(7 * k - 1)
    ensures |EncodeSleb(v)| <= k
    decreases k
  {
    Pow2Is(6);
    Pow2Is(7);
    if k > 1 {
      Pow2Add(7, 7 * (k - 1) - 1);
      SlebLength(v / 128, k - 1);
    }
  }

  /** Every i64 survives encoding, whatever bytes follow it. */
  lemma {:induction false} SlebRoundTrip(v: i64, tail: seq<byte>)
    ensures 1 <= |EncodeSleb(v)| <= 10
    ensures Sleb(EncodeSleb(v) + tail) == Some((v, |EncodeSleb(v)|))
  {
    var s := EncodeSleb(v);
    SlebFrame(v, tail);
    Pow2Is(63);
    Pow2Mono(63, 69);
    SlebLength(v, 10);
    assert (s + tail)[..|s|] == s;
    if |s| == 10 {
      TenByteSign(v, PayloadValue(s));
    }
  }

  lemma {:induction false} TenByteSign(v: i64, payload: nat)
    requires payload == v || payload - Pow2(70) == v
    ensures ToI64(Wrap64(payload)) == v
  {
    Pow2At70(70);
    hide Pow2;
  }

  // ----- when the tenth byte loses bits -----

  /** Splitting a long frame at bit 63: nine whole groups and the tenth. */
  lemma {:induction false} TenGroups(bytes: seq<byte>)
    requires |bytes| >= 10
    ensures PayloadValue(bytes[..9]) < 0x8000_0000_0000_0000
    ensures PayloadValue(bytes[..10]) == PayloadValue(bytes[..9]) + bytes[9] as int % 128 * 0x8000_0000_0000_0000
  {
    ShortPositive(bytes[..9]);
    assert bytes[..10] == bytes[..9] + [bytes[9]];
    PayloadAppend(bytes[..9], bytes[9]);
    Pow2Is(7 * |bytes[..9]|);
  }

  lemma {:induction false} ElevenGroups(bytes: seq<byte>)
    requires |bytes| >= 11
    ensures PayloadValue(bytes[..11]) == PayloadValue(bytes[..10]) + bytes[10] as int % 128 * 0x40_0000_0000_0000_0000
  {
    assert bytes[..11] == bytes[..10] + [bytes[10]];
    PayloadAppend(bytes[..10], bytes[10]);
    Pow2Add(64, 6);
    Pow2Is(6);
    Pow2Is(64);
  }

  /** The documentation promises None for a value past 64 bits; the code instead drops the tenth
      byte's bits above bit 63. The value is exact just when that byte holds none. */
  lemma {:induction false} UlebExact(bytes: seq<byte>)
    requires Uleb(bytes).Some?
    ensures var (v, n) := Uleb(bytes).value;
            v == PayloadValue(bytes[..n]) <==> n < 10 || bytes[9] % 128 <= 1
  {
    var n := Uleb(bytes).value.1;
    if n < 10 {
      ShortPositive(bytes[..n]);
      WrapSmall(PayloadValue(bytes[..n]));
    } else {
      TenGroups(bytes);
      if n == 11 {
        ElevenGroups(bytes);
      }
    }
  }

  /** A ten-byte stream whose value is 2^64: accepted, as 0. */
  lemma {:induction false} UlebOverflowAccepted()
    ensures var s := seq(9, _ => 0x80) + [0x02];
            Uleb(s) == Some((0, 10)) && PayloadValue(s) == U64
  {
    var zeros: seq<byte> := seq(9, _ => 0x80);
    var s := zeros + [0x02];
    FrameLenIs(s, 10);
    hide FrameLen, PayloadValue, Pow2;
    ZeroGroups(zeros);
    PayloadAppend(zeros, 0x02);
    Pow2Is(7 * |zeros|);
    assert s[..10] == s;
  }

  lemma {:induction false} ZeroGroups(s: seq<byte>)
    requires forall i :: 0 <= i < |s| ==> s[i] % 128 == 0
    ensures PayloadValue(s) == 0
  {
    if s != [] {
      ZeroGroups(s[1..]);
    }
  }

  lemma {:induction false} FrameLenIs(bytes: seq<byte>, n: nat)
    requires IsFrame(bytes, n)
    ensures FrameLen(bytes) == Some(n)
  {
  }

  /** The same for the signed decoder: exact just when the tenth group is all sign bits. */
  lemma {:induction false} SlebExact(bytes: seq<byte>)
    requires Sleb(bytes).Some?
    ensures var (v, n) := Sleb(bytes).value;
            v == SignedValue(bytes[..n]) <==> n < 10 || bytes[9] % 128 == 0 || bytes[9] % 128 == 0x7f
  {
    hide Pow2, PayloadValue, FrameLen, Wrap64;
    var (v, n) := Sleb(bytes).value;
    if n >= 10 {
      var low, group := PayloadValue(bytes[..9]), bytes[9] as int % 128;
      TenGroups(bytes);
      SignGroup(low, group);
      SignExactIff(v, low, group);
      if n == 10 {
        Pow2At70(7 * n);
      } else {
        ElevenGroups(bytes);
        Pow2At70(7 * n);
      }
    }
  }

  lemma {:induction false} SignExactIff(v: int, low: nat, group: nat)
    requires low < 0x8000_0000_0000_0000 && group < 128
    requires v == low - group % 2 * 0x8000_0000_0000_0000
    ensures v == low + group * 0x8000_0000_0000_0000 <==> group == 0
    ensures v == low + group * 0x8000_0000_0000_0000 - 0x40_0000_0000_0000_0000 <==> group == 127
    ensures v < 0 <==> group % 2 == 1
  {
  }

  lemma {:induction false} Pow2At70(k: nat)
    ensures k == 70 ==> Pow2(k) == 0x40_0000_0000_0000_0000
    ensures k == 77 ==> Pow2(k) == 0x2000_0000_0000_0000_0000
  {
    hide *;
    Pow2Is(6);
    Pow2Is(7);
    Pow2Is(64);
    Pow2Add(64, 6);
    Pow2Add(70, 7);
  }

  /** The i64 that nine low groups and the tenth leave behind. */
  lemma {:induction false} SignGroup(low: nat, group: nat)
    requires low < 0x8000_0000_0000_0000 && group < 128
    ensures ToI64(Wrap64(low + group * 0x8000_0000_0000_0000)) == low - group % 2 * 0x8000_0000_0000_0000
  {
    WrapSum(low, group);
  }

  /** The signed counterpart: nine empty groups and 0x02 encode 2^64, accepted as 0. */
  lemma {:induction false} SlebOverflowAccepted()
    ensures var s := seq(9, _ => 0x80) + [0x02];
            Sleb(s) == Some((0, 10)) && SignedValue(s) == U64
  {
    UlebOverflowAccepted();
    var s: seq<byte> := seq(9, _ => 0x80) + [0x02];
    assert s[..10] == s;
    hide PayloadValue, FrameLen;
  }

  // ----- what the documentation promises -----

  /** The value of a frame that fits, and None for any other (src/util.rs:18-26). */
  function DocumentedUleb(bytes: seq<byte>): Option<(u64, nat)> {
    var n :- FrameLen(bytes);
    if PayloadValue(bytes[..n]) < U64 then Some((PayloadValue(bytes[..n]), n)) else None
  }

  function DocumentedSleb(bytes: seq<byte>): Option<(i64, nat)> {
    var n :- FrameLen(bytes);
    if -U63 <= SignedValue(bytes[..n]) < U63 then Some((SignedValue(bytes[..n]), n)) else None
  }

  /** Every seven-bit group of `s` is g. */
  predicate AllGroups(s: seq<byte>, g: nat) {
    forall i :: 0 <= i < |s| ==> s[i] % 128 == g
  }

  lemma {:induction false} PayloadCat(a: seq<byte>, b: seq<byte>)
    ensures PayloadValue(a + b) == PayloadValue(a) + Pow2(7 * |a|) * PayloadValue(b)
  {
    if a == [] {
      assert a + b == b;
    } else {
      hide *;
      PayloadCat(a[1..], b);
      PayloadCons(a);
      PayloadCons(a + b);
      assert (a + b)[1..] == a[1..] + b;
      ScaleGroup(7 * |a|, 7 * |a[1..]|, PayloadValue(b));
    }
  }

  /** A long frame is nine groups below bit 63 and the rest above it. */
  lemma {:induction false} SplitAt63(frame: seq<byte>)
    requires |frame| >= 10
    ensures PayloadValue(frame) == PayloadValue(frame[..9]) + 0x8000_0000_0000_0000 * PayloadValue(frame[9..])
    ensures SignedValue(frame) == PayloadValue(frame[..9]) + 0x8000_0000_0000_0000 * SignedValue(frame[9..])
    ensures PayloadValue(frame[..9]) < 0x8000_0000_0000_0000
  {
    var high := frame[9..];
    assert frame == frame[..9] + high && frame[|frame| - 1] == high[|high| - 1];
    PayloadCat(frame[..9], high);
    ShortPositive(frame[..9]);
    Pow2Is(63);
    Pow2Add(63, 7 * |high|);
    assert 7 * |frame| == 63 + 7 * |high| && 7 * |frame[..9]| == 63;
    hide PayloadValue, Pow2;
  }

  lemma {:induction false} GroupsZero(s: seq<byte>)
    ensures PayloadValue(s) == 0 <==> AllGroups(s, 0)
  {
    if s != [] {
      GroupsZero(s[1..]);
      assert AllGroups(s, 0) <==> s[0] % 128 == 0 && AllGroups(s[1..], 0);
    }
  }

  lemma {:induction false} GroupsAtMostOne(s: seq<byte>)
    requires s != []
    ensures PayloadValue(s) <= 1 <==> s[0] % 128 <= 1 && AllGroups(s[1..], 0)
  {
    GroupsZero(s[1..]);
  }

  lemma {:induction false} GroupsSign(s: seq<byte>)
    requires s != []
    ensures SignedValue(s) == 0 <==> AllGroups(s, 0)
    ensures SignedValue(s) == -1 <==> AllGroups(s, 127)
  {
    if |s| == 1 {
      Pow2Is(7);
      assert PayloadValue(s) == s[0] % 128 + 128 * PayloadValue([]);
    } else {
      GroupsSign(s[1..]);
      SignedCons(s);
      hide SignedValue;
      assert forall g :: AllGroups(s, g) <==> s[0] % 128 == g && AllGroups(s[1..], g) by {
        forall g {
          GroupsCons(s, g);
        }
      }
    }
  }

  lemma {:induction false} GroupsCons(s: seq<byte>, g: int)
    requires s != []
    ensures g >= 0 ==> (AllGroups(s, g) <==> s[0] % 128 == g && AllGroups(s[1..], g))
  {
    if g >= 0 && s[0] % 128 == g && AllGroups(s[1..], g) {
      assert forall i :: 1 <= i < |s| ==> s[i] == s[1..][i - 1];
    }
  }

  /** Frames whose value fits in 64 bits. */
  predicate UlebFits(frame: seq<byte>) {
    |frame| < 10 || (frame[9] % 128 <= 1 && AllGroups(frame[10..], 0))
  }

  lemma {:induction false} UlebFitsIff(frame: seq<byte>)
    ensures PayloadValue(frame) < 0x1_0000_0000_0000_0000 <==> UlebFits(frame)
  {
    if |frame| < 10 {
      ShortPositive(frame);
    } else {
      SplitAt63(frame);
      GroupsAtMostOne(frame[9..]);
      assert frame[9..][1..] == frame[10..];
      hide PayloadValue, SignedValue, AllGroups;
    }
  }

  predicate SlebFits(frame: seq<byte>) {
    |frame| < 10 || AllGroups(frame[9..], 0) || AllGroups(frame[9..], 127)
  }

  lemma {:induction false} SlebFitsIff(frame: seq<byte>)
    requires frame != []
    ensures -0x8000_0000_0000_0000 <= SignedValue(frame) < 0x8000_0000_0000_0000 <==> SlebFits(frame)
  {
    if |frame| < 10 {
      SignedValueBound(frame);
    } else {
      SplitAt63(frame);
      GroupsSign(frame[9..]);
      hide PayloadValue, SignedValue, AllGroups;
    }
  }

  /** The decoder does what its documentation says if and only if the frame's value fits in 64 bits
      just when the frame has at most ten bytes, or eleven of which the last is zero. */
  lemma {:induction false} UlebAsDocumentedIff(bytes: seq<byte>)
    ensures Uleb(bytes) == DocumentedUleb(bytes)
       <==> FrameLen(bytes).None?
            || var n := FrameLen(bytes).value;
               (UlebFits(bytes[..n]) <==> n <= 10 || (n == 11 && bytes[10] == 0))
  {
    if FrameLen(bytes).Some? {
      var frame := bytes[..FrameLen(bytes).value];
      UlebFitsIff(frame);
      hide PayloadValue, FrameLen, UlebFits;
    }
  }

  /** An encoding of 0 in twelve bytes fits, and is refused. */
  lemma {:induction false} LongZeroRefused()
    ensures var s := seq(11, _ => 0x80) + [0x00];
            Uleb(s) == None && DocumentedUleb(s) == Some((0, 12))
  {
    var s: seq<byte> := seq(11, _ => 0x80) + [0x00];
    FrameLenIs(s, 12);
    ZeroGroups(s);
    assert s[..12] == s;
    hide FrameLen, PayloadValue;
  }

  lemma {:induction false} KeptSign(low: nat, group: nat, high: int)
    requires low < 0x8000_0000_0000_0000 && group < 128
    requires (high == 0 ==> group == 0) && (high == -1 ==> group == 127)
    ensures var v := low - group % 2 * 0x8000_0000_0000_0000;
            && (v < 0 <==> group % 2 != 0)
            && (high == 0 || high == -1 ==> v == low + 0x8000_0000_0000_0000 * high)
  {
  }

  lemma {:induction false} FitsByTenth(bytes: seq<byte>, n: nat)
    requires 10 <= n <= |bytes|
    ensures var high := SignedValue(bytes[..n][9..]);
            && (SlebFits(bytes[..n]) <==> high == 0 || high == -1)
            && (high == 0 ==> bytes[9] % 128 == 0) && (high == -1 ==> bytes[9] % 128 == 127)
  {
    var high := bytes[..n][9..];
    GroupsSign(high);
    assert high[0] == bytes[9];
    hide SignedValue;
  }

  /** The i64 kept of a long frame: its sign is the tenth group's low bit, and it is the frame's
      value when that fits. */
  lemma {:induction false} KeptOfLong(bytes: seq<byte>, n: nat)
    requires 10 <= n <= |bytes|
    ensures var v := ToI64(Wrap64(PayloadValue(bytes[..10])));
            && (v < 0 <==> bytes[9] % 2 != 0)
            && (SlebFits(bytes[..n]) ==> v == SignedValue(bytes[..n]))
  {
    hide *;
    var low, group: nat := PayloadValue(bytes[..9]), bytes[9] % 128;
    TenGroups(bytes);
    SignGroup(low, group);
    SplitAt63(bytes[..n]);
    assert bytes[..n][..9] == bytes[..9];
    FitsByTenth(bytes, n);
    KeptSign(low, group, SignedValue(bytes[..n][9..]));
  }

  /** The same for the signed decoder, whose eleventh byte must repeat the sign. */
  lemma {:induction false} SlebAsDocumentedIff(bytes: seq<byte>)
    ensures Sleb(bytes) == DocumentedSleb(bytes)
       <==> FrameLen(bytes).None?
            || var n := FrameLen(bytes).value;
               (SlebFits(bytes[..n])
                <==> n <= 10 || (n == 11 && bytes[10] == (if bytes[9] % 2 != 0 then 0x7f else 0)))
  {
    if FrameLen(bytes).Some? {
      var n := FrameLen(bytes).value;
      SlebFitsIff(bytes[..n]);
      if n >= 10 {
        KeptOfLong(bytes, n);
      }
      hide PayloadValue, SignedValue, FrameLen, SlebFits, Wrap64, ToI64;
    }
  }
}
