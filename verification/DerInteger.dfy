/** What the INTEGER decoder returns, against section 8.3 of X.690 and against its documentation. The
    code keeps the first eight octets and does not sign-extend shorter bodies. */
module DerInteger {
  import opened Bytes
  import opened Der

  /** The value an INTEGER body stands for. */
  function TwosComplement(body: seq<byte>): int {
    BeNat(body) - if body != [] && body[0] >= 0x80 then Pow2(8 * |body|) else 0
  }

  predicate AllBytes(s: seq<byte>, b: byte) {
    forall i :: 0 <= i < |s| ==> s[i] == b
  }

  lemma {:induction false} BeNatCat(a: seq<byte>, b: seq<byte>)
    ensures BeNat(a + b) == BeNat(a) * Pow2(8 * |b|) + BeNat(b)
  {
    if b == [] {
      assert a + b == a;
    } else {
      var init, last := b[..|b| - 1], b[|b| - 1];
      BeNatCat(a, init);
      assert (a + b)[..|a + b| - 1] == a + init;
      Pow2Add(8, 8 * |init|);
      Pow2Is(8);
      hide Pow2;
      assert BeNat(a) * (256 * Pow2(8 * |init|)) == 256 * (BeNat(a) * Pow2(8 * |init|));
    }
  }

  lemma {:induction false} LeadByte(body: seq<byte>)
    requires body != []
    ensures BeNat(body) == body[0] * Pow2(8 * (|body| - 1)) + BeNat(body[1..])
    ensures BeNat(body[1..]) < Pow2(8 * (|body| - 1))
  {
    assert body == body[..1] + body[1..] && body[..1] == [body[0]];
    BeNatCat(body[..1], body[1..]);
    BeNatBound(body[1..]);
    assert BeNat([body[0]]) == 256 * BeNat([]) + body[0];
  }

  lemma {:induction false} ExtremeBytes(s: seq<byte>)
    ensures BeNat(s) == 0 <==> AllBytes(s, 0)
    ensures BeNat(s) == Pow2(8 * |s|) - 1 <==> AllBytes(s, 0xff)
  {
    if s != [] {
      var init := s[..|s| - 1];
      ExtremeBytes(init);
      BeNatBound(init);
      Pow2Add(8, 8 * |init|);
      Pow2Is(8);
      hide Pow2;
      assert AllBytes(s, 0) <==> AllBytes(init, 0) && s[|s| - 1] == 0;
      assert AllBytes(s, 0xff) <==> AllBytes(init, 0xff) && s[|s| - 1] == 0xff;
    }
  }

  /** Bodies the decoder reads exactly. */
  predicate Exact(body: seq<byte>) {
    if |body| < 8 then body == [] || body[0] < 0x80
    else |body| == 8 || AllBytes(body, 0) || AllBytes(body, 0xff)
  }

  lemma {:induction false} EightOctets(body: seq<byte>)
    requires |body| == 8
    ensures BeNat(body) < U64 && ToI64(BeNat(body)) == TwosComplement(body)
  {
    LeadByte(body);
    Pow2Is(64);
    Pow2Is(63);
    Pow2Is(8);
    Pow2Is(7);
    Pow2Add(7, 56);
    Pow2Add(8, 56);
    WideBound(body);
    hide BeNat, Pow2;
    if body[0] < 0x80 {
      MulLe(body[0] + 1, 0x80, Pow2(56));
    } else {
      MulLe(0x80, body[0], Pow2(56));
    }
  }

  lemma {:induction false} ShortOctets(body: seq<byte>)
    requires |body| < 8
    ensures BeNat(body) < U63
  {
    BeNatBound(body);
    Pow2Mono(8 * |body|, 63);
    Pow2Is(63);
    hide BeNat, Pow2;
  }

  /** s and s shifted up by p with `low` below it agree only for a run of zeros or of ones. */
  lemma {:induction false} ShiftFixes(s: int, low: nat, p: nat)
    requires p >= 2 && low < p
    ensures s * p + low == s <==> (s == 0 && low == 0) || (s == -1 && low == p - 1)
  {
    if s > 0 {
      MulLe(2, p, s);
    } else if s < -1 {
      MulLe(2, -s, p - 1);
      assert s * p == s - (-s) * (p - 1);
    }
  }

  /** A long body's value is its first eight octets' value shifted up, plus the rest. */
  lemma {:induction false} LongValue(body: seq<byte>)
    requires |body| > 8
    ensures TwosComplement(body)
         == TwosComplement(body[..8]) * Pow2(8 * (|body| - 8)) + BeNat(body[8..])
  {
    var head, rest := body[..8], body[8..];
    assert body == head + rest && body[0] == head[0];
    BeNatCat(head, rest);
    Pow2Add(64, 8 * |rest|);
    assert 8 * |body| == 64 + 8 * |rest| && 8 * |head| == 64;
    hide BeNat, Pow2;
    Distribute(BeNat(head), Pow2(64), Pow2(8 * |rest|));
  }

  lemma {:induction false} Distribute(a: int, b: int, p: int)
    ensures (a - b) * p == a * p - b * p
  {
  }

  /** A long body that is a run of zeros or of ones, by the values of its parts. */
  lemma {:induction false} LongRuns(body: seq<byte>)
    requires |body| > 8
    ensures var head, rest := TwosComplement(body[..8]), body[8..];
            && (AllBytes(body, 0) <==> head == 0 && BeNat(rest) == 0)
            && (AllBytes(body, 0xff) <==> head == -1 && BeNat(rest) == Pow2(8 * |rest|) - 1)
  {
    var head, rest := body[..8], body[8..];
    EightOctets(head);
    WideBound(head);
    ExtremeBytes(head);
    ExtremeBytes(rest);
    Pow2Is(64);
    assert body == head + rest;
    assert AllBytes(body, 0) <==> AllBytes(head, 0) && AllBytes(rest, 0);
    assert AllBytes(body, 0xff) <==> AllBytes(head, 0xff) && AllBytes(rest, 0xff);
    hide BeNat, Pow2, AllBytes, TwosComplement;
  }

  lemma {:induction false} LongOctets(body: seq<byte>)
    requires |body| > 8
    ensures DecodeInteger(body) == TwosComplement(body) <==> AllBytes(body, 0) || AllBytes(body, 0xff)
  {
    var head, rest := body[..8], body[8..];
    EightOctets(head);
    LongValue(body);
    LongRuns(body);
    BeNatBound(rest);
    Pow2Is(8);
    Pow2Mono(8, 8 * |rest|);
    assert DecodeInteger(body) == ToI64(BeNat(head));
    hide BeNat, Pow2, AllBytes, DecodeInteger, TwosComplement;
    ShiftFixes(TwosComplement(head), BeNat(rest), Pow2(8 * |rest|));
  }

  /** Exactly when a decoded INTEGER is the body's value. */
  lemma {:induction false} IntegerExactIff(body: seq<byte>)
    ensures DecodeInteger(body) == TwosComplement(body) <==> Exact(body)
  {
    if |body| < 8 {
      ShortOctets(body);
    } else if |body| == 8 {
      EightOctets(body);
      hide BeNat, Pow2;
    } else {
      LongOctets(body);
      hide BeNat, Pow2, DecodeInteger, TwosComplement;
    }
  }

  /** The one-octet encoding of -1 decodes to 255. */
  lemma {:induction false} MinusOneMisread()
    ensures TwosComplement([0xff]) == -1 && DecodeInteger([0xff]) == 255
  {
    var body: seq<byte> := [0xff];
    LeadByte(body);
    Pow2Is(8);
    assert BeNat(body) == 256 * BeNat(body[..0]) + 0xff;
    hide Pow2;
  }

  // ----- wide bodies: the documented promises -----

  lemma {:induction false} BeNatInjective(a: seq<byte>, b: seq<byte>)
    requires |a| == |b| && BeNat(a) == BeNat(b)
    ensures a == b
  {
    if a != [] {
      var n := |a| - 1;
      BeNatInjective(a[..n], b[..n]);
      assert a == a[..n] + [a[n]] && b == b[..n] + [b[n]];
    }
  }

  /** The low 8 bytes of a wide body, as an i64: what is said to be kept (src/codesign.rs:1449). */
  function LowOctets(body: seq<byte>): i64
    requires |body| >= 8
  {
    WideBound(body[|body| - 8..]);
    ToI64(BeNat(body[|body| - 8..]))
  }

  /** The low 8 bytes are kept if and only if they are also the first 8. */
  lemma {:induction false} KeepsLowIff(body: seq<byte>)
    requires |body| >= 8
    ensures DecodeInteger(body) == LowOctets(body) <==> body[..8] == body[|body| - 8..]
  {
    var head, low := body[..8], body[|body| - 8..];
    WideBound(head);
    WideBound(low);
    assert |body| == 8 ==> head == body;
    assert DecodeInteger(body) == ToI64(BeNat(head));
    if DecodeInteger(body) == LowOctets(body) {
      BeNatInjective(head, low);
    }
  }

  lemma {:induction false} Pow2At56()
    ensures Pow2(56) == 0x100_0000_0000_0000
  {
    hide *;
    Pow2Is(8);
    Pow2Is(16);
    Pow2Is(32);
    Pow2Add(32, 16);
    Pow2Add(48, 8);
  }

  lemma {:induction false} OneThenZeros(head: seq<byte>)
    requires |head| == 8 && head[0] == 1 && AllBytes(head[1..], 0)
    ensures BeNat(head) == 0x100_0000_0000_0000
  {
    ExtremeBytes(head[1..]);
    LeadByte(head);
    Pow2At56();
    hide BeNat, Pow2, AllBytes;
  }

  /** A 1 and eight zero octets: the low 8 bytes are 0, the decoder returns 2^56. */
  lemma {:induction false} WideMisread()
    ensures var body := [0x01] + seq(8, _ => 0x00);
            LowOctets(body) == 0 && DecodeInteger(body) == 0x100_0000_0000_0000
  {
    var body: seq<byte> := [0x01] + seq(8, _ => 0x00);
    var head, low := body[..8], body[|body| - 8..];
    assert AllBytes(low, 0) && AllBytes(head[1..], 0);
    OneThenZeros(head);
    ExtremeBytes(low);
    hide BeNat, Pow2, AllBytes;
  }

  function Clamp(v: int): i64 {
    if v >= 0x8000_0000_0000_0000 then 0x7fff_ffff_ffff_ffff
    else if v < -0x8000_0000_0000_0000 then -0x8000_0000_0000_0000
    else v
  }

  /** s and s shifted up with `low` below it have the same clamped value. */
  lemma {:induction false} ClampFixes(s: i64, low: nat, p: nat)
    requires p >= 2 && low < p
    ensures Clamp(s * p + low) == s
       <==> (s == 0 && low == 0) || (s == -1 && low == p - 1)
            || s == 0x7fff_ffff_ffff_ffff || s == -0x8000_0000_0000_0000
  {
    if s > 0 {
      MulLe(2, p, s);
    } else if s < -1 {
      MulLe(2, p, -(s + 1));
      assert s * p + low <= (s + 1) * p - 1 && (s + 1) * p == -(-(s + 1) * p);
    }
  }

  /** The two bodies of eight octets at the ends of i64. */
  predicate IsExtreme(head: seq<byte>) {
    head != [] && ((head[0] == 0x7f && AllBytes(head[1..], 0xff)) || (head[0] == 0x80 && AllBytes(head[1..], 0)))
  }

  lemma {:induction false} ExtremeIff(head: seq<byte>)
    requires |head| == 8
    ensures IsExtreme(head)
       <==> TwosComplement(head) == 0x7fff_ffff_ffff_ffff || TwosComplement(head) == -0x8000_0000_0000_0000
  {
    var rest := BeNat(head[1..]);
    LeadByte(head);
    EightOctets(head);
    ExtremeBytes(head[1..]);
    Pow2At56();
    assert BeNat(head) == head[0] as int * 0x100_0000_0000_0000 + rest && rest < 0x100_0000_0000_0000;
    hide BeNat, Pow2, AllBytes, TwosComplement, DecodeInteger;
  }

  lemma {:induction false} ShortInRange(body: seq<byte>)
    requires |body| <= 8
    ensures Clamp(TwosComplement(body)) == TwosComplement(body)
  {
    if |body| == 8 {
      EightOctets(body);
    } else {
      ShortOctets(body);
      Pow2Mono(8 * |body|, 63);
      Pow2Is(63);
    }
    hide BeNat, Pow2;
  }

  /** Larger values are said to saturate (src/codesign.rs:976). They do if and only if the decoded
      value is exact or the first eight octets are already at an end of i64. */
  lemma {:induction false} SaturatesIff(body: seq<byte>)
    ensures DecodeInteger(body) == Clamp(TwosComplement(body))
       <==> Exact(body) || (|body| > 8 && IsExtreme(body[..8]))
  {
    if |body| <= 8 {
      IntegerExactIff(body);
      ShortInRange(body);
      hide BeNat, Pow2, DecodeInteger, TwosComplement, Clamp;
    } else {
      LongSaturates(body);
    }
  }

  lemma {:induction false} LongSaturates(body: seq<byte>)
    requires |body| > 8
    ensures DecodeInteger(body) == Clamp(TwosComplement(body))
       <==> AllBytes(body, 0) || AllBytes(body, 0xff) || IsExtreme(body[..8])
  {
    var head, rest := body[..8], body[8..];
    EightOctets(head);
    LongValue(body);
    LongRuns(body);
    ExtremeIff(head);
    BeNatBound(rest);
    Pow2Mono(8, 8 * |rest|);
    Pow2Is(8);
    assert DecodeInteger(body) == ToI64(BeNat(head));
    hide BeNat, Pow2, AllBytes, DecodeInteger, TwosComplement, IsExtreme, Clamp;
    ClampFixes(TwosComplement(head), BeNat(rest), Pow2(8 * |rest|));
  }
}
