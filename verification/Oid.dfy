/** OBJECT IDENTIFIER bodies (src/codesign.rs), section 8.19 of X.690. The dotted text is kept as
    the list of its arcs. */
module Oid {
  import opened Bytes
  import opened Leb128

  /** Big-endian base-128 value of the seven-bit groups. */
  function BigGroups(s: seq<byte>): nat {
    if s == [] then 0 else 128 * BigGroups(s[..|s| - 1]) + s[|s| - 1] % 128
  }

  function Wrap32(x: nat): u32 {
    x % 0x1_0000_0000
  }

  /** One subidentifier at the front of `data`, modulo 2^32, and its length. */
  function Component(data: seq<byte>): Option<(u32, nat)> {
    var n :- FrameLen(data);
    Some((Wrap32(BigGroups(data[..n])), n))
  }

  function Components(data: seq<byte>): seq<u32>
    decreases |data|
  {
    var c := Component(data);
    if c.None? then [] else [c.value.0] + Components(data[c.value.1..])
  }

  /** The two arcs packed in the first subidentifier. */
  function FirstArcs(sub: u32): seq<u32> {
    var root := if sub / 40 < 2 then sub / 40 else 2;
    [root, sub - 40 * root]
  }

  function DecodeOid(data: seq<byte>): seq<u32> {
    var subs := Components(data);
    if subs == [] then [] else FirstArcs(subs[0]) + subs[1..]
  }

  /** One step of the fold, each operation wrapping. */
  function PushGroup(result: u32, b: byte): u32 {
    Wrap32(Wrap32(result * 128) + b % 128)
  }

  /** Advances past one component; None, at the end of the data, when it is cut short. */
  method OidComponent(data: seq<byte>, start: nat) returns (r: Option<u32>, pos: nat)
    requires start <= |data|
    ensures var c := Component(data[start..]);
            if c.Some? then r == Some(c.value.0) && pos == start + c.value.1 else r == None && pos == |data|
    ensures pos <= |data| && (r.Some? ==> start < pos)
  {
    var result: u32 := 0;
    pos := start;
    hide *;
    NoGroups();
    assert data[start..start] == [];
    while pos < |data|
      invariant start <= pos <= |data|
      invariant forall k :: start <= k < pos ==> data[k] >= 128
      invariant result == Wrap32(BigGroups(data[start..pos]))
    {
      var b := data[pos];
      NextGroup(data, start, pos);
      pos := pos + 1;
      result := PushGroup(result, b);
      if b < 128 {
        ComponentAt(data, start, pos - start);
        return Some(result), pos;
      }
    }
    NoComponent(data, start);
    return None, pos;
  }

  lemma {:induction false} ComponentAt(data: seq<byte>, start: nat, n: nat)
    requires 1 <= n <= |data| - start && data[start + n - 1] < 128
    requires forall k :: start <= k < start + n - 1 ==> data[k] >= 128
    ensures Component(data[start..]) == Some((Wrap32(BigGroups(data[start..start + n])), n))
  {
    FrameLenIs(data[start..], n);
    assert data[start..][..n] == data[start..start + n];
  }

  lemma {:induction false} NoComponent(data: seq<byte>, start: nat)
    requires start <= |data| && forall k :: start <= k < |data| ==> data[k] >= 128
    ensures Component(data[start..]) == None
  {
    hide FrameLen;
  }

  lemma {:induction false} NoGroups()
    ensures Wrap32(BigGroups([])) == 0
  {
  }

  lemma {:induction false} NextGroup(data: seq<byte>, start: nat, pos: nat)
    requires start <= pos < |data|
    ensures Wrap32(BigGroups(data[start..pos + 1])) == PushGroup(Wrap32(BigGroups(data[start..pos])), data[pos])
  {
    assert data[start..pos + 1][..pos - start] == data[start..pos];
    WrapStep(BigGroups(data[start..pos]), data[pos] % 128);
  }

  /** Wrapping an intermediate value does not change the wrapped result. */
  lemma {:induction false} WrapStep(x: nat, g: nat)
    requires g < 128
    ensures Wrap32(128 * x + g) == Wrap32(Wrap32(Wrap32(x) * 128) + g)
  {
    WrapAdd(Wrap32(x) * 128, g);
    WrapScale(x, g);
  }

  lemma {:induction false} WrapAdd(x: nat, g: nat)
    ensures Wrap32(Wrap32(x) + g) == Wrap32(x + g)
  {
    WrapMultiple(Wrap32(x) + g, x / 0x1_0000_0000);
    DivModSum(x, 0x1_0000_0000);
  }

  lemma {:induction false} WrapScale(x: nat, g: nat)
    ensures Wrap32(Wrap32(x) * 128 + g) == Wrap32(128 * x + g)
  {
    WrapMultiple(Wrap32(x) * 128 + g, 128 * (x / 0x1_0000_0000));
    DivModSum(x, 0x1_0000_0000);
  }

  lemma {:induction false} WrapMultiple(x: nat, k: nat)
    ensures Wrap32(x + 0x1_0000_0000 * k) == Wrap32(x)
  {
    var q, r := x / 0x1_0000_0000, x % 0x1_0000_0000;
    DivModSum(x, 0x1_0000_0000);
    DivUnique(x + 0x1_0000_0000 * k, 0x1_0000_0000, q + k, r);
  }

  lemma {:induction false} ComponentsStep(data: seq<byte>, pos: nat)
    requires pos <= |data|
    ensures var c, all := Component(data[pos..]), Components(data[pos..]);
            if c.None? then all == []
            else 1 <= c.value.1 <= |data| - pos && all == [c.value.0] + Components(data[pos + c.value.1..])
  {
    var c := Component(data[pos..]);
    if c.Some? {
      assert data[pos..][c.value.1..] == data[pos + c.value.1..];
    }
  }

  method Decode(data: seq<byte>) returns (arcs: seq<u32>)
    ensures arcs == DecodeOid(data)
  {
    hide Component, Components, FirstArcs;
    assert data[0..] == data;
    ComponentsStep(data, 0);
    var first, pos := OidComponent(data, 0);
    if first.None? {
      return [];
    }
    arcs := FirstArcs(first.value);
    assert ([first.value] + Components(data[pos..]))[1..] == Components(data[pos..]);
    while true
      invariant pos <= |data|
      invariant DecodeOid(data) == arcs + Components(data[pos..])
      decreases |data| - pos
    {
      ComponentsStep(data, pos);
      var v;
      v, pos := OidComponent(data, pos);
      if v.None? {
        break;
      }
      arcs := arcs + [v.value];
    }
  }

  // ----- encoding -----

  function EncodeHigh(v: nat): (s: seq<byte>)
    ensures forall i :: 0 <= i < |s| ==> s[i] >= 128
  {
    if v == 0 then [] else EncodeHigh(v / 128) + [v % 128 + 128]
  }

  function EncodeSub(v: nat): seq<byte> {
    EncodeHigh(v / 128) + [v % 128]
  }

  function EncodeSubs(subs: seq<nat>): seq<byte> {
    if subs == [] then [] else EncodeSub(subs[0]) + EncodeSubs(subs[1..])
  }

  /** Root arc 0 or 1 with a second arc below 40, or root arc 2. */
  predicate ValidArcs(arcs: seq<nat>) {
    |arcs| >= 2 && (arcs[0] == 2 || (arcs[0] < 2 && arcs[1] < 40))
  }

  function Subs(arcs: seq<nat>): seq<nat>
    requires ValidArcs(arcs)
  {
    [40 * arcs[0] + arcs[1]] + arcs[2..]
  }

  lemma {:induction false} GroupsAppend(s: seq<byte>, b: byte)
    ensures BigGroups(s + [b]) == 128 * BigGroups(s) + b % 128
  {
    assert (s + [b])[..|s|] == s;
  }

  lemma {:induction false} HighCons(v: nat)
    ensures EncodeHigh(0) == []
    ensures v > 0 ==> EncodeHigh(v) == EncodeHigh(v / 128) + [v % 128 + 128]
  {
  }

  lemma {:induction false} HighGroups(v: nat)
    ensures BigGroups(EncodeHigh(v)) == v
  {
    HighCons(v);
    if v == 0 {
      hide EncodeHigh;
    } else {
      hide *;
      HighGroups(v / 128);
      GroupsAppend(EncodeHigh(v / 128), v % 128 + 128);
      LowGroup(v);
    }
  }

  lemma {:induction false} LowGroup(v: nat)
    ensures (v % 128 + 128) % 128 == v % 128 && v == 128 * (v / 128) + v % 128
  {
  }

  lemma {:induction false} SubFramed(v: nat, tail: seq<byte>)
    ensures FrameLen(EncodeSub(v) + tail) == Some(|EncodeSub(v)|)
  {
    hide BigGroups, FrameLen, EncodeHigh;
    var high := EncodeHigh(v / 128);
    var n := |EncodeSub(v)|;
    assert n == |high| + 1;
    forall k | 0 <= k < n - 1
      ensures (EncodeSub(v) + tail)[k] >= 128
    {
      assert (EncodeSub(v) + tail)[k] == high[k];
    }
    FrameLenIs(EncodeSub(v) + tail, n);
  }

  lemma {:induction false} ComponentIs(data: seq<byte>, n: nat)
    requires FrameLen(data) == Some(n)
    ensures n <= |data| && Component(data) == Some((Wrap32(BigGroups(data[..n])), n))
  {
    hide FrameLen, Wrap32, BigGroups;
  }

  lemma {:induction false} SubIs(v: nat)
    ensures EncodeSub(v) == EncodeHigh(v / 128) + [v % 128]
  {
    hide EncodeHigh;
  }

  lemma {:induction false} SubValue(v: nat)
    ensures EncodeSub(v) != [] && BigGroups(EncodeSub(v)) == v
  {
    hide *;
    SubIs(v);
    HighGroups(v / 128);
    GroupsAppend(EncodeHigh(v / 128), v % 128);
    LowGroup(v);
  }

  lemma {:induction false} SubReadsBack(v: nat, tail: seq<byte>)
    ensures EncodeSub(v) != [] && Component(EncodeSub(v) + tail) == Some((Wrap32(v), |EncodeSub(v)|))
  {
    hide *;
    var s := EncodeSub(v);
    SubValue(v);
    SubFramed(v, tail);
    ComponentIs(s + tail, |s|);
    assert (s + tail)[..|s|] == s;
  }

  lemma {:induction false} SubsReadBack(subs: seq<nat>)
    ensures Components(EncodeSubs(subs)) == seq(|subs|, i requires 0 <= i < |subs| => Wrap32(subs[i]))
  {
    hide Component, EncodeSub;
    if subs == [] {
      assert Component([]) == None by {
        NothingFramed();
      }
    } else {
      var rest := EncodeSubs(subs[1..]);
      SubReadsBack(subs[0], rest);
      SubsReadBack(subs[1..]);
      assert EncodeSubs(subs)[|EncodeSub(subs[0])|..] == rest;
    }
  }

  lemma {:induction false} NothingFramed()
    ensures Component([]) == None
  {
  }

  lemma {:induction false} FirstArcsInvert(root: nat, second: nat)
    requires root == 2 || (root < 2 && second < 40)
    ensures 40 * root + second < U32 ==> FirstArcs(40 * root + second) == [root, second]
  {
  }

  lemma {:induction false} FirstArcsSum(sub: u32)
    ensures |FirstArcs(sub)| == 2 && 40 * FirstArcs(sub)[0] + FirstArcs(sub)[1] == sub
  {
  }

  /** What encoding and decoding does to each arc, wrapping included. */
  lemma {:induction false} DecodedArcs(arcs: seq<nat>)
    requires ValidArcs(arcs)
    ensures var decoded := DecodeOid(EncodeSubs(Subs(arcs)));
            && |decoded| == |arcs|
            && decoded[..2] == FirstArcs(Wrap32(40 * arcs[0] + arcs[1]))
            && forall k :: 2 <= k < |arcs| ==> decoded[k] == Wrap32(arcs[k])
  {
    var subs := Subs(arcs);
    SubsReadBack(subs);
    FirstArcsSum(Wrap32(subs[0]));
    hide FirstArcs, Wrap32, EncodeSubs, Components;
    var decoded := DecodeOid(EncodeSubs(subs));
    assert decoded == FirstArcs(Wrap32(subs[0])) + Components(EncodeSubs(subs))[1..];
  }

  lemma {:induction false} WrapFixes(x: nat)
    ensures Wrap32(x) == x <==> x < U32
  {
  }

  /** An encoded OBJECT IDENTIFIER decodes to its arcs exactly when every subidentifier is below
      2^32; otherwise the u32 arithmetic wraps. */
  lemma {:induction false} OidRoundTripIff(arcs: seq<nat>)
    requires ValidArcs(arcs)
    ensures DecodeOid(EncodeSubs(Subs(arcs))) == arcs
       <==> 40 * arcs[0] + arcs[1] < U32 && forall k :: 2 <= k < |arcs| ==> arcs[k] < U32
  {
    var decoded, sub := DecodeOid(EncodeSubs(Subs(arcs))), 40 * arcs[0] + arcs[1];
    DecodedArcs(arcs);
    FirstArcsInvert(arcs[0], arcs[1]);
    FirstArcsSum(Wrap32(sub));
    WrapFixes(sub);
    forall k | 2 <= k < |arcs|
      ensures decoded[k] == arcs[k] <==> arcs[k] < U32
    {
      WrapFixes(arcs[k]);
    }
    hide FirstArcs, Wrap32, DecodeOid;
    assert decoded[0] == decoded[..2][0] && decoded[1] == decoded[..2][1];
    if sub < U32 && forall k :: 2 <= k < |arcs| ==> arcs[k] < U32 {
      assert decoded == arcs;
    }
  }

  /** Below that bound no intermediate value of the loop wraps either. */
  lemma {:induction false} PrefixesStaySmall(frame: seq<byte>, k: nat)
    requires k <= |frame|
    ensures BigGroups(frame[..k]) <= BigGroups(frame)
    decreases |frame|
  {
    if k < |frame| {
      PrefixesStaySmall(frame[..|frame| - 1], k);
      assert frame[..|frame| - 1][..k] == frame[..k];
    } else {
      assert frame[..k] == frame;
    }
  }
}
