/** Laws of the DER reader: its two walkers agree, arrays frame one item per TLV, and X.690
    encodings read back. */
module DerLaws {
  import opened Bytes
  import opened Der

  // ----- the two walkers agree -----

  function KeysOfPairs(pairs: seq<(seq<byte>, Value)>): seq<seq<byte>> {
    seq(|pairs|, i requires 0 <= i < |pairs| => pairs[i].0)
  }

  lemma {:induction false} SameKey(u: Utf8, seqBody: seq<byte>)
    ensures EntryKey(u, seqBody).Some? == EntryPair(u, seqBody).Some?
    ensures EntryKey(u, seqBody).Some? ==> EntryKey(u, seqBody).value == EntryPair(u, seqBody).value.0
  {
    hide DecodeValue, ReadHeader;
  }

  lemma {:induction false} FrameKeysAgree(u: Utf8, frames: seq<seq<byte>>)
    requires Framed(frames)
    ensures KeysOf(u, frames) == KeysOfPairs(PairsOf(u, frames))
  {
    hide ReadTlv, EntryKey, EntryPair, Body;
    if frames != [] {
      SameKey(u, Body(frames[0]));
      FrameKeysAgree(u, frames[1..]);
    }
  }

  /** On every byte string the collected keys are the keys of the collected pairs. */
  lemma {:induction false} WalkersAgree(u: Utf8, payload: seq<byte>)
    ensures KeysOf(u, Frames(EntriesOf(payload))) == KeysOfPairs(PairsOf(u, Frames(EntriesOf(payload))))
  {
    hide EntriesOf, Frames, Framed;
    FrameKeysAgree(u, Frames(EntriesOf(payload)));
  }

  // ----- what the tags mean -----

  /** SEQUENCE, SET, [0] and [16], the last two constructed. */
  predicate ContainerTag(tag: byte) {
    tag == 0x30 || tag == 0x31 || tag == 0xa0 || tag == 0xb0
  }

  lemma {:induction false} ContainersAre(tag: byte)
    ensures IsContainer(tag) <==> ContainerTag(tag)
  {
  }

  /** Section 8.1.3 of X.690, octet by octet: a short form, and long forms of one to four octets. */
  lemma {:induction false} HeaderOctets(buf: seq<byte>)
    ensures var h := ReadHeader(buf);
            if |buf| < 2 then h == None
            else if buf[1] < 0x80 then h == Some(Header(buf[0], buf[1], 2))
            else if buf[1] == 0x81 && |buf| >= 3 then h == Some(Header(buf[0], buf[2], 3))
            else if buf[1] == 0x82 && |buf| >= 4 then h == Some(Header(buf[0], 0x100 * (buf[2] as int) + buf[3], 4))
            else if buf[1] == 0x83 && |buf| >= 5 then
              h == Some(Header(buf[0], 0x1_0000 * (buf[2] as int) + 0x100 * (buf[3] as int) + buf[4], 5))
            else if buf[1] == 0x84 && |buf| >= 6 then
              h == Some(Header(buf[0],
                               0x100_0000 * (buf[2] as int) + 0x1_0000 * (buf[3] as int)
                               + 0x100 * (buf[4] as int) + buf[5], 6))
            else h == None
  {
    if |buf| >= 3 {
      NoOctets(buf, 2);
      NextOctet(buf, 2, 2);
    }
    if |buf| >= 4 {
      NextOctet(buf, 2, 3);
    }
    if |buf| >= 5 {
      NextOctet(buf, 2, 4);
    }
    if |buf| >= 6 {
      NextOctet(buf, 2, 5);
    }
    hide BeNat;
  }

  /** The value of a TLV by its tag: seven tags have a meaning, any other is kept as it is. */
  lemma {:induction false} ValueByTag(u: Utf8, buf: seq<byte>, depth: nat)
    requires ReadTlv(buf).Some? && depth <= 32
    ensures var tag, body, v := Tag(buf), Body(buf), DecodeValue(u, buf, depth).value;
            && (tag == 0x01 ==> v == Bool(body != [] && body[0] != 0))
            && (tag == 0x02 ==> v == Integer(DecodeInteger(body)))
            && (tag == 0x0c ==> v == Str(u.lossy(body)))
            && (ContainerTag(tag) ==> v.Array?)
            && (tag != 0x01 && tag != 0x02 && tag != 0x0c && !ContainerTag(tag) ==> v == Other(tag))
  {
    hide ReadHeader, DecodeInteger, DecodeItems, Frames;
  }

  /** Past the INTEGERs, a first TLV of any other tag hides the entries. */
  lemma {:induction false} OtherTagNotLocated(tag: byte, body: seq<byte>, rest: seq<byte>)
    requires tag != 0x02 && !ContainerTag(tag) && |body| < U32
    ensures FindContainer(Tlv(tag, body) + rest) == None
  {
    HeaderReadsBack(tag, body, rest);
    hide ReadHeader, Tlv;
  }

  // ----- one item per frame -----

  lemma {:induction false} ItemAt(u: Utf8, frames: seq<seq<byte>>, depth: nat, i: nat)
    requires depth <= MAX_DEPTH + 1 && Framed(frames) && i < |frames|
    ensures DecodeItems(u, frames, depth)[i] == DecodeValue(u, frames[i], depth).value
  {
    hide ReadTlv, DecodeValue;
    if i > 0 {
      ItemAt(u, frames[1..], depth, i - 1);
    }
  }

  /** An array decodes to one item for each TLV framed in its body, each decoded from that TLV's
      bytes alone, until the cap. */
  lemma {:induction false} ArrayItems(u: Utf8, buf: seq<byte>, depth: nat)
    requires depth <= 32 && ReadTlv(buf).Some? && ContainerTag(Tag(buf))
    ensures var frames, v := Frames(Body(buf)), DecodeValue(u, buf, depth).value;
            && v.Array?
            && |v.items| == (if |frames| <= 1024 then |frames| else 1024)
            && forall i :: 0 <= i < |v.items| ==>
                 Some(v.items[i]) == DecodeValue(u, frames[i], depth + 1)
  {
    var frames, items := Take(Frames(Body(buf)), MAX_ITEMS), DecodeValue(u, buf, depth).value.items;
    forall i | 0 <= i < |items|
      ensures Some(items[i]) == DecodeValue(u, Frames(Body(buf))[i], depth + 1)
    {
      ItemAt(u, frames, depth + 1, i);
      hide Frames, Body, ReadHeader, DecodeItems;
      assert ReadTlv(frames[i]).Some?;
    }
  }

  // ----- work -----

  function TotalLength(frames: seq<seq<byte>>): nat {
    if frames == [] then 0 else TotalLength(frames[..|frames| - 1]) + |frames[|frames| - 1]|
  }

  lemma {:induction false} TotalAppend(a: seq<seq<byte>>, b: seq<seq<byte>>)
    ensures TotalLength(a + b) == TotalLength(a) + TotalLength(b)
    decreases |b|
  {
    if b == [] {
      assert a + b == a;
    } else {
      TotalAppend(a, b[..|b| - 1]);
      assert (a + b)[..|a + b| - 1] == a + b[..|b| - 1];
    }
  }

  /** Frames are cut from their bytes without overlap. */
  lemma {:induction false} FramesFit(buf: seq<byte>)
    ensures TotalLength(Frames(buf)) <= |buf|
    decreases |buf|
  {
    FirstFrame(buf);
    hide Frames, Body;
    if ReadTlv(buf).Some? {
      var end := ReadTlv(buf).value.headerLen + ReadTlv(buf).value.length;
      FramesFit(buf[end..]);
      TotalAppend([buf[..end]], Frames(buf[end..]));
      OneTotal(buf[..end]);
    }
  }

  lemma {:induction false} OneTotal(frame: seq<byte>)
    ensures TotalLength([frame]) == |frame| && TotalLength([]) == 0
  {
    assert [frame][..0] == [];
  }

  lemma {:induction false} TakeFits(frames: seq<seq<byte>>, n: nat)
    ensures TotalLength(Take(frames, n)) <= TotalLength(frames)
  {
    if |frames| > n {
      TotalAppend(frames[..n], frames[n..]);
      assert frames[..n] + frames[n..] == frames;
    }
  }

  /** Nodes of a value, by its depth and tag. */
  lemma {:induction false} NodesOf(u: Utf8, buf: seq<byte>, depth: nat)
    requires ReadTlv(buf).Some? && DecodeValue(u, buf, depth).Some?
    ensures |buf| >= 2
    ensures var n := ValueNodes(DecodeValue(u, buf, depth).value);
            if depth <= 32 && IsContainer(Tag(buf)) then
              var frames := Take(Frames(Body(buf)), 1024);
              && |buf| >= 2 + |Body(buf)| && Framed(frames)
              && n == 1 + ItemNodes(DecodeItems(u, frames, depth + 1))
            else n == 1
  {
    hide Frames, DecodeItems, DecodeInteger, ItemNodes, ReadHeader;
  }

  lemma {:induction false} ValueFor(u: Utf8, buf: seq<byte>, depth: nat)
    requires ReadTlv(buf).Some?
    ensures DecodeValue(u, buf, depth).Some?
  {
    hide *;
  }

  /** The nodes of a decoded value, and so the calls made to decode it, are at most half the bytes
      they come from. */
  lemma {:induction false} NodesFit(u: Utf8, buf: seq<byte>, depth: nat)
    requires ReadTlv(buf).Some?
    ensures 2 * ValueNodes(DecodeValue(u, buf, depth).value) <= |buf|
    decreases 33 - depth, 1, 0
  {
    hide *;
    ValueFor(u, buf, depth);
    NodesOf(u, buf, depth);
    if depth <= 32 && IsContainer(Tag(buf)) {
      ItemNodesFit(u, Take(Frames(Body(buf)), 1024), depth + 1);
      TakeFits(Frames(Body(buf)), 1024);
      FramesFit(Body(buf));
    }
  }

  lemma {:induction false} ItemNodesFit(u: Utf8, frames: seq<seq<byte>>, depth: nat)
    requires depth <= 33 && Framed(frames)
    ensures 2 * ItemNodes(DecodeItems(u, frames, depth)) <= TotalLength(frames)
    decreases 33 - depth, 2, |frames|
  {
    hide DecodeValue, ReadTlv, ItemNodes, ValueNodes;
    if frames == [] {
      NodesAppend([], Other(0));
    } else {
      var init, last := frames[..|frames| - 1], frames[|frames| - 1];
      assert frames == init + [last];
      AppendItem(u, init, last, depth);
      NodesAppend(DecodeItems(u, init, depth), DecodeValue(u, last, depth).value);
      ItemNodesFit(u, init, depth);
      NodesFit(u, last, depth);
    }
  }

  /** Decoding the value of any entry makes at most half as many calls as it has bytes, and at least
      one. */
  lemma {:induction false} DecodingIsLinear(u: Utf8, buf: seq<byte>)
    ensures var v := DecodeValue(u, buf, 0);
            v.Some? ==> 2 * ValueNodes(v.value) <= |buf|
  {
    if ReadTlv(buf).Some? {
      NodesFit(u, buf, 0);
    }
    hide ReadTlv, ValueNodes, DecodeItems;
  }

  // ----- X.690 encoding -----

  /** Octets of n, and of n as a non-negative INTEGER (section 8.3 of X.690). */
  function OctetCount(n: nat): nat {
    if n < 0x100 then 1 else 1 + OctetCount(n / 0x100)
  }

  function IntegerOctets(n: nat): nat {
    if n < 0x80 then 1 else 1 + IntegerOctets(n / 0x100)
  }

  function LengthSize(n: nat): nat {
    if n < 0x80 then 1 else 1 + OctetCount(n)
  }

  function TlvSize(bodyLen: nat): nat {
    1 + LengthSize(bodyLen) + bodyLen
  }

  function EncodeLength(n: nat): (s: seq<byte>)
    requires n < U32
    ensures |s| == LengthSize(n)
  {
    OctetCountBound(n, 4);
    if n < 0x80 then [n] else [0x80 + OctetCount(n)] + BeBytes(n, OctetCount(n))
  }

  function Tlv(tag: byte, body: seq<byte>): (s: seq<byte>)
    requires |body| < U32
    ensures |s| == TlvSize(|body|)
  {
    [tag] + EncodeLength(|body|) + body
  }

  function ValueSize(v: Value): nat
    decreases v, 1
  {
    match v
    case Bool(_) => TlvSize(1)
    case Integer(n) => TlvSize(if n < 0 then 0 else IntegerOctets(n))
    case Str(text) => TlvSize(|text|)
    case Array(items) => TlvSize(ItemsSize(items))
    case Other(_) => TlvSize(0)
  }

  function ItemsSize(items: seq<Value>): nat
    decreases items, 0
  {
    if items == [] then 0 else ValueSize(items[0]) + ItemsSize(items[1..])
  }

  function EncodeValue(v: Value): (s: seq<byte>)
    requires ValueSize(v) < U32
    ensures |s| == ValueSize(v)
    decreases v, 1
  {
    match v
    case Bool(b) => Tlv(0x01, [if b then 0xff else 0x00])
    case Integer(n) => Tlv(0x02, if n < 0 then [] else BeBytes(n, IntegerOctets(n)))
    case Str(text) => Tlv(0x0c, text)
    case Array(items) => Tlv(0x30, EncodeItems(items))
    case Other(tag) => Tlv(tag, [])
  }

  function EncodeItems(items: seq<Value>): (s: seq<byte>)
    requires ItemsSize(items) < U32
    ensures |s| == ItemsSize(items)
    decreases items, 0
  {
    if items == [] then [] else EncodeValue(items[0]) + EncodeItems(items[1..])
  }

  /** Booleans, integers in 0..2^63, UTF-8 strings and arrays of at most 1024 items, nested no
      deeper than the cap allows. */
  predicate Faithful(u: Utf8, v: Value, depth: nat)
    decreases v
  {
    && depth <= 32
    && match v
       case Bool(_) => true
       case Integer(n) => n >= 0
       case Str(text) => u.valid(text)
       case Array(items) => |items| <= 1024 && forall i :: 0 <= i < |items| ==> Faithful(u, items[i], depth + 1)
       case Other(_) => false
  }

  /** Lossy conversion leaves valid UTF-8 alone. */
  ghost predicate LossyKeepsValid(u: Utf8) {
    forall text :: u.valid(text) ==> u.lossy(text) == text
  }

  // ----- headers read back -----

  lemma {:induction false} OctetCountBound(n: nat, k: nat)
    requires 1 <= k && (n < Pow2(8 * k) || (k == 4 && n < U32))
    ensures 1 <= OctetCount(n) <= k && n < Pow2(8 * OctetCount(n))
    decreases k
  {
    if k == 4 {
      Pow2Is(32);
    }
    Pow2Is(8);
    if n >= 0x100 {
      Pow2Add(8, 8 * (k - 1));
      OctetCountBound(n / 0x100, k - 1);
      Pow2Add(8, 8 * OctetCount(n / 0x100));
    }
  }

  lemma {:induction false} IntegerOctetsBound(n: nat, k: nat)
    requires 1 <= k && n < Pow2(8 * k - 1)
    ensures 1 <= IntegerOctets(n) <= k && n < Pow2(8 * IntegerOctets(n) - 1)
    decreases k
  {
    hide Pow2;
    Pow2Is(7);
    Pow2Is(8);
    if n >= 0x80 {
      assert k > 1 by {
        assert k == 1 ==> 8 * k - 1 == 7;
      }
      Pow2Add(8, 8 * (k - 1) - 1);
      IntegerOctetsBound(n / 0x100, k - 1);
      Pow2Add(8, 8 * IntegerOctets(n / 0x100) - 1);
    }
  }

  lemma {:induction false} LongHeader(buf: seq<byte>, k: nat)
    requires 1 <= k <= 4 && |buf| >= 2 + k && buf[1] == 0x80 + k
    ensures ReadHeader(buf) == Some(Header(buf[0], BeNat(buf[2..2 + k]), 2 + k))
  {
    hide BeNat;
  }

  lemma {:induction false} HeaderReadsBack(tag: byte, body: seq<byte>, rest: seq<byte>)
    requires |body| < U32
    ensures ReadHeader(Tlv(tag, body) + rest) == Some(Header(tag, |body|, 1 + LengthSize(|body|)))
  {
    var n := |body|;
    var buf := Tlv(tag, body) + rest;
    if n < 0x80 {
      hide OctetCount;
      assert buf[0] == tag && buf[1] == n;
    } else {
      OctetCountBound(n, 4);
      var octets := BeBytes(n, OctetCount(n));
      BeRoundTrip(n, OctetCount(n));
      assert Tlv(tag, body) == [tag] + ([0x80 + |octets|] + octets) + body;
      hide *;
      Assoc([tag] + ([0x80 + |octets|] + octets), body, rest);
      LongLayout(buf, tag, 0x80 + |octets|, octets, body + rest);
      LongHeader(buf, |octets|);
      LongLength(n);
    }
  }

  lemma {:induction false} LongLength(n: nat)
    ensures n >= 0x80 ==> LengthSize(n) == 1 + OctetCount(n)
  {
  }

  lemma {:induction false} LongLayout(buf: seq<byte>, tag: byte, lead: byte, octets: seq<byte>, tail: seq<byte>)
    requires buf == [tag] + ([lead] + octets) + tail
    ensures |buf| >= 2 + |octets| && buf[0] == tag && buf[1] == lead && buf[2..2 + |octets|] == octets
  {
  }

  lemma {:induction false} TlvReadsBack(tag: byte, body: seq<byte>, rest: seq<byte>)
    requires |body| < U32
    ensures ReadTlv(Tlv(tag, body) + rest) == Some(Header(tag, |body|, 1 + LengthSize(|body|)))
    ensures Body(Tlv(tag, body) + rest) == body
    ensures Frames(Tlv(tag, body) + rest) == [Tlv(tag, body)] + Frames(rest)
  {
    HeaderReadsBack(tag, body, rest);
    var tlv := Tlv(tag, body);
    var buf := tlv + rest;
    assert buf[..|tlv|] == tlv && buf[|tlv|..] == rest;
    assert buf[1 + LengthSize(|body|)..|tlv|] == body;
  }

  // ----- values read back -----

  lemma {:induction false} IntegerReadsBack(n: i64)
    requires n >= 0
    ensures 1 <= IntegerOctets(n) <= 8 && DecodeInteger(BeBytes(n, IntegerOctets(n))) == n
  {
    var k := IntegerOctets(n);
    Pow2Is(63);
    IntegerOctetsBound(n, 8);
    Pow2Mono(8 * k - 1, 8 * k);
    BeRoundTrip(n, k);
    hide BeNat, BeBytes, Pow2;
  }

  /** The encodings of the items, one frame each. */
  function ItemFrames(items: seq<Value>): seq<seq<byte>>
    requires ItemsSize(items) < U32
  {
    if items == [] then [] else [EncodeValue(items[0])] + ItemFrames(items[1..])
  }

  /** Every encoding is one TLV. */
  lemma {:induction false} ValueIsTlv(v: Value, rest: seq<byte>)
    requires ValueSize(v) < U32
    ensures ReadTlv(EncodeValue(v) + rest).Some?
    ensures Frames(EncodeValue(v) + rest) == [EncodeValue(v)] + Frames(rest)
  {
    hide ReadTlv, Frames, Tlv, TlvSize, BeBytes, IntegerOctets, EncodeItems, ItemsSize;
    match v {
      case Bool(b) => TlvReadsBack(0x01, [if b then 0xff else 0x00], rest);
      case Integer(n) => SizeBound(v); TlvReadsBack(0x02, if n < 0 then [] else BeBytes(n, IntegerOctets(n)), rest);
      case Str(text) => SizeBound(v); TlvReadsBack(0x0c, text, rest);
      case Array(items) => SizeBound(v); TlvReadsBack(0x30, EncodeItems(items), rest);
      case Other(tag) => TlvReadsBack(tag, [], rest);
    }
  }

  lemma {:induction false} SizeBound(v: Value)
    ensures v.Integer? && v.n >= 0 ==> IntegerOctets(v.n) < ValueSize(v)
    ensures v.Str? ==> |v.text| < ValueSize(v)
    ensures v.Array? ==> ItemsSize(v.items) < ValueSize(v)
  {
    hide IntegerOctets, LengthSize, ItemsSize;
  }

  lemma {:induction false} ItemsFrame(items: seq<Value>)
    requires ItemsSize(items) < U32
    ensures Frames(EncodeItems(items)) == ItemFrames(items) && |ItemFrames(items)| == |items|
    ensures Framed(ItemFrames(items))
    decreases |items|
  {
    if items == [] {
      assert ReadTlv([]) == None;
    } else {
      hide ReadTlv, Frames, EncodeValue, ValueSize;
      ItemsFrame(items[1..]);
      ValueIsTlv(items[0], EncodeItems(items[1..]));
      ValueIsTlv(items[0], []);
      assert EncodeValue(items[0]) + [] == EncodeValue(items[0]);
    }
  }

  /** A faithful value's encoding decodes to it, whatever follows, at any depth it fits. */
  lemma {:induction false} ValueReadsBack(u: Utf8, v: Value, rest: seq<byte>, depth: nat)
    requires LossyKeepsValid(u) && Faithful(u, v, depth) && ValueSize(v) < U32
    ensures DecodeValue(u, EncodeValue(v) + rest, depth) == Some(v)
    decreases v, 1
  {
    hide ReadTlv, Body, Tlv, TlvSize, BeBytes, IntegerOctets, EncodeItems, ItemsSize;
    hide DecodeInteger, DecodeItems, Frames;
    SizeBound(v);
    match v {
      case Bool(b) =>
        TlvReadsBack(0x01, [if b then 0xff else 0x00], rest);
      case Integer(n) =>
        TlvReadsBack(0x02, BeBytes(n, IntegerOctets(n)), rest);
        IntegerReadsBack(n);
      case Str(text) =>
        TlvReadsBack(0x0c, text, rest);
      case Array(items) =>
        TlvReadsBack(0x30, EncodeItems(items), rest);
        ItemsFrame(items);
        ItemsReadBack(u, items, depth + 1);
      case Other(_) => assert false;
    }
  }

  lemma {:induction false} ItemsReadBack(u: Utf8, items: seq<Value>, depth: nat)
    requires LossyKeepsValid(u) && ItemsSize(items) < U32 && depth <= MAX_DEPTH + 1
    requires forall i :: 0 <= i < |items| ==> Faithful(u, items[i], depth)
    requires Framed(ItemFrames(items))
    ensures DecodeItems(u, ItemFrames(items), depth) == items
    decreases items, 0
  {
    hide ReadTlv, EncodeValue, DecodeValue, ValueSize, Faithful;
    if items != [] {
      assert Faithful(u, items[0], depth);
      ValueReadsBack(u, items[0], [], depth);
      assert EncodeValue(items[0]) + [] == EncodeValue(items[0]);
      var frames := ItemFrames(items);
      assert frames[1..] == ItemFrames(items[1..]);
      ItemsReadBack(u, items[1..], depth);
    }
  }

  /** The kinds of value `Faithful` speaks of, at any depth and length. */
  predicate Plain(u: Utf8, v: Value) {
    match v
    case Bool(_) => true
    case Integer(n) => n >= 0
    case Str(text) => u.valid(text)
    case Array(items) => forall i :: 0 <= i < |items| ==> Plain(u, items[i])
    case Other(_) => false
  }

  lemma {:induction false} FrameOfItem(items: seq<Value>, i: nat)
    requires ItemsSize(items) < U32 && i < |items|
    ensures i < |ItemFrames(items)| && ValueSize(items[i]) < U32
    ensures ItemFrames(items)[i] == EncodeValue(items[i])
  {
    hide EncodeValue, ValueSize;
    if i > 0 {
      FrameOfItem(items[1..], i - 1);
    }
  }

  lemma {:induction false} CutValueDiffers(u: Utf8, v: Value, rest: seq<byte>, depth: nat)
    requires Plain(u, v) && !Faithful(u, v, depth) && ValueSize(v) < U32
    ensures DecodeValue(u, EncodeValue(v) + rest, depth) != Some(v)
    decreases v
  {
    hide ReadTlv, Body, Tlv, TlvSize, EncodeItems, ItemsSize, DecodeItems, Frames, ItemFrames;
    if depth <= MAX_DEPTH {
      var items := v.items;
      SizeBound(v);
      TlvReadsBack(0x30, EncodeItems(items), rest);
      ItemsFrame(items);
      if |items| <= MAX_ITEMS {
        var i :| 0 <= i < |items| && !Faithful(u, items[i], depth + 1);
        FrameOfItem(items, i);
        ItemAt(u, ItemFrames(items), depth + 1, i);
        CutValueDiffers(u, items[i], [], depth + 1);
        assert EncodeValue(items[i]) + [] == EncodeValue(items[i]);
      }
    }
  }

  /** The caps, exactly: a value of these kinds survives encoding if and only if it is nested no
      deeper than the depth cap and no array in it has more than 1024 items. */
  lemma {:induction false} ValueReadsBackIff(u: Utf8, v: Value, rest: seq<byte>)
    requires LossyKeepsValid(u) && Plain(u, v) && ValueSize(v) < U32
    ensures DecodeValue(u, EncodeValue(v) + rest, 0) == Some(v) <==> Faithful(u, v, 0)
  {
    hide DecodeValue, EncodeValue, Faithful, Plain, ValueSize;
    if Faithful(u, v, 0) {
      ValueReadsBack(u, v, rest, 0);
    } else {
      CutValueDiffers(u, v, rest, 0);
    }
  }

  // ----- entries read back -----

  datatype KeyValue = KeyValue(key: seq<byte>, value: Value)

  function EntrySize(e: KeyValue): nat {
    TlvSize(TlvSize(|e.key|) + ValueSize(e.value))
  }

  function EntriesSize(es: seq<KeyValue>): nat {
    if es == [] then 0 else EntrySize(es[0]) + EntriesSize(es[1..])
  }

  function EntryBody(e: KeyValue): seq<byte>
    requires EntrySize(e) < U32
  {
    Tlv(0x0c, e.key) + EncodeValue(e.value)
  }

  function EncodeEntry(e: KeyValue): (s: seq<byte>)
    requires EntrySize(e) < U32
    ensures |s| == EntrySize(e)
  {
    Tlv(0x30, EntryBody(e))
  }

  /** Bare entries, end to end. */
  function EncodeEntries(es: seq<KeyValue>): (s: seq<byte>)
    requires EntriesSize(es) < U32
    ensures |s| == EntriesSize(es)
  {
    if es == [] then [] else EncodeEntry(es[0]) + EncodeEntries(es[1..])
  }

  /** The entries in their container, after a version INTEGER, inside an outer wrapper. */
  function EncodeWrapped(outer: byte, version: seq<byte>, container: byte, es: seq<KeyValue>): seq<byte>
    requires TlvSize(|version|) + TlvSize(EntriesSize(es)) < U32
  {
    Tlv(outer, Tlv(0x02, version) + Tlv(container, EncodeEntries(es)))
  }

  predicate FaithfulEntries(u: Utf8, es: seq<KeyValue>) {
    forall i :: 0 <= i < |es| ==> u.valid(es[i].key) && Faithful(u, es[i].value, 0)
  }

  function Pairs(es: seq<KeyValue>): seq<(seq<byte>, Value)> {
    seq(|es|, i requires 0 <= i < |es| => (es[i].key, es[i].value))
  }

  lemma {:induction false} EntryReadsBack(u: Utf8, e: KeyValue)
    requires LossyKeepsValid(u) && EntrySize(e) < U32 && u.valid(e.key) && Faithful(u, e.value, 0)
    ensures ReadTlv(EncodeEntry(e)).Some? && Tag(EncodeEntry(e)) == 0x30
    ensures EntryPair(u, Body(EncodeEntry(e))) == Some((e.key, e.value))
  {
    hide ReadTlv, Body, DecodeValue, EncodeValue, ReadHeader;
    var keyTlv, value := Tlv(0x0c, e.key), EncodeValue(e.value);
    TlvReadsBack(0x30, EntryBody(e), []);
    assert EncodeEntry(e) + [] == EncodeEntry(e);
    HeaderReadsBack(0x0c, e.key, value);
    var body := keyTlv + value;
    assert body[|keyTlv|..] == value + [];
    assert body[1 + LengthSize(|e.key|)..|keyTlv|] == e.key;
    ValueReadsBack(u, e.value, [], 0);
  }

  lemma {:induction false} EntriesReadBack(u: Utf8, es: seq<KeyValue>)
    requires LossyKeepsValid(u) && EntriesSize(es) < U32 && FaithfulEntries(u, es)
    ensures PairsOf(u, Frames(EncodeEntries(es))) == Pairs(es)
    decreases |es|
  {
    hide ReadTlv, Body, EncodeEntry, EntryPair, ReadHeader, DecodeValue, Frames, Faithful, EntrySize, PairsOf, Framed;
    if es == [] {
      NoFrames(u);
      assert EncodeEntries(es) == [] && Pairs(es) == [];
    } else {
      var rest := EncodeEntries(es[1..]);
      assert FaithfulEntries(u, es[1..]);
      EntriesReadBack(u, es[1..]);
      EntryReadsBack(u, es[0]);
      EntryFrame(es[0], rest);
      ConsEntry(u, EncodeEntry(es[0]), Frames(rest));
      assert Pairs(es) == [(es[0].key, es[0].value)] + Pairs(es[1..]);
    }
  }

  lemma {:induction false} NoFrames(u: Utf8)
    ensures Frames([]) == [] && PairsOf(u, Frames([])) == []
  {
    assert ReadTlv([]) == None;
  }

  lemma {:induction false} EntryFrame(e: KeyValue, rest: seq<byte>)
    requires EntrySize(e) < U32
    ensures Frames(EncodeEntry(e) + rest) == [EncodeEntry(e)] + Frames(rest)
  {
    hide Frames, ReadTlv, Body, Tlv;
    TlvReadsBack(0x30, EntryBody(e), rest);
  }

  /** Bare entries are not mistaken for a wrapper: their first inner TLV is a key. */
  lemma {:induction false} BareIsNotWrapped(es: seq<KeyValue>)
    requires EntriesSize(es) < U32
    ensures EntriesOf(EncodeEntries(es)) == EncodeEntries(es)
  {
    if es != [] {
      var rest := EncodeEntries(es[1..]);
      hide ReadHeader, ReadTlv, Body, EncodeValue, EncodeLength;
      TlvReadsBack(0x30, EntryBody(es[0]), rest);
      HeaderReadsBack(0x0c, es[0].key, EncodeValue(es[0].value));
    } else {
      assert EncodeEntries(es) == [];
    }
  }

  lemma {:induction false} WrappedIsLocated(outer: byte, version: seq<byte>, container: byte, es: seq<KeyValue>)
    requires TlvSize(|version|) + TlvSize(EntriesSize(es)) < U32 && ContainerTag(container)
    ensures EntriesOf(EncodeWrapped(outer, version, container, es)) == EncodeEntries(es)
  {
    var inner := EncodeEntries(es);
    var versionTlv, innerTlv := Tlv(0x02, version), Tlv(container, inner);
    var body := versionTlv + innerTlv;
    hide ReadTlv, Body, EncodeLength, EncodeEntries, ReadHeader, EntriesSize;
    TlvReadsBack(outer, body, []);
    assert Tlv(outer, body) + [] == Tlv(outer, body);
    HeaderReadsBack(0x02, version, innerTlv);
    HeaderReadsBack(container, inner, []);
    assert innerTlv + [] == innerTlv;
    assert body[|versionTlv|..] == innerTlv;
    assert innerTlv[1 + LengthSize(|inner|)..] == inner;
    ContainerStep(body, 0);
    ContainerStep(body, |versionTlv|);
    assert body[0..] == body;
  }

  /** Every faithful entry list reads back in order, bare or wrapped, with any outer tag. */
  lemma {:induction false} EntitlementsRoundTrip(u: Utf8, es: seq<KeyValue>, outer: byte, version: seq<byte>,
                                                 container: byte)
    requires LossyKeepsValid(u) && FaithfulEntries(u, es) && ContainerTag(container)
    requires TlvSize(|version|) + TlvSize(EntriesSize(es)) < U32
    ensures PairsOf(u, Frames(EntriesOf(EncodeEntries(es)))) == Pairs(es)
    ensures PairsOf(u, Frames(EntriesOf(EncodeWrapped(outer, version, container, es)))) == Pairs(es)
  {
    SmallerThanTlv(es, version);
    hide EntriesOf, PairsOf, Frames, EncodeEntries, EncodeWrapped, Pairs, TlvSize, EntriesSize, Faithful;
    BareIsNotWrapped(es);
    WrappedIsLocated(outer, version, container, es);
    EntriesReadBack(u, es);
  }

  lemma {:induction false} SmallerThanTlv(es: seq<KeyValue>, version: seq<byte>)
    requires TlvSize(|version|) + TlvSize(EntriesSize(es)) < U32
    ensures EntriesSize(es) < U32
  {
  }
}
