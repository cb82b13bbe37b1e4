/** The DER entitlement reader (src/codesign.rs). Text is kept as bytes; whether a key is UTF-8, and
    what a lossy conversion does to a string value, are parameters. */
module Der {
  import opened Bytes

  const MAX_ITEMS: nat := 1024
  const MAX_DEPTH: nat := 32

  datatype Value = Bool(b: bool) | Integer(n: i64) | Str(text: seq<byte>) | Array(items: seq<Value>) | Other(tag: byte)

  /** UTF-8 validation and lossy conversion. */
  datatype Utf8 = Utf8(valid: seq<byte> -> bool, lossy: seq<byte> -> seq<byte>)

  // ----- headers and frames -----

  datatype Header = Header(tag: byte, length: nat, headerLen: nat)

  /** Section 8.1.3 of X.690, with at most four length octets. */
  function ReadHeader(buf: seq<byte>): (h: Option<Header>)
    ensures h.Some? ==> 2 <= h.value.headerLen <= |buf|
  {
    if |buf| < 2 then None
    else if buf[1] < 0x80 then Some(Header(buf[0], buf[1], 2))
    else
      var n := buf[1] % 0x80;
      if n == 0 || n > 4 || 2 + n > |buf| then None
      else Some(Header(buf[0], BeNat(buf[2..2 + n]), 2 + n))
  }

  /** A TLV at the front of `buf`, when it fits. */
  function ReadTlv(buf: seq<byte>): (h: Option<Header>)
    ensures h.Some? ==> 2 <= h.value.headerLen + h.value.length <= |buf|
  {
    var h :- ReadHeader(buf);
    if h.headerLen + h.length <= |buf| then Some(h) else None
  }

  /** Each of these is one TLV, perhaps followed by more bytes. */
  predicate Framed(frames: seq<seq<byte>>) {
    forall i :: 0 <= i < |frames| ==> ReadTlv(frames[i]).Some?
  }

  /** The TLVs laid end to end in `buf`, up to the first that is malformed. */
  function Frames(buf: seq<byte>): (fs: seq<seq<byte>>)
    ensures Framed(fs)
    decreases |buf|
  {
    var h := ReadTlv(buf);
    if h.None? then []
    else
      var end := h.value.headerLen + h.value.length;
      TlvIsLocal(buf);
      [buf[..end]] + Frames(buf[end..])
  }

  function Body(frame: seq<byte>): seq<byte>
    requires ReadTlv(frame).Some?
  {
    var h := ReadTlv(frame).value;
    frame[h.headerLen..h.headerLen + h.length]
  }

  function Tag(frame: seq<byte>): byte
    requires ReadTlv(frame).Some?
  {
    ReadTlv(frame).value.tag
  }

  /** A TLV decodes from its own bytes alone. */
  lemma {:induction false} TlvIsLocal(buf: seq<byte>)
    ensures ReadTlv(buf).Some? ==>
              var h := ReadTlv(buf).value;
              ReadTlv(buf[..h.headerLen + h.length]) == Some(h)
  {
    if ReadTlv(buf).Some? {
      var h := ReadTlv(buf).value;
      var frame := buf[..h.headerLen + h.length];
      if buf[1] >= 0x80 {
        var n := buf[1] as int % 0x80;
        assert frame[2..2 + n] == buf[2..2 + n];
      }
    }
  }

  // ----- values -----

  function DecodeInteger(body: seq<byte>): i64 {
    var head := if |body| <= 8 then body else body[..8];
    BeNatBound(head);
    WideBound(head);
    ToI64(BeNat(head))
  }

  lemma {:induction false} WideBound(head: seq<byte>)
    requires |head| <= 8
    ensures BeNat(head) < U64
    decreases |head|
  {
    BeNatBound(head);
    Pow2Is(64);
    Pow2Mono(8 * |head|, 64);
  }

  predicate IsContainer(tag: byte) {
    tag == 0x30 || tag == 0x31 || tag == 0xa0 || tag == 0xb0
  }

  function Take<T>(s: seq<T>, n: nat): seq<T> {
    if |s| <= n then s else s[..n]
  }

  /** The value of the TLV at the front of `buf`. */
  function DecodeValue(u: Utf8, buf: seq<byte>, depth: nat): (v: Option<Value>)
    ensures ReadTlv(buf).Some? || depth > MAX_DEPTH ==> v.Some?
    decreases MAX_DEPTH + 1 - depth, 0, 0
  {
    if depth > MAX_DEPTH then Some(Other(0))
    else
      var h :- ReadTlv(buf);
      var body := Body(buf);
      Some(if h.tag == 0x01 then Bool(body != [] && body[0] != 0)
           else if h.tag == 0x02 then Integer(DecodeInteger(body))
           else if h.tag == 0x0c then Str(u.lossy(body))
           else if IsContainer(h.tag) then Array(DecodeItems(u, Take(Frames(body), MAX_ITEMS), depth + 1))
           else Other(h.tag))
  }

  /** One value for each framed TLV. */
  function DecodeItems(u: Utf8, frames: seq<seq<byte>>, depth: nat): (vs: seq<Value>)
    requires depth <= MAX_DEPTH + 1
    requires Framed(frames)
    ensures |vs| == |frames|
    decreases MAX_DEPTH + 1 - depth, 1, |frames|
  {
    if frames == [] then []
    else [DecodeValue(u, frames[0], depth).value] + DecodeItems(u, frames[1..], depth)
  }

  /** Values in a decoded value, itself included. */
  function ValueNodes(v: Value): (n: nat)
    ensures n >= 1
    decreases v, 1
  {
    1 + if v.Array? then ItemNodes(v.items) else 0
  }

  function ItemNodes(items: seq<Value>): nat
    decreases items, 0
  {
    if items == [] then 0
    else
      assert items[|items| - 1] in items;
      ItemNodes(items[..|items| - 1]) + ValueNodes(items[|items| - 1])
  }

  // ----- entries -----

  function EntryKey(u: Utf8, seqBody: seq<byte>): Option<seq<byte>> {
    var h :- ReadHeader(seqBody);
    if h.tag != 0x0c || h.headerLen + h.length > |seqBody| then None
    else
      var key := seqBody[h.headerLen..h.headerLen + h.length];
      if u.valid(key) then Some(key) else None
  }

  function EntryPair(u: Utf8, seqBody: seq<byte>): Option<(seq<byte>, Value)> {
    var h :- ReadHeader(seqBody);
    if h.tag != 0x0c || h.headerLen + h.length > |seqBody| then None
    else
      var key := seqBody[h.headerLen..h.headerLen + h.length];
      if !u.valid(key) then None
      else
        var value := DecodeValue(u, seqBody[h.headerLen + h.length..], 0);
        Some((key, if value.Some? then value.value else Other(0)))
  }

  /** The entries container inside an outer wrapper, past any INTEGERs. */
  function FindContainer(body: seq<byte>): Option<seq<byte>>
    decreases |body|
  {
    var h :- ReadHeader(body);
    var end := h.headerLen + h.length;
    if h.tag == 0x02 then (if end > |body| then None else FindContainer(body[end..]))
    else if IsContainer(h.tag) && end <= |body| then Some(body[h.headerLen..end])
    else None
  }

  function LocateEntries(payload: seq<byte>): Option<seq<byte>> {
    var h :- ReadTlv(payload);
    FindContainer(Body(payload))
  }

  function EntriesOf(payload: seq<byte>): seq<byte> {
    var inner := LocateEntries(payload);
    if inner.Some? then inner.value else payload
  }

  /** The key an entry frame contributes: none unless it is a SEQUENCE that starts with one. */
  function FrameKey(u: Utf8, frame: seq<byte>): Option<seq<byte>>
    requires ReadTlv(frame).Some?
  {
    if Tag(frame) == 0x30 then EntryKey(u, Body(frame)) else None
  }

  function FramePair(u: Utf8, frame: seq<byte>): Option<(seq<byte>, Value)>
    requires ReadTlv(frame).Some?
  {
    if Tag(frame) == 0x30 then EntryPair(u, Body(frame)) else None
  }

  function ToSeq<T>(o: Option<T>): seq<T> {
    if o.Some? then [o.value] else []
  }

  lemma {:induction false} ToSeqIs<T>(o: Option<T>)
    ensures ToSeq(o) == if o.Some? then [o.value] else []
    ensures forall s: seq<T> :: s + [] == s
  {
  }

  function KeysOf(u: Utf8, frames: seq<seq<byte>>): seq<seq<byte>>
    requires Framed(frames)
  {
    if frames == [] then [] else ToSeq(FrameKey(u, frames[0])) + KeysOf(u, frames[1..])
  }

  function PairsOf(u: Utf8, frames: seq<seq<byte>>): seq<(seq<byte>, Value)>
    requires Framed(frames)
  {
    if frames == [] then [] else ToSeq(FramePair(u, frames[0])) + PairsOf(u, frames[1..])
  }

  // ----- the decoders with loops -----

  lemma {:induction false} NextOctet(bytes: seq<byte>, lo: nat, k: nat)
    requires lo <= k < |bytes|
    ensures BeNat(bytes[lo..k + 1]) == 256 * BeNat(bytes[lo..k]) + bytes[k]
  {
    assert bytes[lo..k + 1][..k - lo] == bytes[lo..k];
  }

  lemma {:induction false} NoOctets(bytes: seq<byte>, lo: nat)
    requires lo <= |bytes|
    ensures BeNat(bytes[lo..lo]) == 0
  {
  }

  method ReadHeaderIn(buf: seq<byte>) returns (h: Option<Header>)
    ensures h == ReadHeader(buf)
  {
    hide BeNat;
    if |buf| < 2 {
      return None;
    }
    var tag, lenByte := buf[0], buf[1];
    if lenByte < 0x80 {
      return Some(Header(tag, lenByte, 2));
    }
    var n: nat := lenByte % 0x80;
    if n == 0 || n > 4 {
      return None;
    }
    var length: nat := 0;
    NoOctets(buf, 2);
    for i := 0 to n
      invariant 2 + i <= |buf| && length == BeNat(buf[2..2 + i])
    {
      if 2 + i >= |buf| {
        return None;
      }
      NextOctet(buf, 2, 2 + i);
      length := length * 256 + buf[2 + i];
    }
    return Some(Header(tag, length, 2 + n));
  }

  /** The i64 accumulator is kept as its bit pattern, and shifted with wrap-around. */
  method FoldInteger(body: seq<byte>) returns (v: i64)
    ensures v == DecodeInteger(body)
  {
    hide BeNat;
    var count := if |body| <= 8 then |body| else 8;
    var bits: u64 := 0;
    NoOctets(body, 0);
    for i := 0 to count
      invariant bits == BeNat(body[0..i])
    {
      NextOctet(body, 0, i);
      WideBound(body[0..i + 1]);
      bits := Wrap64(bits * 256) + body[i];
    }
    assert body[0..count] == if |body| <= 8 then body else body[..8];
    return ToI64(bits);
  }

  // ----- the walkers -----

  lemma {:induction false} FirstContainer(buf: seq<byte>)
    ensures var h, r := ReadHeader(buf), FindContainer(buf);
            if h.None? then r == None
            else
              var end := h.value.headerLen + h.value.length;
              if h.value.tag == 0x02 then r == if end > |buf| then None else FindContainer(buf[end..])
              else r == if IsContainer(h.value.tag) && end <= |buf| then Some(buf[h.value.headerLen..end]) else None
  {
    hide ReadHeader, IsContainer;
  }

  lemma {:induction false} SliceOfRest(s: seq<byte>, cursor: nat, lo: nat, hi: nat)
    requires cursor <= |s| && lo <= hi && cursor + hi <= |s|
    ensures s[cursor..][lo..hi] == s[cursor + lo..cursor + hi]
    ensures s[cursor..][hi..] == s[cursor + hi..]
  {
  }

  lemma {:induction false} ContainerStep(body: seq<byte>, cursor: nat)
    requires cursor <= |body|
    ensures var h, r := ReadHeader(body[cursor..]), FindContainer(body[cursor..]);
            if h.None? then r == None
            else
              var start := cursor + h.value.headerLen;
              var end := start + h.value.length;
              if h.value.tag == 0x02 then r == if end > |body| then None else FindContainer(body[end..])
              else r == if IsContainer(h.value.tag) && end <= |body| then Some(body[start..end]) else None
  {
    hide *;
    var h := ReadHeader(body[cursor..]);
    FirstContainer(body[cursor..]);
    if h.Some? && cursor + h.value.headerLen + h.value.length <= |body| {
      SliceOfRest(body, cursor, h.value.headerLen, h.value.headerLen + h.value.length);
    }
  }

  lemma {:induction false} OuterBody(payload: seq<byte>)
    ensures var h := ReadHeader(payload);
            if h.None? || h.value.headerLen + h.value.length > |payload| then LocateEntries(payload) == None
            else
              var start := h.value.headerLen;
              LocateEntries(payload) == FindContainer(payload[start..start + h.value.length][0..])
  {
    hide ReadHeader, FindContainer;
    var h := ReadHeader(payload);
    if h.Some? && h.value.headerLen + h.value.length <= |payload| {
      var body := payload[h.value.headerLen..h.value.headerLen + h.value.length];
      assert body[0..] == body;
    }
  }

  method LocateEntriesIn(payload: seq<byte>) returns (r: Option<seq<byte>>)
    ensures r == LocateEntries(payload)
  {
    hide *;
    OuterBody(payload);
    var outer := ReadHeaderIn(payload);
    if outer.None? || outer.value.headerLen + outer.value.length > |payload| {
      return None;
    }
    var body := payload[outer.value.headerLen..outer.value.headerLen + outer.value.length];
    var cursor := 0;
    while true
      invariant cursor <= |body|
      invariant LocateEntries(payload) == FindContainer(body[cursor..])
      decreases |body| - cursor
    {
      ContainerStep(body, cursor);
      var hdr := ReadHeaderIn(body[cursor..]);
      if hdr.None? {
        return None;
      }
      var bodyStart := cursor + hdr.value.headerLen;
      var bodyEnd := bodyStart + hdr.value.length;
      if hdr.value.tag == 0x02 {
        if bodyEnd > |body| {
          return None;
        }
        cursor := bodyEnd;
        continue;
      }
      if IsContainer(hdr.value.tag) && bodyEnd <= |body| {
        return Some(body[bodyStart..bodyEnd]);
      }
      return None;
    }
  }

  lemma {:induction false} FirstFrame(buf: seq<byte>)
    ensures if ReadTlv(buf).None? then Frames(buf) == []
            else
              var h := ReadTlv(buf).value;
              var end := h.headerLen + h.length;
              && ReadTlv(buf[..end]) == Some(h)
              && Body(buf[..end]) == buf[h.headerLen..end]
              && Frames(buf) == [buf[..end]] + Frames(buf[end..])
  {
    TlvIsLocal(buf);
    hide ReadHeader;
  }

  lemma {:induction false} FramesStep(entries: seq<byte>, cursor: nat)
    requires cursor <= |entries|
    ensures var h, frames := ReadTlv(entries[cursor..]), Frames(entries[cursor..]);
            if h.None? then frames == []
            else
              var start := cursor + h.value.headerLen;
              var end := start + h.value.length;
              && ReadTlv(entries[cursor..end]) == h
              && Body(entries[cursor..end]) == entries[start..end]
              && frames == [entries[cursor..end]] + Frames(entries[end..])
  {
    hide *;
    var rest := entries[cursor..];
    FirstFrame(rest);
    if ReadTlv(rest).Some? {
      var start := ReadTlv(rest).value.headerLen;
      var end := start + ReadTlv(rest).value.length;
      SliceOfRest(entries, cursor, 0, end);
      SliceOfRest(entries, cursor, start, end);
      assert rest[..end] == rest[0..end];
    }
  }

  /** Where the walkers stand after one frame of the entries. */
  lemma {:induction false} EntryStep(u: Utf8, entries: seq<byte>, cursor: nat)
    requires cursor <= |entries|
    ensures var h, frames := ReadHeader(entries[cursor..]), Frames(entries[cursor..]);
            if h.None? then KeysOf(u, frames) == [] && PairsOf(u, frames) == []
            else
              var start := cursor + h.value.headerLen;
              var end := start + h.value.length;
              if end > |entries| then KeysOf(u, frames) == [] && PairsOf(u, frames) == []
              else
                var isEntry, body, rest := h.value.tag == 0x30, entries[start..end], Frames(entries[end..]);
                && KeysOf(u, frames) == ToSeq(if isEntry then EntryKey(u, body) else None) + KeysOf(u, rest)
                && PairsOf(u, frames) == ToSeq(if isEntry then EntryPair(u, body) else None) + PairsOf(u, rest)
  {
    hide *;
    HeaderFits(entries[cursor..]);
    FramesStep(entries, cursor);
    var h := ReadTlv(entries[cursor..]);
    if h.None? {
      NoEntries(u);
    } else {
      var end := cursor + h.value.headerLen + h.value.length;
      ConsEntry(u, entries[cursor..end], Frames(entries[end..]));
    }
  }

  lemma {:induction false} HeaderFits(buf: seq<byte>)
    ensures var h := ReadHeader(buf);
            ReadTlv(buf) == if h.Some? && h.value.headerLen + h.value.length <= |buf| then h else None
  {
  }

  lemma {:induction false} NoEntries(u: Utf8)
    ensures KeysOf(u, []) == [] && PairsOf(u, []) == []
  {
  }

  lemma {:induction false} ConsEntry(u: Utf8, frame: seq<byte>, rest: seq<seq<byte>>)
    requires ReadTlv(frame).Some? && Framed(rest)
    ensures Framed([frame] + rest)
    ensures var isEntry := ReadTlv(frame).value.tag == 0x30;
            && KeysOf(u, [frame] + rest)
            == ToSeq(if isEntry then EntryKey(u, Body(frame)) else None) + KeysOf(u, rest)
            && PairsOf(u, [frame] + rest)
            == ToSeq(if isEntry then EntryPair(u, Body(frame)) else None) + PairsOf(u, rest)
  {
    hide ReadTlv, Body, EntryKey, EntryPair, ToSeq;
    assert ([frame] + rest)[1..] == rest;
  }

  method FindEntries(payload: seq<byte>) returns (entries: seq<byte>)
    ensures entries == EntriesOf(payload)
  {
    hide LocateEntries;
    var inner := LocateEntriesIn(payload);
    entries := if inner.Some? then inner.value else payload;
  }

  method FirstUtf8String(u: Utf8, seqBody: seq<byte>) returns (key: Option<seq<byte>>)
    ensures key == EntryKey(u, seqBody)
  {
    hide ReadHeader;
    var hdr := ReadHeaderIn(seqBody);
    if hdr.None? || hdr.value.tag != 0x0c {
      return None;
    }
    var bodyEnd := hdr.value.headerLen + hdr.value.length;
    if bodyEnd > |seqBody| {
      return None;
    }
    var text := seqBody[hdr.value.headerLen..bodyEnd];
    return if u.valid(text) then Some(text) else None;
  }

  method DecodeEntry(u: Utf8, seqBody: seq<byte>) returns (pair: Option<(seq<byte>, Value)>)
    ensures pair == EntryPair(u, seqBody)
  {
    hide ReadHeader, DecodeValue;
    var hdr := ReadHeaderIn(seqBody);
    if hdr.None? || hdr.value.tag != 0x0c {
      return None;
    }
    var keyEnd := hdr.value.headerLen + hdr.value.length;
    if keyEnd > |seqBody| {
      return None;
    }
    var key := seqBody[hdr.value.headerLen..keyEnd];
    if !u.valid(key) {
      return None;
    }
    var value;
    ghost var calls;
    value, calls := DecodeValueAt(u, seqBody[keyEnd..], 0);
    return Some((key, if value.Some? then value.value else Other(0)));
  }

  method CollectKeys(u: Utf8, payload: seq<byte>) returns (out: seq<seq<byte>>)
    ensures out == KeysOf(u, Frames(EntriesOf(payload)))
  {
    hide *;
    var entries := FindEntries(payload);
    out := [];
    var cursor := 0;
    assert entries[0..] == entries;
    while cursor < |entries|
      invariant cursor <= |entries|
      invariant KeysOf(u, Frames(entries)) == out + KeysOf(u, Frames(entries[cursor..]))
      decreases |entries| - cursor
    {
      EntryStep(u, entries, cursor);
      var hdr := ReadHeaderIn(entries[cursor..]);
      if hdr.None? {
        return;
      }
      var bodyStart := cursor + hdr.value.headerLen;
      var bodyEnd := bodyStart + hdr.value.length;
      if bodyEnd > |entries| {
        return;
      }
      var key := None;
      if hdr.value.tag == 0x30 {
        key := FirstUtf8String(u, entries[bodyStart..bodyEnd]);
      }
      ToSeqIs(key);
      Assoc(out, ToSeq(key), KeysOf(u, Frames(entries[bodyEnd..])));
      if key.Some? {
        out := out + [key.value];
      }
      cursor := bodyEnd;
    }
    EntryStep(u, entries, cursor);
  }

  method CollectPairs(u: Utf8, payload: seq<byte>) returns (out: seq<(seq<byte>, Value)>)
    ensures out == PairsOf(u, Frames(EntriesOf(payload)))
  {
    hide *;
    var entries := FindEntries(payload);
    out := [];
    var cursor := 0;
    assert entries[0..] == entries;
    while cursor < |entries|
      invariant cursor <= |entries|
      invariant PairsOf(u, Frames(entries)) == out + PairsOf(u, Frames(entries[cursor..]))
      decreases |entries| - cursor
    {
      EntryStep(u, entries, cursor);
      var hdr := ReadHeaderIn(entries[cursor..]);
      if hdr.None? {
        return;
      }
      var bodyStart := cursor + hdr.value.headerLen;
      var bodyEnd := bodyStart + hdr.value.length;
      if bodyEnd > |entries| {
        return;
      }
      var pair := None;
      if hdr.value.tag == 0x30 {
        pair := DecodeEntry(u, entries[bodyStart..bodyEnd]);
      }
      ToSeqIs(pair);
      Assoc(out, ToSeq(pair), PairsOf(u, Frames(entries[bodyEnd..])));
      if pair.Some? {
        out := out + [pair.value];
      }
      cursor := bodyEnd;
    }
    EntryStep(u, entries, cursor);
  }

  /** Decodes one value. `calls` counts this call and the calls it makes. */
  method DecodeValueAt(u: Utf8, buf: seq<byte>, depth: nat) returns (v: Option<Value>, ghost calls: nat)
    ensures v == DecodeValue(u, buf, depth)
    ensures calls == if v.Some? then ValueNodes(v.value) else 1
    decreases MAX_DEPTH + 1 - depth, 0
  {
    hide DecodeItems, Frames, DecodeInteger, BeNat, Take, ItemNodes;
    if depth > MAX_DEPTH {
      return Some(Other(0)), 1;
    }
    var hdr := ReadHeaderIn(buf);
    if hdr.None? || hdr.value.headerLen + hdr.value.length > |buf| {
      return None, 1;
    }
    var body := buf[hdr.value.headerLen..hdr.value.headerLen + hdr.value.length];
    if hdr.value.tag == 0x01 {
      return Some(Bool(body != [] && body[0] != 0)), 1;
    } else if hdr.value.tag == 0x02 {
      var n := FoldInteger(body);
      return Some(Integer(n)), 1;
    } else if hdr.value.tag == 0x0c {
      return Some(Str(u.lossy(body))), 1;
    } else if IsContainer(hdr.value.tag) {
      var items, itemCalls := DecodeArray(u, body, depth + 1);
      return Some(Array(items)), 1 + itemCalls;
    } else {
      return Some(Other(hdr.value.tag)), 1;
    }
  }

  /** The item loop of an array: one decoded value per frame, up to the cap. */
  method DecodeArray(u: Utf8, body: seq<byte>, depth: nat) returns (items: seq<Value>, ghost calls: nat)
    requires depth <= MAX_DEPTH + 1
    ensures Framed(Take(Frames(body), MAX_ITEMS))
    ensures items == DecodeItems(u, Take(Frames(body), MAX_ITEMS), depth)
    ensures calls == ItemNodes(items)
    decreases MAX_DEPTH + 1 - depth, 1
  {
    hide *;
    items, calls := [], 0;
    ghost var done: seq<seq<byte>> := [];
    var cursor := 0;
    assert body[0..] == body;
    NoItems(u, depth);
    NodesAppend([], Other(0));
    while cursor < |body| && |items| < 1024
      invariant cursor <= |body| && |items| == |done| <= 1024
      invariant Frames(body) == done + Frames(body[cursor..])
      invariant Framed(done)
      invariant items == DecodeItems(u, done, depth)
      invariant calls == ItemNodes(items)
      decreases |body| - cursor
    {
      HeaderFits(body[cursor..]);
      FramesStep(body, cursor);
      var h := ReadHeaderIn(body[cursor..]);
      if h.None? {
        break;
      }
      var end := cursor + h.value.headerLen + h.value.length;
      if end > |body| {
        break;
      }
      var frame := body[cursor..end];
      Assoc(done, [frame], Frames(body[end..]));
      AppendItem(u, done, frame, depth);
      var item, itemCalls := DecodeValueAt(u, frame, depth);
      calls := calls + itemCalls;
      if item.Some? {
        NodesAppend(items, item.value);
        items := items + [item.value];
      }
      done := done + [frame];
      cursor := end;
    }
    HeaderFits(body[cursor..]);
    FramesStep(body, cursor);
    if |items| == 1024 {
      TakePrefix(done, Frames(body[cursor..]));
    } else {
      assert Frames(body) == done;
      TakePrefix(done, []);
    }
  }

  lemma {:induction false} NodesAppend(items: seq<Value>, v: Value)
    ensures ItemNodes([]) == 0
    ensures ItemNodes(items + [v]) == ItemNodes(items) + ValueNodes(v)
  {
    hide ValueNodes;
    assert (items + [v])[..|items|] == items;
  }

  lemma {:induction false} NoItems(u: Utf8, depth: nat)
    requires depth <= MAX_DEPTH + 1
    ensures Framed([]) && DecodeItems(u, [], depth) == []
  {
  }

  lemma {:induction false} TakePrefix<T>(a: seq<T>, b: seq<T>)
    requires |a| == 1024 || (|a| < 1024 && b == [])
    ensures Take(a + b, MAX_ITEMS) == a
  {
  }

  lemma {:induction false} AppendItem(u: Utf8, frames: seq<seq<byte>>, frame: seq<byte>, depth: nat)
    requires depth <= MAX_DEPTH + 1 && ReadTlv(frame).Some?
    requires Framed(frames)
    ensures Framed(frames + [frame])
    ensures DecodeItems(u, frames + [frame], depth)
         == DecodeItems(u, frames, depth) + [DecodeValue(u, frame, depth).value]
  {
    hide ReadTlv, DecodeValue;
    if frames == [] {
      assert [frame][1..] == [];
      assert frames + [frame] == [frame];
    } else {
      AppendItem(u, frames[1..], frame, depth);
      assert (frames + [frame])[1..] == frames[1..] + [frame];
    }
  }
}
