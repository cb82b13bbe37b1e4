/** The LC_FUNCTION_STARTS iterator (src/binary.rs): ULEB128 deltas from the __TEXT address. */
module FunctionStarts {
  import opened Bytes
  import opened Leb128

  /** Every address the rest of a stream still yields after `running`. */
  function Starts(rest: seq<byte>, running: u64): (addrs: seq<u64>)
    decreases |rest|
  {
    var r := Uleb(rest);
    if r.None? || r.value.0 == 0 || running + r.value.0 >= U64 then []
    else
      var addr := running + r.value.0;
      [addr] + Starts(rest[r.value.1..], addr)
  }

  class FunctionStartIter {
    const stream: seq<byte>
    var cursor: nat
    var running: u64
    var done: bool

    ghost predicate Valid()
      reads this
    {
      cursor <= |stream|
    }

    /** What the iterator has yet to yield. */
    ghost function Pending(): seq<u64>
      requires Valid()
      reads this
    {
      if done then [] else Starts(stream[cursor..], running)
    }

    constructor (stream: seq<byte>, base: u64)
      ensures Valid() && this.stream == stream
      ensures Pending() == Starts(stream, base)
    {
      this.stream := stream;
      cursor, running, done := 0, base, false;
      new;
      assert stream[0..] == stream;
    }

    method Next() returns (r: Option<u64>)
      requires Valid()
      modifies this
      ensures Valid()
      ensures old(Pending()) == [] ==> r == None && Pending() == []
      ensures old(Pending()) != [] ==> r == Some(old(Pending())[0]) && Pending() == old(Pending())[1..]
    {
      if done {
        return None;
      }
      var decoded := ReadUleb128(stream[cursor..]);
      if decoded.None? {
        return None;
      }
      var (delta, used) := decoded.value;
      if delta == 0 {
        done := true;
        return None;
      }
      var newCursor := cursor + used;
      var newRunning := CheckedAdd(running, delta);
      if newRunning.None? {
        return None;
      }
      assert stream[cursor..][used..] == stream[newCursor..];
      cursor := newCursor;
      running := newRunning.value;
      return Some(running);
    }
  }

  /** A whole run of the iterator, until its first None. */
  method Collect(stream: seq<byte>, base: u64) returns (addrs: seq<u64>)
    ensures addrs == Starts(stream, base)
  {
    hide *;
    var iter := new FunctionStartIter(stream, base);
    addrs := [];
    var r := iter.Next();
    while r.Some?
      invariant iter.Valid() && fresh(iter)
      invariant Starts(stream, base) == addrs + (if r.Some? then [r.value] + iter.Pending() else [])
      decreases |Starts(stream, base)| - |addrs|
    {
      addrs := addrs + [r.value];
      assert Starts(stream, base) == addrs + iter.Pending();
      ghost var pending := iter.Pending();
      r := iter.Next();
      assert pending != [] ==> pending == [pending[0]] + pending[1..];
    }
  }

  // ----- order -----

  predicate IncreasingAbove(base: int, addrs: seq<u64>) {
    && (addrs != [] ==> base < addrs[0])
    && forall i :: 1 <= i < |addrs| ==> addrs[i - 1] < addrs[i]
  }

  /** On any stream at all the addresses strictly increase and exceed the base. */
  lemma {:induction false} StartsIncrease(stream: seq<byte>, base: u64)
    ensures IncreasingAbove(base, Starts(stream, base))
    decreases |stream|
  {
    hide FrameLen, PayloadValue, Wrap64;
    var addrs := Starts(stream, base);
    if addrs != [] {
      var r := Uleb(stream).value;
      StartsIncrease(stream[r.1..], addrs[0]);
      assert addrs[1..] == Starts(stream[r.1..], addrs[0]);
    }
  }

  // ----- round trip -----

  lemma {:induction false} IncreasingTail(base: int, addrs: seq<u64>)
    requires addrs != [] && IncreasingAbove(base, addrs)
    ensures base < addrs[0] && IncreasingAbove(addrs[0], addrs[1..])
  {
    assert forall i :: 1 <= i < |addrs[1..]| ==> addrs[1..][i - 1] == addrs[i];
  }

  function EncodeDeltas(base: u64, addrs: seq<u64>): seq<byte>
    requires IncreasingAbove(base, addrs)
    decreases |addrs|
  {
    if addrs == [] then []
    else
      IncreasingTail(base, addrs);
      EncodeUleb(addrs[0] - base) + EncodeDeltas(addrs[0], addrs[1..])
  }

  lemma {:induction false} ZeroDecodes(stream: seq<byte>)
    requires stream != [] && stream[0] == 0
    ensures Uleb(stream) == Some((0, 1))
  {
    var frame := stream[..1];
    assert PayloadValue(frame) == frame[0] % 128 + 128 * PayloadValue(frame[1..]);
    FrameLenIs(stream, 1);
    hide PayloadValue, FrameLen;
  }

  /** Encoding any strictly increasing list above the base, then a zero and padding, yields
      exactly that list. */
  lemma {:induction false} FunctionStartsRoundTrip(base: u64, addrs: seq<u64>, padding: seq<byte>)
    requires IncreasingAbove(base, addrs)
    ensures Starts(EncodeDeltas(base, addrs) + [0] + padding, base) == addrs
    decreases |addrs|
  {
    hide Uleb, EncodeUleb;
    var stream := EncodeDeltas(base, addrs) + [0] + padding;
    if addrs == [] {
      ZeroDecodes(stream);
    } else {
      IncreasingTail(base, addrs);
      var delta := EncodeUleb(addrs[0] - base);
      var rest := EncodeDeltas(addrs[0], addrs[1..]) + [0] + padding;
      assert stream == delta + rest;
      UlebRoundTrip(addrs[0] - base, rest);
      assert stream[|delta|..] == rest;
      FunctionStartsRoundTrip(addrs[0], addrs[1..], padding);
    }
  }
}
