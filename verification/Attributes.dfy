/** The property-attribute splitter (src/objc/property.rs): items separated by unquoted commas. A
    string is its UTF-8 bytes; a key is the character whose code point is the item's first byte. */
module Attributes {
  import opened Bytes
  import opened Utf8Str

  const QUOTE: byte := 0x22
  const COMMA: byte := 0x2c
  const TYPE_KEY: codepoint := 0x54

  datatype Item = Item(key: codepoint, value: seq<byte>)

  datatype Parsed = Parsed(typeEncoding: seq<byte>, items: seq<Item>)

  /** Index of the first unquoted comma, or the length when there is none. */
  function ItemEnd(s: seq<byte>, inQuotes: bool): (n: nat)
    ensures n <= |s| && (n < |s| ==> s[n] == COMMA)
  {
    if s == [] then 0
    else if s[0] == QUOTE then 1 + ItemEnd(s[1..], !inQuotes)
    else if s[0] == COMMA && !inQuotes then 0
    else 1 + ItemEnd(s[1..], inQuotes)
  }

  predicate IsBoundary(s: seq<byte>, i: nat) {
    i == 0 || i == |s| || (i < |s| && !IsContinuation(s[i]))
  }

  /** A string slice; empty where it would cut a character in two. */
  function Slice(s: seq<byte>, i: nat, j: nat): seq<byte>
    requires i <= j <= |s|
  {
    if IsBoundary(s, i) && IsBoundary(s, j) then s[i..j] else []
  }

  /** The items of s from index i on. */
  function ItemsFrom(s: seq<byte>, i: nat): seq<Item>
    requires i <= |s|
    decreases |s| - i
  {
    if i == |s| then []
    else
      var j := EndOf(s, i);
      [Item(s[i], Slice(s, i + 1, j))] + if j < |s| then ItemsFrom(s, j + 1) else []
  }

  /** The first non-empty value under the type key. */
  function TypeOf(items: seq<Item>): seq<byte> {
    if items == [] then []
    else if TypeOf(items[..|items| - 1]) != [] then TypeOf(items[..|items| - 1])
    else if items[|items| - 1].key == TYPE_KEY then items[|items| - 1].value
    else []
  }

  lemma {:induction false} EndStep(s: seq<byte>, j: nat, inQuotes: bool)
    requires j <= |s|
    ensures var n := ItemEnd(s[j..], inQuotes);
            if j == |s| then n == 0
            else if s[j] == 0x22 then n == 1 + ItemEnd(s[j + 1..], !inQuotes)
            else if s[j] == 0x2c && !inQuotes then n == 0
            else n == 1 + ItemEnd(s[j + 1..], inQuotes)
  {
    if j < |s| {
      assert s[j..][1..] == s[j + 1..];
    }
  }

  /** The end of the item that starts at i. */
  function EndOf(s: seq<byte>, i: nat): (j: nat)
    requires i < |s|
    ensures i < j <= |s| && (j < |s| ==> s[j] == COMMA)
  {
    i + 1 + ItemEnd(s[i + 1..], false)
  }

  lemma {:induction false} ItemsStep(s: seq<byte>, i: nat)
    requires i <= |s|
    ensures if i == |s| then ItemsFrom(s, i) == []
            else
              var j := EndOf(s, i);
              && j == i + 1 + ItemEnd(s[i + 1..], false)
              && (j < |s| ==> s[j] == 0x2c)
              && ItemsFrom(s, i)
              == [Item(s[i], Slice(s, i + 1, j))] + ItemsFrom(s, if j < |s| then j + 1 else j)
  {
    hide ItemEnd, Slice;
  }

  lemma {:induction false} TypeStep(items: seq<Item>, item: Item)
    ensures TypeOf([]) == []
    ensures TypeOf(items + [item])
         == if item.key == 0x54 && TypeOf(items) == [] then item.value else TypeOf(items)
  {
    assert (items + [item])[..|items|] == items;
  }

  method ParseAttributes(s: seq<byte>) returns (p: Parsed)
    ensures p.items == ItemsFrom(s, 0)
    ensures p.typeEncoding == TypeOf(p.items)
  {
    hide *;
    var items: seq<Item> := [];
    var typeEncoding: seq<byte> := [];
    var i := 0;
    TypeStep([], Item(0, []));
    while i < |s|
      invariant i <= |s|
      invariant ItemsFrom(s, 0) == items + ItemsFrom(s, i)
      invariant typeEncoding == TypeOf(items)
      decreases |s| - i
    {
      ItemsStep(s, i);
      var key: codepoint := s[i];
      var valueStart := i + 1;
      var j := valueStart;
      var inQuotes := false;
      while j < |s|
        invariant valueStart <= j <= |s|
        invariant j + ItemEnd(s[j..], inQuotes) == EndOf(s, i)
        decreases |s| - j
      {
        EndStep(s, j, inQuotes);
        var c := s[j];
        if c == 0x22 {
          inQuotes := !inQuotes;
        } else if c == 0x2c && !inQuotes {
          break;
        }
        j := j + 1;
      }
      EndStep(s, j, inQuotes);
      var item := Item(key, Slice(s, valueStart, j));
      TypeStep(items, item);
      Assoc(items, [item], ItemsFrom(s, if j < |s| then j + 1 else j));
      if key == 0x54 && typeEncoding == [] {
        typeEncoding := item.value;
      }
      items := items + [item];
      i := j;
      if i < |s| && s[i] == 0x2c {
        i := i + 1;
      }
    }
    ItemsStep(s, i);
    return Parsed(typeEncoding, items);
  }
}
