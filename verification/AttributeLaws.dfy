/** When splitting attributes loses nothing, and when splitting a join gives back the items. */
module AttributeLaws {
  import opened Bytes
  import opened Utf8Str
  import opened Attributes

  function ItemText(item: Item): seq<byte> {
    EncodeChar(item.key) + item.value
  }

  /** The items' keys and values, separated by commas. */
  function Join(items: seq<Item>): seq<byte> {
    if items == [] then []
    else ItemText(items[0]) + if |items| == 1 then [] else [COMMA] + Join(items[1..])
  }

  // ----- joining what was split -----

  /** The item between i and j is its own text: its key is ASCII, or it is just the character
      U+00C3, whose first byte is its code point. */
  predicate KeepsText(s: seq<byte>, i: nat, j: nat)
    requires i < j <= |s|
  {
    s[i] < 0x80 || s[i..j] == [0xC3, 0x83]
  }

  /** So for every item from the one at i on. */
  predicate AllKeepText(s: seq<byte>, i: nat)
    requires i <= |s|
    decreases |s| - i
  {
    i == |s| || (KeepsText(s, i, EndOf(s, i)) && (EndOf(s, i) < |s| ==> AllKeepText(s, EndOf(s, i) + 1)))
  }

  /** The split ended on a separator with nothing after it. */
  predicate DanglingComma(s: seq<byte>, i: nat)
    requires i <= |s|
    decreases |s| - i
  {
    i < |s| && EndOf(s, i) < |s| && (EndOf(s, i) + 1 == |s| || DanglingComma(s, EndOf(s, i) + 1))
  }

  lemma {:induction false} AsciiKeepsText(s: seq<byte>, i: nat)
    requires i <= |s| && forall k :: 0 <= k < |s| ==> s[k] < 0x80
    ensures AllKeepText(s, i)
    decreases |s| - i
  {
    if i < |s| && EndOf(s, i) < |s| {
      AsciiKeepsText(s, EndOf(s, i) + 1);
    }
  }

  /** Items start and values end where characters do. */
  lemma {:induction false} NextItemValid(s: seq<byte>, i: nat)
    requires i < |s| && ValidUtf8(s[i..])
    ensures EndOf(s, i) < |s| ==> ValidUtf8(s[EndOf(s, i) + 1..])
    ensures if s[i] < 0x80 then |s| == i + 1 || !IsContinuation(s[i + 1])
            else 0xC2 <= s[i] < 0xF5 && |s| > i + 1 && IsContinuation(s[i + 1])
  {
    hide ItemEnd, ValidUtf8;
    var j := EndOf(s, i);
    AfterFirstByte(s[i..]);
    if j < |s| {
      CutAtBoundary(s[i..], j - i);
      assert s[i..][j - i..] == s[j..];
      FirstChar(s[j..]);
      assert s[j..][1..] == s[j + 1..];
    }
  }

  /** The text of the item at i: its own bytes, or, when the key is cut, the key's alone. */
  lemma {:induction false} SplitText(s: seq<byte>, i: nat)
    requires i < |s| && ValidUtf8(s[i..])
    ensures var text := ItemText(Item(s[i], Slice(s, i + 1, EndOf(s, i))));
            if s[i] < 0x80 then text == s[i..EndOf(s, i)]
            else Slice(s, i + 1, EndOf(s, i)) == [] && text == EncodeChar(s[i])
  {
    NextItemValid(s, i);
    var j := EndOf(s, i);
    if s[i] < 0x80 {
      assert s[i..j] == [s[i]] + s[i + 1..j];
    } else {
      assert EncodeChar(s[i]) + [] == EncodeChar(s[i]);
      CutSlice(s, i);
    }
    hide ItemEnd, ValidUtf8, EncodeChar;
  }

  /** A scan never stops on the rest of a cut key's character. */
  lemma {:induction false} CutSlice(s: seq<byte>, i: nat)
    requires i + 1 < |s| && IsContinuation(s[i + 1])
    ensures EndOf(s, i) >= i + 2 && Slice(s, i + 1, EndOf(s, i)) == []
  {
    EndStep(s, i + 1, false);
  }

  lemma {:induction false} JoinStep(s: seq<byte>, i: nat)
    requires i < |s|
    ensures var j := EndOf(s, i);
            var first := ItemText(Item(s[i], Slice(s, i + 1, j)));
            var rest := ItemsFrom(s, if j < |s| then j + 1 else j);
            && Join(ItemsFrom(s, i)) == (if rest == [] then first else first + ([0x2c] + Join(rest)))
            && (rest == [] <==> j + 1 >= |s|)
  {
    hide ItemEnd, Slice, EndOf, ItemText;
    ItemsStep(s, i);
    var j := EndOf(s, i);
    var rest := ItemsFrom(s, if j < |s| then j + 1 else j);
    var items := ItemsFrom(s, i);
    assert items[1..] == rest;
  }

  lemma {:induction false} KeysStep(s: seq<byte>, i: nat)
    requires i < |s|
    ensures var j := EndOf(s, i);
            && AllKeepText(s, i) == (KeepsText(s, i, j) && (j < |s| ==> AllKeepText(s, j + 1)))
            && DanglingComma(s, i) == (j < |s| && (j + 1 == |s| || DanglingComma(s, j + 1)))
            && (j < |s| ==> s[j] == 0x2c)
  {
    hide EndOf, KeepsText;
  }

  lemma {:induction false} NothingLeft(s: seq<byte>)
    ensures AllKeepText(s, |s|) && !DanglingComma(s, |s|)
    ensures s[|s|..] == [] && ItemsFrom(s, |s|) == [] && Join([]) == []
  {
  }

  lemma {:induction false} CutAt(s: seq<byte>, i: nat, j: nat)
    requires i <= j < |s|
    ensures s[i..] == s[i..j] + ([s[j]] + s[j + 1..])
  {
  }

  lemma {:induction false} KeptText(s: seq<byte>, i: nat)
    requires i < |s| && ValidUtf8(s[i..]) && KeepsText(s, i, EndOf(s, i))
    ensures ItemText(Item(s[i], Slice(s, i + 1, EndOf(s, i)))) == s[i..EndOf(s, i)]
  {
    SplitText(s, i);
    if s[i] >= 0x80 {
      assert s[i] == s[i..EndOf(s, i)][0];
    }
    hide ItemEnd, ValidUtf8, ItemText;
  }

  /** A kept item, its separator, and the rest of the string. */
  lemma {:induction false} Glue(front: seq<byte>, comma: byte, rest: seq<byte>, dangling: seq<byte>)
    ensures front + ([comma] + (rest + dangling)) == front + ([comma] + rest) + dangling
  {
  }

  lemma {:induction false} KeptIsLossless(s: seq<byte>, i: nat)
    requires i <= |s| && ValidUtf8(s[i..]) && AllKeepText(s, i)
    ensures s[i..] == Join(ItemsFrom(s, i)) + if DanglingComma(s, i) then [0x2c] else []
    decreases |s| - i
  {
    hide *;
    NothingLeft(s);
    if i < |s| {
      var j := EndOf(s, i);
      KeysStep(s, i);
      JoinStep(s, i);
      KeptText(s, i);
      NextItemValid(s, i);
      if j == |s| {
        assert s[i..] == s[i..j] + [];
      } else {
        CutAt(s, i, j);
        if j + 1 == |s| {
          assert s[j + 1..] == [];
          assert [s[j]] + [] == [s[j]];
        } else {
          KeptIsLossless(s, j + 1);
          Glue(s[i..j], s[j], Join(ItemsFrom(s, j + 1)), if DanglingComma(s, j + 1) then [0x2c] else []);
        }
      }
    }
  }

  /** A join that starts with another character than the string, or ends or has a separator where
      the string goes on. */
  lemma {:induction false} CutItemDiffers(s: seq<byte>, joined: seq<byte>, first: seq<byte>, rest: seq<byte>)
    requires |s| >= 2 && |first| == 2 && (s[..2] == first ==> |s| > 2 && s[2] != 0x2c)
    requires joined == first || joined == first + ([0x2c] + rest)
    ensures s != joined && s != joined + [0x2c]
  {
    assert joined[..2] == first && (joined + [0x2c])[..2] == first;
    assert (joined + [0x2c])[2] == 0x2c;
  }

  /** Differing tails behind the same front and comma stay different. */
  lemma {:induction false} TailDiffers(front: seq<byte>, comma: byte, tail: seq<byte>, rest: seq<byte>)
    requires tail != rest && tail != rest + [0x2c]
    ensures front + ([comma] + tail) != front + ([comma] + rest)
    ensures front + ([comma] + tail) != front + ([comma] + rest) + [0x2c]
  {
    var n := |front| + 1;
    assert (front + ([comma] + tail))[n..] == tail;
    assert (front + ([comma] + rest))[n..] == rest;
    assert (front + ([comma] + rest) + [0x2c])[n..] == rest + [0x2c];
  }

  /** An item that is not its own text: the key's character replaces it. */
  lemma {:induction false} LostText(s: seq<byte>, i: nat)
    requires i < |s| && ValidUtf8(s[i..]) && !KeepsText(s, i, EndOf(s, i))
    ensures var first := ItemText(Item(s[i], Slice(s, i + 1, EndOf(s, i))));
            && |s[i..]| >= 2 && |first| == 2
            && (s[i..][..2] == first ==> |s[i..]| > 2 && s[i..][2] != 0x2c)
  {
    NextItemValid(s, i);
    SplitText(s, i);
    CutSlice(s, i);
    EndStep(s, i + 1, false);
    EndStep(s, i + 2, false);
    var j := EndOf(s, i);
    hide ItemEnd, ValidUtf8, Slice;
    assert s[i..][..2] == [s[i], s[i + 1]];
    assert EncodeChar(s[i]) == [0xC0 + s[i] as int / 0x40, 0x80 + s[i] as int % 0x40];
    if s[i..][..2] == EncodeChar(s[i]) {
      assert s[i] == 0xC3 && s[i + 1] == 0x83;
      assert s[i..i + 2] == [0xC3, 0x83];
      assert j > i + 2;
    }
  }

  /** When an item is lost, the join differs from the string, dangling comma or not. */
  lemma {:induction false} LostIsLossy(s: seq<byte>, i: nat)
    requires i <= |s| && ValidUtf8(s[i..]) && !AllKeepText(s, i)
    ensures s[i..] != Join(ItemsFrom(s, i)) && s[i..] != Join(ItemsFrom(s, i)) + [0x2c]
    decreases |s| - i
  {
    hide *;
    NothingLeft(s);
    KeysStep(s, i);
    JoinStep(s, i);
    var j := EndOf(s, i);
    if !KeepsText(s, i, j) {
      LostText(s, i);
      CutItemDiffers(s[i..], Join(ItemsFrom(s, i)), ItemText(Item(s[i], Slice(s, i + 1, j))),
                     Join(ItemsFrom(s, if j < |s| then j + 1 else j)));
    } else {
      KeptText(s, i);
      NextItemValid(s, i);
      LostIsLossy(s, j + 1);
      CutAt(s, i, j);
      TailDiffers(s[i..j], s[j], s[j + 1..], Join(ItemsFrom(s, j + 1)));
    }
  }

  /** Exactly when splitting loses nothing: joining the items gives the string back, up to one
      trailing comma, if and only if every item's key is ASCII or the item is just U+00C3. */
  lemma {:induction false} LosslessIff(s: seq<byte>)
    requires ValidUtf8(s)
    ensures var joined := Join(ItemsFrom(s, 0));
            (s == joined || s == joined + [COMMA]) <==> AllKeepText(s, 0)
  {
    assert s[0..] == s;
    if AllKeepText(s, 0) {
      KeptIsLossless(s, 0);
    } else {
      LostIsLossy(s, 0);
    }
  }

  /** The string U+00E9: split into the key U+00C3 and an empty value, which join to U+00C3. */
  lemma {:induction false} AccentIsLost()
    ensures var s: seq<byte> := [0xC3, 0xA9];
            && ValidUtf8(s) && ItemsFrom(s, 0) == [Item(0xC3, [])]
            && Join(ItemsFrom(s, 0)) == [0xC3, 0x83]
  {
    var s: seq<byte> := [0xC3, 0xA9];
    ShortItem(s);
    FirstChar(s);
    assert s[2..] == [];
  }

  /** A string of one two-byte character is one item, and only its first byte is kept. */
  lemma {:induction false} ShortItem(s: seq<byte>)
    requires |s| == 2 && IsContinuation(s[1])
    ensures ItemsFrom(s, 0) == [Item(s[0], [])]
  {
    EndStep(s, 1, false);
    EndStep(s, 2, false);
    ItemsStep(s, 0);
    ItemsStep(s, 2);
  }

  /** For ASCII strings splitting is always lossless. */
  lemma {:induction false} AsciiIsLossless(s: seq<byte>)
    requires forall k :: 0 <= k < |s| ==> s[k] < 0x80
    ensures s == Join(ItemsFrom(s, 0)) + if DanglingComma(s, 0) then [COMMA] else []
  {
    AsciiKeepsText(s, 0);
    AsciiIsValid(s);
    assert s[0..] == s;
    KeptIsLossless(s, 0);
  }

  // ----- splitting what was joined -----

  /** Whether a scan of `s` ends inside quotes. */
  predicate QuotedAfter(s: seq<byte>, inQuotes: bool) {
    if s == [] then inQuotes else QuotedAfter(s[1..], if s[0] == QUOTE then !inQuotes else inQuotes)
  }

  /** Values, each a string, whose commas are all quoted, the non-final ones with balanced quotes. */
  predicate Canonical(items: seq<Item>) {
    forall i :: 0 <= i < |items| ==>
      && FitsAlone(items[i].value)
      && (i < |items| - 1 ==> !QuotedAfter(items[i].value, false))
  }

  predicate FitsAlone(value: seq<byte>) {
    ItemEnd(value, false) == |value| && ValidUtf8(value)
  }

  /** What an item comes back as: of a key that is not ASCII only the first byte, without the value. */
  function Resplit(item: Item): Item {
    Item(EncodeChar(item.key)[0], if item.key < 0x80 then item.value else [])
  }

  function ResplitAll(items: seq<Item>): seq<Item> {
    if items == [] then [] else [Resplit(items[0])] + ResplitAll(items[1..])
  }

  /** Items that come back as they are: an ASCII key, or U+00C3 with no value. */
  predicate Returns(item: Item) {
    item.key < 0x80 || item == Item(0xC3, [])
  }

  lemma {:induction false} ReturnsIff(item: Item)
    ensures Resplit(item) == item <==> Returns(item)
  {
  }

  lemma {:induction false} AllReturnIff(items: seq<Item>)
    ensures |ResplitAll(items)| == |items|
    ensures ResplitAll(items) == items <==> forall i :: 0 <= i < |items| ==> Returns(items[i])
    decreases |items|
  {
    if items != [] {
      ReturnsIff(items[0]);
      AllReturnIff(items[1..]);
      hide Resplit, Returns;
      assert items == [items[0]] + items[1..] && ResplitAll(items)[1..] == ResplitAll(items[1..]);
      assert forall i :: 0 < i < |items| ==> items[i] == items[1..][i - 1];
      assert forall i :: 0 <= i < |items[1..]| ==> items[1..][i] == items[i + 1];
    }
  }

  lemma {:induction false} ScanValue(value: seq<byte>, inQuotes: bool, tail: seq<byte>)
    requires ItemEnd(value, inQuotes) == |value|
    requires tail != [] ==> tail[0] == COMMA && !QuotedAfter(value, inQuotes)
    ensures ItemEnd(value + tail, inQuotes) == |value|
  {
    if value == [] {
      assert value + tail == tail;
    } else {
      assert (value + tail)[1..] == value[1..] + tail;
      ScanValue(value[1..], if value[0] == QUOTE then !inQuotes else inQuotes, tail);
    }
  }

  lemma {:induction false} EndOfSuffix(p: seq<byte>, t: seq<byte>, i: nat)
    requires i < |t|
    ensures EndOf(p + t, |p| + i) == |p| + EndOf(t, i)
    ensures Slice(p + t, |p| + i + 1, |p| + EndOf(t, i)) == Slice(t, i + 1, EndOf(t, i))
    ensures (p + t)[|p| + i] == t[i]
  {
    hide ItemEnd, IsContinuation;
    assert (p + t)[|p| + i + 1..] == t[i + 1..];
    assert (p + t)[|p| + i + 1..|p| + EndOf(t, i)] == t[i + 1..EndOf(t, i)];
  }

  lemma {:induction false} ItemsOfSuffix(p: seq<byte>, t: seq<byte>, i: nat)
    requires i <= |t|
    ensures ItemsFrom(p + t, |p| + i) == ItemsFrom(t, i)
    decreases |t| - i
  {
    hide *;
    ItemsStep(p + t, |p| + i);
    ItemsStep(t, i);
    if i < |t| {
      EndOfSuffix(p, t, i);
      var j := EndOf(t, i);
      ItemsOfSuffix(p, t, if j < |t| then j + 1 else j);
    }
  }

  /** Bytes from 0x80 on are neither quotes nor commas. */
  lemma {:induction false} ScanHigh(high: seq<byte>, s: seq<byte>, inQuotes: bool)
    requires forall k :: 0 <= k < |high| ==> high[k] >= 0x80
    ensures ItemEnd(high + s, inQuotes) == |high| + ItemEnd(s, inQuotes)
    ensures QuotedAfter(high + s, inQuotes) == QuotedAfter(s, inQuotes)
  {
    if high == [] {
      assert high + s == s;
    } else {
      ScanHigh(high[1..], s, inQuotes);
      assert (high + s)[1..] == high[1..] + s;
    }
  }

  /** A scan of an item's text past the first byte stops at the separator after it. */
  lemma {:induction false} ScanItem(item: Item, tail: seq<byte>)
    requires FitsAlone(item.value)
    requires tail != [] ==> tail[0] == COMMA && !QuotedAfter(item.value, false)
    ensures var rest := EncodeChar(item.key)[1..] + item.value; ItemEnd(rest + tail, false) == |rest|
  {
    var high := EncodeChar(item.key)[1..];
    ScanHigh(high, item.value, false);
    hide EncodeChar, ItemEnd, QuotedAfter, ValidUtf8;
    ScanValue(high + item.value, false, tail);
  }

  lemma {:induction false} FirstSlice(s: seq<byte>, item: Item, tail: seq<byte>)
    requires s == ItemText(item) + tail && FitsAlone(item.value)
    requires tail != [] ==> tail[0] == COMMA
    ensures [s[0]] == [EncodeChar(item.key)[0]]
    ensures Slice(s, 1, |ItemText(item)|) == Resplit(item).value
  {
    if item.key < 0x80 {
      if item.value != [] {
        FirstChar(item.value);
      }
      hide ItemEnd, ValidUtf8;
      assert s[1..1 + |item.value|] == item.value;
    } else {
      hide ItemEnd, ValidUtf8;
      assert s[1] == EncodeChar(item.key)[1];
    }
  }

  /** The first item of a join, and what follows it. */
  lemma {:induction false} FirstOfJoin(s: seq<byte>, item: Item, tail: seq<byte>)
    requires s == ItemText(item) + tail && FitsAlone(item.value)
    requires tail != [] ==> tail[0] == COMMA && !QuotedAfter(item.value, false)
    ensures EndOf(s, 0) == |ItemText(item)|
    ensures Item(s[0], Slice(s, 1, EndOf(s, 0))) == Resplit(item)
  {
    ItemTextIs(item);
    hide *;
    ScanItem(item, tail);
    FirstSlice(s, item, tail);
    DropFirst(EncodeChar(item.key), item.value, tail);
    FirstEnd(s);
  }

  lemma {:induction false} ItemTextIs(item: Item)
    ensures ItemText(item) == EncodeChar(item.key) + item.value
    ensures Resplit(item).key == EncodeChar(item.key)[0]
  {
  }

  lemma {:induction false} DropFirst(a: seq<byte>, b: seq<byte>, c: seq<byte>)
    requires a != []
    ensures (a + b + c)[1..] == a[1..] + b + c
  {
  }

  lemma {:induction false} FirstEnd(s: seq<byte>)
    requires s != []
    ensures EndOf(s, 0) == 1 + ItemEnd(s[1..], false)
  {
    hide ItemEnd;
  }

  lemma {:induction false} JoinParts(items: seq<Item>)
    requires items != []
    ensures var tail: seq<byte> := if |items| == 1 then [] else [0x2c] + Join(items[1..]);
            && Join(items) == ItemText(items[0]) + tail
            && (|items| > 1 ==> Join(items) == (ItemText(items[0]) + [0x2c]) + Join(items[1..]))
  {
    assert COMMA == 0x2c;
    hide ItemText;
    Assoc(ItemText(items[0]), [0x2c], Join(items[1..]));
  }

  lemma {:induction false} CanonicalParts(items: seq<Item>)
    requires items != [] && Canonical(items)
    ensures Canonical(items[1..]) && FitsAlone(items[0].value)
    ensures |items| > 1 ==> !QuotedAfter(items[0].value, false)
  {
    hide FitsAlone, QuotedAfter;
    assert forall k :: 0 <= k < |items[1..]| ==> items[1..][k] == items[k + 1];
  }

  lemma {:induction false} ResplitStep(items: seq<Item>)
    requires items != []
    ensures ResplitAll(items) == [Resplit(items[0])] + ResplitAll(items[1..])
    ensures ResplitAll([]) == []
  {
  }

  /** The last item of a join comes back alone. */
  lemma {:induction false} ResplitLast(item: Item)
    requires FitsAlone(item.value)
    ensures ItemsFrom(ItemText(item), 0) == [Resplit(item)]
  {
    hide *;
    var s := ItemText(item);
    assert s + [] == s;
    FirstOfJoin(s, item, []);
    ItemsStep(s, 0);
    ItemsStep(s, |s|);
  }

  lemma {:induction false} FirstItem(s: seq<byte>, item: Item, j: nat)
    requires j < |s| && EndOf(s, 0) == j && Item(s[0], Slice(s, 1, j)) == item
    ensures ItemsFrom(s, 0) == [item] + ItemsFrom(s, j + 1)
  {
    ItemsStep(s, 0);
    hide *;
  }

  /** Any other item comes back before the items of what follows its separator. */
  lemma {:induction false} ResplitFirst(item: Item, rest: seq<byte>)
    requires FitsAlone(item.value) && !QuotedAfter(item.value, false)
    ensures ItemsFrom((ItemText(item) + [0x2c]) + rest, 0) == [Resplit(item)] + ItemsFrom(rest, 0)
  {
    hide *;
    var front := ItemText(item) + [0x2c];
    FirstBeforeComma(item, rest);
    SuffixItems(front, rest);
    FirstItem(front + rest, Resplit(item), |front| - 1);
  }

  lemma {:induction false} SuffixItems(front: seq<byte>, rest: seq<byte>)
    ensures ItemsFrom(front + rest, |front|) == ItemsFrom(rest, 0)
  {
    hide *;
    ItemsOfSuffix(front, rest, 0);
  }

  lemma {:induction false} FirstBeforeComma(item: Item, rest: seq<byte>)
    requires FitsAlone(item.value) && !QuotedAfter(item.value, false)
    ensures var front := ItemText(item) + [0x2c];
            var s, j := front + rest, |front| - 1;
            EndOf(s, 0) == j && Item(s[0], Slice(s, 1, j)) == Resplit(item)
  {
    assert COMMA == 0x2c;
    hide *;
    var text := ItemText(item);
    CommaTail(text, rest);
    FirstOfJoin((text + [0x2c]) + rest, item, [0x2c] + rest);
  }

  lemma {:induction false} CommaTail(text: seq<byte>, rest: seq<byte>)
    ensures (text + [0x2c]) + rest == text + ([0x2c] + rest)
  {
  }

  lemma {:induction false} JoinResplits(items: seq<Item>)
    requires Canonical(items)
    ensures ItemsFrom(Join(items), 0) == ResplitAll(items)
    decreases |items|
  {
    if items != [] {
      hide *;
      ResplitStep(items);
      CanonicalParts(items);
      JoinParts(items);
      if |items| > 1 {
        ResplitFirst(items[0], Join(items[1..]));
        JoinResplits(items[1..]);
      } else {
        ResplitLast(items[0]);
        assert ItemText(items[0]) + [] == ItemText(items[0]);
        assert items[1..] == [];
      }
    }
  }

  /** Splitting the join gives exactly the items if and only if every key is ASCII, or U+00C3
      without a value. */
  lemma {:induction false} JoinSplits(items: seq<Item>)
    requires Canonical(items)
    ensures ItemsFrom(Join(items), 0) == items <==> forall i :: 0 <= i < |items| ==> Returns(items[i])
  {
    JoinResplits(items);
    AllReturnIff(items);
  }

  /** The join of such items is a string, so splitting it again makes sense. */
  lemma {:induction false} JoinIsUtf8(items: seq<Item>)
    requires Canonical(items)
    ensures ValidUtf8(Join(items))
    decreases |items|
  {
    if items == [] {
      AsciiIsValid([]);
    } else {
      hide *;
      CanonicalParts(items);
      JoinParts(items);
      ItemIsUtf8(items[0]);
      if |items| > 1 {
        AsciiIsValid([0x2c]);
        JoinIsUtf8(items[1..]);
        ValidCat([0x2c], Join(items[1..]));
        ValidCat(ItemText(items[0]), [0x2c] + Join(items[1..]));
      } else {
        assert ItemText(items[0]) + [] == ItemText(items[0]);
      }
    }
  }

  lemma {:induction false} ItemIsUtf8(item: Item)
    requires FitsAlone(item.value)
    ensures ValidUtf8(ItemText(item))
  {
    EncodedValid(item.key);
    ValidCat(EncodeChar(item.key), item.value);
  }

  lemma {:induction false} ScanPrefix(s: seq<byte>, inQuotes: bool)
    ensures var n := ItemEnd(s, inQuotes);
            && ItemEnd(s[..n], inQuotes) == n
            && (n < |s| ==> !QuotedAfter(s[..n], inQuotes))
  {
    var n := ItemEnd(s, inQuotes);
    if n > 0 {
      ScanPrefix(s[1..], if s[0] == QUOTE then !inQuotes else inQuotes);
      assert s[..n][1..] == s[1..][..n - 1];
    }
  }

  lemma {:induction false} ScanNothing()
    ensures ItemEnd([], false) == 0 && !QuotedAfter([], false) && ValidUtf8([])
  {
  }

  lemma {:induction false} PrefixFits(rest: seq<byte>)
    requires ValidUtf8(rest)
    ensures var value := rest[..ItemEnd(rest, false)];
            FitsAlone(value) && (|value| < |rest| ==> !QuotedAfter(value, false))
  {
    ScanPrefix(rest, false);
    hide ItemEnd, QuotedAfter, ValidUtf8;
    CutAtBoundary(rest, ItemEnd(rest, false));
  }

  lemma {:induction false} AsciiValue(s: seq<byte>, i: nat)
    requires i < |s| && ValidUtf8(s[i..]) && s[i] < 0x80
    ensures var j := EndOf(s, i);
            && ValidUtf8(s[i + 1..]) && j == i + 1 + ItemEnd(s[i + 1..], false)
            && Slice(s, i + 1, j) == s[i + 1..][..j - i - 1]
  {
    NextItemValid(s, i);
    FirstChar(s[i..]);
    hide ItemEnd, ValidUtf8;
    assert s[i..][1..] == s[i + 1..];
  }

  /** A split value is a string with no unquoted comma; if a separator follows, its quotes are
      balanced. */
  lemma {:induction false} SplitValueFits(s: seq<byte>, i: nat)
    requires i < |s| && ValidUtf8(s[i..])
    ensures var j := EndOf(s, i);
            && FitsAlone(Slice(s, i + 1, j))
            && (j < |s| ==> !QuotedAfter(Slice(s, i + 1, j), false))
  {
    hide *;
    if s[i] >= 0x80 {
      NextItemValid(s, i);
      CutSlice(s, i);
      EmptyFits();
    } else {
      AsciiValue(s, i);
      PrefixFits(s[i + 1..]);
    }
  }

  lemma {:induction false} EmptyFits()
    ensures FitsAlone([]) && !QuotedAfter([], false)
  {
  }

  lemma {:induction false} PrependCanonical(item: Item, rest: seq<Item>)
    requires FitsAlone(item.value) && Canonical(rest)
    requires rest != [] ==> !QuotedAfter(item.value, false)
    ensures Canonical([item] + rest)
  {
    hide FitsAlone, QuotedAfter;
    var items := [item] + rest;
    assert forall k :: 1 <= k < |items| ==> items[k] == rest[k - 1];
  }

  lemma {:induction false} NoneCanonical()
    ensures Canonical([]) && CutKeysBare([])
  {
  }

  /** A cut key leaves its item without a value. */
  predicate CutKeysBare(items: seq<Item>) {
    forall i :: 0 <= i < |items| && items[i].key >= 0x80 ==> items[i].value == []
  }

  lemma {:induction false} PrependBare(item: Item, rest: seq<Item>)
    requires CutKeysBare(rest) && (item.key >= 0x80 ==> item.value == [])
    ensures CutKeysBare([item] + rest)
  {
  }

  lemma {:induction false} SplitIsCanonical(s: seq<byte>, i: nat)
    requires i <= |s| && ValidUtf8(s[i..])
    ensures Canonical(ItemsFrom(s, i)) && CutKeysBare(ItemsFrom(s, i))
    decreases |s| - i
  {
    hide *;
    ItemsStep(s, i);
    NoneCanonical();
    ScanNothing();
    assert s[|s|..] == [];
    if i < |s| {
      SplitValueFits(s, i);
      SplitText(s, i);
      NextItemValid(s, i);
      var j := EndOf(s, i);
      var next := if j < |s| then j + 1 else j;
      SplitIsCanonical(s, next);
      ItemsStep(s, next);
      PrependCanonical(Item(s[i], Slice(s, i + 1, j)), ItemsFrom(s, next));
      PrependBare(Item(s[i], Slice(s, i + 1, j)), ItemsFrom(s, next));
    }
  }

  /** Every item from the one at i on starts with an ASCII byte or with 0xC3. */
  predicate FirstBytesReturn(s: seq<byte>, i: nat)
    requires i <= |s|
    decreases |s| - i
  {
    i == |s| || ((s[i] < 0x80 || s[i] == 0xC3) && (EndOf(s, i) < |s| ==> FirstBytesReturn(s, EndOf(s, i) + 1)))
  }

  predicate KeysReturn(items: seq<Item>) {
    forall k :: 0 <= k < |items| ==> items[k].key < 0x80 || items[k].key == 0xC3
  }

  lemma {:induction false} KeysReturnCons(item: Item, rest: seq<Item>)
    ensures KeysReturn([])
    ensures KeysReturn([item] + rest) <==> (item.key < 0x80 || item.key == 0xC3) && KeysReturn(rest)
  {
    var items := [item] + rest;
    assert items[0] == item && forall k :: 0 <= k < |rest| ==> items[k + 1] == rest[k];
  }

  lemma {:induction false} FirstBytesStep(s: seq<byte>, i: nat)
    requires i <= |s|
    ensures FirstBytesReturn(s, i)
       <==> i == |s|
            || ((s[i] < 0x80 || s[i] == 0xC3)
                && FirstBytesReturn(s, if EndOf(s, i) < |s| then EndOf(s, i) + 1 else |s|))
  {
    hide EndOf;
  }

  /** The keys of a split are the items' first bytes. */
  lemma {:induction false} KeysAreFirstBytes(s: seq<byte>, i: nat)
    requires i <= |s|
    ensures KeysReturn(ItemsFrom(s, i)) <==> FirstBytesReturn(s, i)
    decreases |s| - i
  {
    hide *;
    ItemsStep(s, i);
    FirstBytesStep(s, i);
    if i == |s| {
      KeysReturnCons(Item(0, []), []);
    } else {
      var j := EndOf(s, i);
      var next := if j < |s| then j + 1 else j;
      KeysAreFirstBytes(s, next);
      KeysReturnCons(Item(s[i], Slice(s, i + 1, j)), ItemsFrom(s, next));
    }
  }

  lemma {:induction false} BareKeysReturn(items: seq<Item>)
    requires CutKeysBare(items)
    ensures KeysReturn(items) <==> forall k :: 0 <= k < |items| ==> Returns(items[k])
  {
  }

  /** Splitting the join of a split changes nothing if and only if every item of the string starts
      with an ASCII byte or with 0xC3. */
  lemma {:induction false} SplitIsStable(s: seq<byte>)
    requires ValidUtf8(s)
    ensures var items := ItemsFrom(s, 0);
            && ValidUtf8(Join(items))
            && (ItemsFrom(Join(items), 0) == items <==> FirstBytesReturn(s, 0))
  {
    hide *;
    assert s[0..] == s;
    SplitIsCanonical(s, 0);
    JoinIsUtf8(ItemsFrom(s, 0));
    JoinSplits(ItemsFrom(s, 0));
    BareKeysReturn(ItemsFrom(s, 0));
    KeysAreFirstBytes(s, 0);
  }

  /** The string U+00A1: its key U+00C2 joins to two bytes, which split to the key U+00C3. */
  lemma {:induction false} ExclamationIsUnstable()
    ensures var s: seq<byte> := [0xC2, 0xA1];
            && ValidUtf8(s) && ItemsFrom(s, 0) == [Item(0xC2, [])]
            && ItemsFrom(Join(ItemsFrom(s, 0)), 0) == [Item(0xC3, [])]
  {
    var s: seq<byte> := [0xC2, 0xA1];
    ShortItem(s);
    FirstChar(s);
    assert s[2..] == [];
    assert Join([Item(0xC2, [])]) == [0xC3, 0x82];
    ShortItem([0xC3, 0x82]);
  }

  // ----- what the documentation promises -----

  /** The value of a leading type item (src/objc/property.rs:78-79). */
  function LeadingType(items: seq<Item>): seq<byte> {
    if items != [] && items[0].key == TYPE_KEY then items[0].value else []
  }

  predicate NoType(items: seq<Item>) {
    forall k :: 0 <= k < |items| && items[k].key == TYPE_KEY ==> items[k].value == []
  }

  lemma {:induction false} NoTypeAppend(items: seq<Item>, item: Item)
    ensures NoType([])
    ensures NoType(items + [item]) <==> NoType(items) && (item.key == TYPE_KEY ==> item.value == [])
    ensures LeadingType(items + [item]) == if items == [] then LeadingType([item]) else LeadingType(items)
  {
    var all := items + [item];
    assert all[|items|] == item && forall k :: 0 <= k < |items| ==> all[k] == items[k];
  }

  lemma {:induction false} TypeFacts(items: seq<Item>)
    ensures TypeOf(items) == [] <==> NoType(items)
    ensures LeadingType(items) != [] ==> TypeOf(items) == LeadingType(items)
    decreases |items|
  {
    NoTypeAppend([], Item(0, []));
    if items != [] {
      hide NoType, TypeOf;
      var init, last := items[..|items| - 1], items[|items| - 1];
      assert items == init + [last];
      TypeFacts(init);
      NoTypeAppend(init, last);
      TypeStep(init, last);
      assert TYPE_KEY == 0x54;
    }
  }

  /** The type encoding is the leading item's, as documented, if and only if that is there or no
      type item has a value at all. */
  lemma {:induction false} TypeIsLeadingIff(items: seq<Item>)
    ensures TypeOf(items) == LeadingType(items) <==> LeadingType(items) != [] || NoType(items)
  {
    TypeFacts(items);
    hide TypeOf, NoType;
  }

  lemma {:induction false} TwoItems(s: seq<byte>)
    requires |s| == 4 && s[1] == COMMA && s[3] != COMMA && s[3] != QUOTE && !IsContinuation(s[3])
    ensures ItemsFrom(s, 0) == [Item(s[0], []), Item(s[2], [s[3]])]
  {
    EndStep(s, 1, false);
    EndStep(s, 3, false);
    EndStep(s, 4, false);
    ItemsStep(s, 0);
    ItemsStep(s, 2);
    ItemsStep(s, 4);
    hide ItemsFrom, ItemEnd;
    assert s[3..4] == [s[3]];
  }

  /** In `C,Tq` the leading item is no type item, yet the type encoding is `q`. */
  lemma {:induction false} LaterTypeTaken()
    ensures var items := ItemsFrom([0x43, 0x2c, 0x54, 0x71], 0);
            TypeOf(items) == [0x71] && LeadingType(items) == []
  {
    TwoItems([0x43, 0x2c, 0x54, 0x71]);
    TypeStep([], Item(0x43, []));
    TypeStep([Item(0x43, [])], Item(0x54, [0x71]));
    assert [] + [Item(0x43, [])] == [Item(0x43, [])];
    assert [Item(0x43, [])] + [Item(0x54, [0x71])] == [Item(0x43, []), Item(0x54, [0x71])];
  }

  /** Where the item at i ends when its first byte, too, can be a separator or open quotes: the
      documented reading (src/objc/property.rs:185-191). */
  function DocumentedEnd(s: seq<byte>, i: nat): nat
    requires i < |s|
  {
    i + ItemEnd(s[i..], false)
  }

  /** The two quote states agree on where a string ends exactly when it has no comma. */
  lemma {:induction false} QuoteStates(s: seq<byte>)
    ensures ItemEnd(s, true) == ItemEnd(s, false) <==> COMMA !in s
  {
    if s != [] {
      QuoteStates(s[1..]);
      assert s == [s[0]] + s[1..];
    }
  }

  /** An item ends where documented if and only if its first byte is no comma, and no quote before
      any comma: the code takes the first byte as a key unread. */
  lemma {:induction false} EndAsDocumentedIff(s: seq<byte>, i: nat)
    requires i < |s|
    ensures EndOf(s, i) == DocumentedEnd(s, i) <==> s[i] != COMMA && (s[i] == QUOTE ==> COMMA !in s[i + 1..])
  {
    EndStep(s, i, false);
    QuoteStates(s[i + 1..]);
    hide ItemEnd;
  }

  /** An item without a value, before the items after its separator. */
  lemma {:induction false} BareItem(s: seq<byte>, i: nat)
    requires i + 1 < |s| && s[i + 1] == COMMA
    ensures EndOf(s, i) == i + 1 && ItemsFrom(s, i) == [Item(s[i], [])] + ItemsFrom(s, i + 2)
  {
    EndStep(s, i + 1, false);
    ItemsStep(s, i);
    hide ItemsFrom, ItemEnd;
    assert s[i + 1..i + 1] == [];
  }

  lemma {:induction false} LastBareItem(s: seq<byte>, i: nat)
    requires i + 1 == |s|
    ensures ItemsFrom(s, i) == [Item(s[i], [])]
  {
    EndStep(s, i + 1, false);
    ItemsStep(s, i);
    ItemsStep(s, i + 1);
    hide ItemsFrom, ItemEnd;
    assert s[i + 1..i + 1] == [];
  }

  lemma {:induction false} QuotedEnd(s: seq<byte>)
    requires |s| >= 4 && s[0] == QUOTE && s[1] == COMMA && s[2] == QUOTE && s[3] == COMMA
    ensures DocumentedEnd(s, 0) == 3
  {
    EndStep(s, 0, false);
    EndStep(s, 1, true);
    EndStep(s, 2, true);
    EndStep(s, 3, false);
    hide ItemEnd;
  }

  /** The string `",",R`: its first comma is quoted, and separates. */
  lemma {:induction false} QuotedCommaSplits()
    ensures var s: seq<byte> := [0x22, 0x2c, 0x22, 0x2c, 0x52];
            && ItemsFrom(s, 0) == [Item(0x22, []), Item(0x22, []), Item(0x52, [])]
            && EndOf(s, 0) == 1 && DocumentedEnd(s, 0) == 3
  {
    var s: seq<byte> := [0x22, 0x2c, 0x22, 0x2c, 0x52];
    BareItem(s, 0);
    BareItem(s, 2);
    LastBareItem(s, 4);
    QuotedEnd(s);
    hide *;
  }
}
