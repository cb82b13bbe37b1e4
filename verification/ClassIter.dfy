/** The Objective-C class iterator (src/objc/class.rs): de-duplicated classes, each followed by its
    metaclass. */
module ClassIter {
  import opened Bytes

  /** What `decode_class` reads at a class address; whether a row is a metaclass is the caller's. */
  datatype ClassT = ClassT(isa: u64, superclass: u64, bits: u64)

  datatype ObjcClass = ObjcClass(address: u64, class_: ClassT, isMeta: bool)

  /** A list section: its address and its length in bytes. */
  datatype Section = Section(vmaddr: u64, len: nat)

  /** The image: pointer slots resolve, and classes decode, or not. */
  datatype ObjcRuntime = ObjcRuntime(classList: Option<Section>, nlclsList: Option<Section>,
                                     resolve: u64 -> Option<u64>, decode: u64 -> Option<ClassT>)
  {
    function DecodeClass(va: u64, isMeta: bool): Option<ObjcClass> {
      var c :- decode(va);
      Some(ObjcClass(va, c, isMeta))
    }

    /** The address in the slot `off` bytes into a section, 0 when it does not resolve. */
    function SlotAt(sec: Section, off: nat): u64 {
      var va := resolve((sec.vmaddr + off) % 0x1_0000_0000_0000_0000);
      if va.Some? then va.value else 0
    }

    /** The addresses in the whole 8-byte slots of a section from `off` on. */
    function Slots(sec: Section, off: nat): seq<u64>
      decreases sec.len - off
    {
      if off + 8 > sec.len then [] else [SlotAt(sec, off)] + Slots(sec, off + 8)
    }

    /** Every slot of both lists, in order. */
    function AllSlots(): seq<u64> {
      (if classList.Some? then Slots(classList.value, 0) else [])
      + (if nlclsList.Some? then Slots(nlclsList.value, 0) else [])
    }
  }

  // ----- what a run yields -----

  /** The non-zero elements, each at its first occurrence. */
  function FirstOccurrences(s: seq<u64>): (r: seq<u64>)
    ensures forall x :: x in r <==> x in s && x != 0
    ensures forall i, j :: 0 <= i < j < |r| ==> r[i] != r[j]
  {
    if s == [] then []
    else
      var init, x := FirstOccurrences(s[..|s| - 1]), s[|s| - 1];
      assert s == s[..|s| - 1] + [x];
      if x == 0 || x in init then init else init + [x]
  }

  function MetaRows(rt: ObjcRuntime, meta: Option<u64>): seq<ObjcClass> {
    if meta.Some? && rt.DecodeClass(meta.value, true).Some? then [rt.DecodeClass(meta.value, true).value] else []
  }

  /** The metaclass address to visit after a class: its `isa`, unless null or itself. */
  function MetaOf(c: ObjcClass): Option<u64> {
    if c.class_.isa != 0 && c.class_.isa != c.address then Some(c.class_.isa) else None
  }

  function ClassRows(rt: ObjcRuntime, va: u64): seq<ObjcClass> {
    var c := rt.DecodeClass(va, false);
    if c.None? then [] else [c.value] + MetaRows(rt, MetaOf(c.value))
  }

  function Rows(rt: ObjcRuntime, addrs: seq<u64>): seq<ObjcClass> {
    if addrs == [] then [] else ClassRows(rt, addrs[0]) + Rows(rt, addrs[1..])
  }

  // ----- the iterator -----

  class ClassIter {
    const rt: ObjcRuntime
    var classAddrs: seq<u64>
    var pendingMeta: Option<u64>

    /** What the iterator has yet to yield. */
    ghost function Pending(): seq<ObjcClass>
      reads this
    {
      MetaRows(rt, pendingMeta) + Rows(rt, classAddrs)
    }

    constructor (rt: ObjcRuntime)
      ensures this.rt == rt
      ensures Pending() == Rows(rt, FirstOccurrences(rt.AllSlots()))
    {
      var ordered := OrderedAddresses(rt);
      this.rt := rt;
      classAddrs := ordered;
      pendingMeta := None;
    }

    method Next() returns (r: Option<ObjcClass>)
      modifies this
      ensures old(Pending()) == [] ==> r == None && Pending() == []
      ensures old(Pending()) != [] ==> r == Some(old(Pending())[0]) && Pending() == old(Pending())[1..]
    {
      ghost var all := Pending();
      hide Rows;
      var meta := pendingMeta;
      pendingMeta := None;
      if meta.Some? {
        var c := rt.DecodeClass(meta.value, true);
        if c.Some? {
          assert all == [c.value] + Pending();
          return c;
        }
      }
      assert all == Rows(rt, classAddrs);
      while true
        invariant pendingMeta == None && Rows(rt, classAddrs) == all
        decreases |classAddrs|
      {
        RowsStep(rt, classAddrs);
        if classAddrs == [] {
          return None;
        }
        var va := classAddrs[0];
        classAddrs := classAddrs[1..];
        var c := rt.DecodeClass(va, false);
        if c.None? {
          continue;
        }
        if c.value.class_.isa != 0 && c.value.class_.isa != va {
          pendingMeta := Some(c.value.class_.isa);
        }
        assert all == [c.value] + Pending();
        return c;
      }
    }
  }

  lemma {:induction false} RowsStep(rt: ObjcRuntime, addrs: seq<u64>)
    ensures if addrs == [] then Rows(rt, addrs) == []
            else
              var c, rest := rt.DecodeClass(addrs[0], false), Rows(rt, addrs[1..]);
              if c.None? then Rows(rt, addrs) == rest
              else Rows(rt, addrs) == [c.value] + (MetaRows(rt, MetaOf(c.value)) + rest)
  {
    hide MetaRows;
    if addrs != [] && rt.DecodeClass(addrs[0], false).Some? {
      var c := rt.DecodeClass(addrs[0], false).value;
      Assoc([c], MetaRows(rt, MetaOf(c)), Rows(rt, addrs[1..]));
    } else if addrs != [] {
      assert [] + Rows(rt, addrs[1..]) == Rows(rt, addrs[1..]);
    }
  }

  function Sections(rt: ObjcRuntime): seq<Section> {
    (if rt.classList.Some? then [rt.classList.value] else [])
    + (if rt.nlclsList.Some? then [rt.nlclsList.value] else [])
  }

  function SlotsOf(rt: ObjcRuntime, sections: seq<Section>): seq<u64> {
    if sections == [] then [] else rt.Slots(sections[0], 0) + SlotsOf(rt, sections[1..])
  }

  lemma {:induction false} SectionsCover(rt: ObjcRuntime)
    ensures SlotsOf(rt, Sections(rt)) == rt.AllSlots()
  {
    hide ObjcRuntime.Slots;
    if rt.classList.Some? {
      OneSection(rt, rt.classList.value);
      if rt.nlclsList.Some? {
        OneSection(rt, rt.nlclsList.value);
        assert Sections(rt)[1..] == [rt.nlclsList.value];
      }
    } else if rt.nlclsList.Some? {
      OneSection(rt, rt.nlclsList.value);
    }
  }

  lemma {:induction false} OneSection(rt: ObjcRuntime, sec: Section)
    ensures SlotsOf(rt, [sec]) == rt.Slots(sec, 0)
  {
    hide ObjcRuntime.Slots;
    assert [sec][1..] == [];
  }

  lemma {:induction false} NextSection(rt: ObjcRuntime, sections: seq<Section>, k: nat)
    requires k <= |sections|
    ensures SlotsOf(rt, sections[k..])
         == if k == |sections| then [] else rt.Slots(sections[k], 0) + SlotsOf(rt, sections[k + 1..])
  {
    if k < |sections| {
      assert sections[k..][1..] == sections[k + 1..];
    }
  }

  lemma {:induction false} NextSlot(rt: ObjcRuntime, sec: Section, off: nat)
    ensures rt.Slots(sec, off) == if off + 8 > sec.len then [] else [rt.SlotAt(sec, off)] + rt.Slots(sec, off + 8)
  {
  }

  lemma {:induction false} NextOccurrence(visited: seq<u64>, x: u64)
    ensures FirstOccurrences([]) == []
    ensures var before := FirstOccurrences(visited);
            FirstOccurrences(visited + [x]) == if x == 0 || x in before then before else before + [x]
  {
    assert (visited + [x])[..|visited|] == visited;
  }

  /** The constructor's loops: slots of both lists, skipping null and seen addresses. */
  method OrderedAddresses(rt: ObjcRuntime) returns (ordered: seq<u64>)
    ensures ordered == FirstOccurrences(rt.AllSlots())
  {
    hide *;
    var seen: set<u64> := {};
    ordered := [];
    var sections := Sections(rt);
    ghost var visited: seq<u64>, all := [], rt.AllSlots();
    SectionsCover(rt);
    NextOccurrence([], 0);
    assert sections[0..] == sections && [] + all == all;
    for k := 0 to |sections|
      invariant all == visited + SlotsOf(rt, sections[k..])
      invariant ordered == FirstOccurrences(visited)
      invariant forall x :: x in seen <==> x in ordered
    {
      var sec := sections[k];
      var off := 0;
      ghost var later := SlotsOf(rt, sections[k + 1..]);
      NextSection(rt, sections, k);
      Assoc(visited, rt.Slots(sec, 0), later);
      while off + 8 <= sec.len
        invariant all == visited + rt.Slots(sec, off) + later
        invariant ordered == FirstOccurrences(visited)
        invariant forall x :: x in seen <==> x in ordered
        decreases sec.len - off
      {
        NextSlot(rt, sec, off);
        var va := rt.SlotAt(sec, off);
        off := off + 8;
        Assoc(visited, [va], rt.Slots(sec, off));
        NextOccurrence(visited, va);
        visited := visited + [va];
        if va == 0 {
          continue;
        }
        if va !in seen {
          seen := seen + {va};
          ordered := ordered + [va];
        }
      }
      NextSlot(rt, sec, off);
      assert visited + [] == visited;
    }
    NextSection(rt, sections, |sections|);
    assert visited + [] == visited;
  }

  /** A whole run of the iterator, until its first None. */
  method Collect(rt: ObjcRuntime) returns (rows: seq<ObjcClass>)
    ensures rows == Rows(rt, FirstOccurrences(rt.AllSlots()))
  {
    hide *;
    var iter := new ClassIter(rt);
    ghost var all := iter.Pending();
    rows := [];
    var r := iter.Next();
    while r.Some?
      invariant fresh(iter)
      invariant all == rows + (if r.Some? then [r.value] + iter.Pending() else [])
      decreases |all| - |rows|
    {
      rows := rows + [r.value];
      assert all == rows + iter.Pending();
      ghost var pending := iter.Pending();
      r := iter.Next();
      assert pending != [] ==> pending == [pending[0]] + pending[1..];
    }
  }

  // ----- laws of a complete run -----

  /** Every metaclass row directly follows the instance row whose `isa` it is. */
  ghost predicate MetasFollow(rows: seq<ObjcClass>) {
    forall i :: 0 <= i < |rows| && rows[i].isMeta ==>
      i > 0 && !rows[i - 1].isMeta && MetaOf(rows[i - 1]) == Some(rows[i].address)
  }

  /** No two instance rows share an address, and all come from `addrs`. */
  ghost predicate InstancesDiffer(rows: seq<ObjcClass>, addrs: seq<u64>) {
    && (forall i :: 0 <= i < |rows| && !rows[i].isMeta ==> rows[i].address in addrs)
    && (forall i, j :: 0 <= i < j < |rows| && !rows[i].isMeta && !rows[j].isMeta ==> rows[i].address != rows[j].address)
  }

  /** The class's `isa` is neither null nor its own address, and decodes. */
  predicate HasMeta(rt: ObjcRuntime, va: u64) {
    var c := rt.decode(va);
    c.Some? && c.value.isa != 0 && c.value.isa != va && rt.decode(c.value.isa).Some?
  }

  /** At index i is the instance row of `va`, followed by its metaclass row when it has one and by no
      metaclass row otherwise. */
  ghost predicate ClassAt(rt: ObjcRuntime, rows: seq<ObjcClass>, i: nat, va: u64) {
    && rt.decode(va).Some? && i < |rows|
    && rows[i] == ObjcClass(va, rt.decode(va).value, false)
    && if HasMeta(rt, va) then
         var isa := rt.decode(va).value.isa;
         i + 1 < |rows| && rows[i + 1] == ObjcClass(isa, rt.decode(isa).value, true)
       else i + 1 == |rows| || !rows[i + 1].isMeta
  }

  // ----- the listed addresses -----

  /** What the k-th pointer of a section resolves to, 0 when it does not. */
  function Pointed(rt: ObjcRuntime, sec: Section, k: nat): u64 {
    var target := rt.resolve((sec.vmaddr + 8 * k) % 0x1_0000_0000_0000_0000);
    if target.Some? then target.value else 0
  }

  /** One address for each whole pointer of a section. */
  function SectionAddresses(rt: ObjcRuntime, sec: Option<Section>): seq<u64> {
    if sec.None? then [] else seq(sec.value.len / 8, k requires k >= 0 => Pointed(rt, sec.value, k))
  }

  /** The class list, then the non-lazy class list. */
  function Listed(rt: ObjcRuntime): seq<u64> {
    SectionAddresses(rt, rt.classList) + SectionAddresses(rt, rt.nlclsList)
  }

  lemma {:induction false} SlotsFrom(rt: ObjcRuntime, sec: Section, k: nat)
    requires 8 * k <= sec.len
    ensures rt.Slots(sec, 8 * k) == SectionAddresses(rt, Some(sec))[k..]
    decreases sec.len - 8 * k
  {
    var all := SectionAddresses(rt, Some(sec));
    NextSlot(rt, sec, 8 * k);
    hide ObjcRuntime.Slots;
    if 8 * k + 8 <= sec.len {
      SlotsFrom(rt, sec, k + 1);
      assert all[k..] == [all[k]] + all[k + 1..];
    }
  }

  /** The loops visit exactly the listed addresses. */
  lemma {:induction false} SlotsAreListed(rt: ObjcRuntime)
    ensures rt.AllSlots() == Listed(rt)
  {
    if rt.classList.Some? {
      SlotsFrom(rt, rt.classList.value, 0);
    }
    if rt.nlclsList.Some? {
      SlotsFrom(rt, rt.nlclsList.value, 0);
    }
    hide ObjcRuntime.Slots, Pointed;
  }

  /** Index of the first x in s. */
  function First(s: seq<u64>, x: u64): (i: nat)
    requires x in s
    ensures i < |s| && s[i] == x && x !in s[..i]
  {
    if s[0] == x then 0
    else
      var i := 1 + First(s[1..], x);
      assert s[..i] == [s[0]] + s[1..][..i - 1];
      i
  }

  lemma {:induction false} FirstIs(s: seq<u64>, i: nat)
    requires i < |s| && s[i] !in s[..i]
    ensures First(s, s[i]) == i
  {
    if i > 0 {
      assert s[..i][0] == s[0];
      assert s[1..][..i - 1] == s[..i][1..];
      FirstIs(s[1..], i - 1);
    }
  }

  lemma {:induction false} FirstInPrefix(s: seq<u64>, t: seq<u64>, x: u64)
    requires x in s
    ensures x in s + t && First(s + t, x) == First(s, x) < |s|
  {
    var i := First(s, x);
    assert (s + t)[i] == x && (s + t)[..i] == s[..i];
    FirstIs(s + t, i);
  }

  /** First occurrences come in the order of their slots. */
  lemma {:induction false} OccurrencesInOrder(s: seq<u64>, i: nat, j: nat)
    requires i < j < |FirstOccurrences(s)|
    ensures var r := FirstOccurrences(s); r[i] in s && r[j] in s && First(s, r[i]) < First(s, r[j])
    decreases |s|
  {
    var n := |s| - 1;
    var init, x, r := FirstOccurrences(s[..n]), s[n], FirstOccurrences(s);
    assert s == s[..n] + [x];
    if j < |init| {
      OccurrencesInOrder(s[..n], i, j);
      FirstInPrefix(s[..n], [x], r[i]);
      FirstInPrefix(s[..n], [x], r[j]);
    } else {
      assert r == init + [x] && x !in s[..n];
      FirstIs(s, n);
      assert r[i] == init[i] && init[i] in init;
      FirstInPrefix(s[..n], [x], r[i]);
    }
  }

  ghost predicate Distinct(addrs: seq<u64>) {
    forall i, j :: 0 <= i < j < |addrs| ==> addrs[i] != addrs[j]
  }

  /** A class's rows, before the rows of other classes. */
  lemma {:induction false} PrependClass(c: ObjcClass, metas: seq<ObjcClass>, rest: seq<ObjcClass>, addrs: seq<u64>)
    requires !c.isMeta && |metas| <= 1
    requires metas != [] ==> metas[0].isMeta && MetaOf(c) == Some(metas[0].address)
    requires MetasFollow(rest) && InstancesDiffer(rest, addrs) && c.address !in addrs
    ensures MetasFollow([c] + (metas + rest))
    ensures InstancesDiffer([c] + (metas + rest), [c.address] + addrs)
  {
    hide MetaOf;
    var rows, n := [c] + (metas + rest), 1 + |metas|;
    assert rows[0] == c && (n == 2 ==> rows[1] == metas[0]);
    assert forall i :: n <= i < |rows| ==> rows[i] == rest[i - n];
    forall i | 0 <= i < |rows| && rows[i].isMeta
      ensures i > 0 && !rows[i - 1].isMeta && MetaOf(rows[i - 1]) == Some(rows[i].address)
    {
      if i >= n {
        assert rest[i - n].isMeta;
        assert rows[i - 1] == rest[i - n - 1];
      }
    }
    forall i, j | 0 <= i < j < |rows| && !rows[i].isMeta && !rows[j].isMeta
      ensures rows[i].address != rows[j].address
    {
      assert j >= n && rows[j] == rest[j - n];
      if i >= n {
        assert rows[i] == rest[i - n];
      }
    }
  }

  lemma {:induction false} NoRowsObey(addrs: seq<u64>)
    ensures MetasFollow([]) && InstancesDiffer([], addrs)
  {
  }

  lemma {:induction false} WiderAddresses(rows: seq<ObjcClass>, x: u64, addrs: seq<u64>)
    requires InstancesDiffer(rows, addrs)
    ensures InstancesDiffer(rows, [x] + addrs)
  {
  }

  lemma {:induction false} DistinctTail(addrs: seq<u64>)
    requires Distinct(addrs) && addrs != []
    ensures Distinct(addrs[1..]) && addrs[0] !in addrs[1..] && addrs == [addrs[0]] + addrs[1..]
  {
  }

  lemma {:induction false} RowsObey(rt: ObjcRuntime, addrs: seq<u64>)
    requires Distinct(addrs)
    ensures MetasFollow(Rows(rt, addrs)) && InstancesDiffer(Rows(rt, addrs), addrs)
    decreases |addrs|
  {
    hide Rows, MetasFollow, InstancesDiffer, MetaOf, Distinct;
    RowsStep(rt, addrs);
    if addrs == [] {
      NoRowsObey(addrs);
    } else {
      DistinctTail(addrs);
      RowsObey(rt, addrs[1..]);
      var c, rest := rt.DecodeClass(addrs[0], false), Rows(rt, addrs[1..]);
      if c.Some? {
        PrependClass(c.value, MetaRows(rt, MetaOf(c.value)), rest, addrs[1..]);
      } else {
        WiderAddresses(rest, addrs[0], addrs[1..]);
      }
    }
  }

  /** A class's own rows, before rows that start with an instance. */
  lemma {:induction false} ClassAtFront(rt: ObjcRuntime, va: u64, rest: seq<ObjcClass>)
    requires rt.decode(va).Some? && (rest != [] ==> !rest[0].isMeta)
    ensures ClassAt(rt, ClassRows(rt, va) + rest, 0, va)
  {
  }

  lemma {:induction false} ClassAtShifts(rt: ObjcRuntime, first: seq<ObjcClass>, rest: seq<ObjcClass>, i: nat,
                                         va: u64)
    requires ClassAt(rt, rest, i, va)
    ensures ClassAt(rt, first + rest, |first| + i, va)
  {
    hide HasMeta;
    var all := first + rest;
    assert all[|first| + i] == rest[i];
    if i + 1 < |rest| {
      assert all[|first| + i + 1] == rest[i + 1];
    }
  }

  lemma {:induction false} RowsCover(rt: ObjcRuntime, addrs: seq<u64>, va: u64)
    requires va in addrs && rt.decode(va).Some? && Distinct(addrs)
    ensures exists i: nat :: ClassAt(rt, Rows(rt, addrs), i, va)
    decreases |addrs|
  {
    var first, rest := ClassRows(rt, addrs[0]), Rows(rt, addrs[1..]);
    assert Rows(rt, addrs) == first + rest;
    DistinctTail(addrs);
    if va == addrs[0] {
      RowsObey(rt, addrs[1..]);
      FirstIsInstance(rest);
      hide Rows, ClassRows, ClassAt;
      ClassAtFront(rt, va, rest);
      assert ClassAt(rt, Rows(rt, addrs), 0, va);
    } else {
      RowsCover(rt, addrs[1..], va);
      hide Rows, ClassRows, ClassAt, HasMeta;
      var i: nat :| ClassAt(rt, rest, i, va);
      ClassAtShifts(rt, first, rest, i, va);
    }
  }

  lemma {:induction false} FirstIsInstance(rows: seq<ObjcClass>)
    requires MetasFollow(rows)
    ensures rows != [] ==> !rows[0].isMeta
  {
  }

  /** Instance rows come in the order of `addrs`. */
  ghost predicate InstancesFollow(rows: seq<ObjcClass>, addrs: seq<u64>) {
    forall i, j :: 0 <= i < j < |rows| && !rows[i].isMeta && !rows[j].isMeta ==>
      && rows[i].address in addrs && rows[j].address in addrs
      && First(addrs, rows[i].address) < First(addrs, rows[j].address)
  }

  lemma {:induction false} PrependInstances(c: ObjcClass, metas: seq<ObjcClass>, rest: seq<ObjcClass>, addrs: seq<u64>)
    requires !c.isMeta && |metas| <= 1 && (metas != [] ==> metas[0].isMeta)
    requires InstancesFollow(rest, addrs) && InstancesDiffer(rest, addrs) && c.address !in addrs
    ensures InstancesFollow([c] + (metas + rest), [c.address] + addrs)
  {
    var rows, all, n := [c] + (metas + rest), [c.address] + addrs, 1 + |metas|;
    assert rows[0] == c && (n == 2 ==> rows[1] == metas[0]);
    assert forall i :: n <= i < |rows| ==> rows[i] == rest[i - n];
    forall i, j | 0 <= i < j < |rows| && !rows[i].isMeta && !rows[j].isMeta
      ensures rows[i].address in all && rows[j].address in all
      ensures First(all, rows[i].address) < First(all, rows[j].address)
    {
      assert j >= n && rows[j] == rest[j - n];
      FirstAfter(c.address, addrs, rest[j - n].address);
      if i >= n {
        assert rows[i] == rest[i - n];
        FirstAfter(c.address, addrs, rest[i - n].address);
      } else {
        FirstIs(all, 0);
      }
    }
  }

  lemma {:induction false} FirstAfter(x: u64, addrs: seq<u64>, va: u64)
    requires va in addrs && x !in addrs
    ensures va in [x] + addrs && First([x] + addrs, va) == 1 + First(addrs, va)
  {
    assert ([x] + addrs)[1..] == addrs;
  }

  lemma {:induction false} WiderFollow(rows: seq<ObjcClass>, x: u64, addrs: seq<u64>)
    requires InstancesFollow(rows, addrs) && x !in addrs
    ensures InstancesFollow(rows, [x] + addrs)
  {
    hide First;
    forall i, j | 0 <= i < j < |rows| && !rows[i].isMeta && !rows[j].isMeta
      ensures rows[i].address in [x] + addrs && rows[j].address in [x] + addrs
      ensures First([x] + addrs, rows[i].address) < First([x] + addrs, rows[j].address)
    {
      FirstAfter(x, addrs, rows[i].address);
      FirstAfter(x, addrs, rows[j].address);
    }
  }

  lemma {:induction false} RowsFollow(rt: ObjcRuntime, addrs: seq<u64>)
    requires Distinct(addrs)
    ensures InstancesFollow(Rows(rt, addrs), addrs)
    decreases |addrs|
  {
    RowsStep(rt, addrs);
    if addrs == [] {
      hide Rows;
    } else {
      hide Rows, InstancesFollow, InstancesDiffer, MetaOf, Distinct, MetasFollow, First;
      DistinctTail(addrs);
      RowsFollow(rt, addrs[1..]);
      RowsObey(rt, addrs[1..]);
      var c, rest := rt.DecodeClass(addrs[0], false), Rows(rt, addrs[1..]);
      if c.Some? {
        PrependInstances(c.value, MetaRows(rt, MetaOf(c.value)), rest, addrs[1..]);
      } else {
        WiderFollow(rest, addrs[0], addrs[1..]);
      }
    }
  }

  /** From the order of first occurrences to that of the slots. */
  lemma {:induction false} FollowSlots(rows: seq<ObjcClass>, s: seq<u64>)
    requires InstancesFollow(rows, FirstOccurrences(s))
    ensures InstancesFollow(rows, s)
  {
    var r := FirstOccurrences(s);
    hide First, FirstOccurrences;
    forall i, j | 0 <= i < j < |rows| && !rows[i].isMeta && !rows[j].isMeta
      ensures rows[i].address in s && rows[j].address in s
      ensures First(s, rows[i].address) < First(s, rows[j].address)
    {
      OccurrencesInOrder(s, First(r, rows[i].address), First(r, rows[j].address));
    }
  }

  /** A complete run: instance addresses never repeat, are listed and come in the order of their
      first slots; metaclasses directly follow their instances; and every non-null listed class that
      decodes is there, with its metaclass when it has one. */
  lemma {:induction false} RunLaws(rt: ObjcRuntime)
    ensures var rows := Rows(rt, FirstOccurrences(rt.AllSlots()));
            && MetasFollow(rows)
            && InstancesDiffer(rows, Listed(rt))
            && InstancesFollow(rows, Listed(rt))
            && forall va :: va in Listed(rt) && va != 0 && rt.decode(va).Some? ==>
                 exists i: nat :: ClassAt(rt, rows, i, va)
  {
    SlotsAreListed(rt);
    hide *;
    var listed := Listed(rt);
    var addrs := FirstOccurrences(listed);
    AllDistinct(listed);
    RowsObey(rt, addrs);
    SameAddresses(Rows(rt, addrs), listed);
    RowsFollow(rt, addrs);
    FollowSlots(Rows(rt, addrs), listed);
    forall va | va in listed && va != 0 && rt.decode(va).Some?
      ensures exists i: nat :: ClassAt(rt, Rows(rt, addrs), i, va)
    {
      RowsCover(rt, addrs, va);
    }
  }

  lemma {:induction false} AllDistinct(s: seq<u64>)
    ensures Distinct(FirstOccurrences(s))
  {
    hide FirstOccurrences;
  }

  lemma {:induction false} SameAddresses(rows: seq<ObjcClass>, s: seq<u64>)
    requires InstancesDiffer(rows, FirstOccurrences(s))
    ensures InstancesDiffer(rows, s)
  {
    hide FirstOccurrences;
  }

  /** Slot by slot: each whole pointer of either list that resolves to a class makes its rows. */
  lemma {:induction false} EverySlotRuns(rt: ObjcRuntime, sec: Section, k: nat)
    requires rt.classList == Some(sec) || rt.nlclsList == Some(sec)
    requires 8 * k + 8 <= sec.len
    ensures var target := rt.resolve((sec.vmaddr + 8 * k) % 0x1_0000_0000_0000_0000);
            target.Some? && target.value != 0 && rt.decode(target.value).Some? ==>
              exists i: nat :: ClassAt(rt, Rows(rt, FirstOccurrences(rt.AllSlots())), i, target.value)
  {
    RunLaws(rt);
    var addresses := SectionAddresses(rt, Some(sec));
    assert k < |addresses| && addresses[k] == Pointed(rt, sec, k);
    assert forall x :: x in addresses ==> x in Listed(rt);
    assert addresses[k] in Listed(rt);
    hide Rows, FirstOccurrences, ClassAt, ObjcRuntime.AllSlots, Listed, SectionAddresses;
  }

  // ----- what the documentation promises -----

  lemma {:induction false} ClassRowCount(rt: ObjcRuntime, va: u64)
    ensures |ClassRows(rt, va)| == if rt.decode(va).None? then 0 else if HasMeta(rt, va) then 2 else 1
  {
  }

  /** Number of listed classes that decode. */
  function Decoding(rt: ObjcRuntime, addrs: seq<u64>): nat {
    if addrs == [] then 0 else (if rt.decode(addrs[0]).Some? then 1 else 0) + Decoding(rt, addrs[1..])
  }

  /** A run yields two rows for every class it yields, as documented (src/objc/class.rs:433-435), if
      and only if each of them has a metaclass that decodes. */
  lemma {:induction false} TwoRowsEachIff(rt: ObjcRuntime, addrs: seq<u64>)
    ensures |Rows(rt, addrs)| <= 2 * Decoding(rt, addrs)
    ensures |Rows(rt, addrs)| == 2 * Decoding(rt, addrs)
       <==> forall va :: va in addrs && rt.decode(va).Some? ==> HasMeta(rt, va)
    decreases |addrs|
  {
    if addrs != [] {
      ClassRowCount(rt, addrs[0]);
      TwoRowsEachIff(rt, addrs[1..]);
      hide ClassRows, HasMeta;
      assert addrs == [addrs[0]] + addrs[1..];
    }
  }

  /** A root class, which is its own `isa`, comes alone. */
  lemma {:induction false} RootClassAlone(resolve: u64 -> Option<u64>, va: u64)
    ensures var rt := ObjcRuntime(None, None, resolve, (x: u64) => Some(ClassT(x, 0, 0)));
            Rows(rt, [va]) == [ObjcClass(va, ClassT(va, 0, 0), false)]
  {
    var rt := ObjcRuntime(None, None, resolve, (x: u64) => Some(ClassT(x, 0, 0)));
    assert [va][1..] == [] && Rows(rt, []) == [];
    assert MetaRows(rt, None) == [];
  }
}
