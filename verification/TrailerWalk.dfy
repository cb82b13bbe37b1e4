/** The two walkers, filling a descriptor body in place, and the fields they leave. */
module TrailerWalk {
  import opened Bytes
  import opened Trailers
  import opened TrailerLaws

  /** The trailing-object fields of a descriptor body. */
  datatype Fields = Fields(
    genericHeaderVa: Option<u64>,
    resilientSuperclassVa: Option<u64>,
    foreignInitVa: Option<u64>,
    singletonInitVa: Option<u64>,
    vtableHeader: Option<VTableHeader>,
    overrideHeader: Option<TableHeader>,
    stubVa: Option<u64>,
    prespecializationsCount: Option<u32>,
    prespecializationsBaseVa: Option<u64>,
    invertibleSet: Option<u16>,
    singletonPointerVa: Option<u64>,
    defaultOverrideHeader: Option<TableHeader>)

  const UNSET := Fields(None, None, None, None, None, None, None, None, None, None, None, None)

  function Set(t: Fields, b: Block): Fields {
    match b.kind
    case GenericContext => t.(genericHeaderVa := Some(b.va))
    case ResilientSuperclass => t.(resilientSuperclassVa := Some(b.va))
    case ForeignInit => t.(foreignInitVa := Some(b.va))
    case SingletonInit => t.(singletonInitVa := Some(b.va))
    case VTable => if b.detail.VTableInfo? then t.(vtableHeader := Some(b.detail.vtable)) else t
    case OverrideTable => if b.detail.TableInfo? then t.(overrideHeader := Some(b.detail.table)) else t
    case ObjcStub => t.(stubVa := Some(b.va))
    case Prespecializations =>
      if b.detail.TableInfo? then
        t.(prespecializationsCount := Some(b.detail.table.count),
           prespecializationsBaseVa := Some(b.detail.table.entriesVa))
      else t
    case InvertibleSet => if b.detail.Bits? then t.(invertibleSet := Some(b.detail.bits)) else t
    case SingletonPointer => t.(singletonPointerVa := Some(b.va))
    case DefaultOverrides => if b.detail.TableInfo? then t.(defaultOverrideHeader := Some(b.detail.table)) else t
  }

  /** The fields after recording blocks in order. */
  function Record(t: Fields, blocks: seq<Block>): Fields
    decreases |blocks|
  {
    if blocks == [] then t else Record(Set(t, blocks[0]), blocks[1..])
  }

  /** The effect of one step on the fields, and the cursor it leaves. */
  predicate Took(before: Fields, after: Fields, next: Option<u64>, step: Step) {
    && next == step.next
    && after == if step.block.Some? then Set(before, step.block.value) else before
  }

  /** The fields a walk from here leaves. */
  function After(t: Fields, rt: Runtime, flags: Flags, extra: Option<u32>, kinds: seq<Kind>, va: u64): Fields {
    Record(t, Walk(rt, flags, extra, kinds, va))
  }

  class TrailerBody {
    var genericHeaderVa: Option<u64>
    var resilientSuperclassVa: Option<u64>
    var foreignInitVa: Option<u64>
    var singletonInitVa: Option<u64>
    var vtableHeader: Option<VTableHeader>
    var overrideHeader: Option<TableHeader>
    var stubVa: Option<u64>
    var prespecializationsCount: Option<u32>
    var prespecializationsBaseVa: Option<u64>
    var invertibleSet: Option<u16>
    var singletonPointerVa: Option<u64>
    var defaultOverrideHeader: Option<TableHeader>
    const extraClassFlags: Option<u32>

    constructor (extra: Option<u32>)
      ensures extraClassFlags == extra
      ensures Snapshot() == UNSET
    {
      extraClassFlags := extra;
      genericHeaderVa, resilientSuperclassVa, foreignInitVa, singletonInitVa := None, None, None, None;
      vtableHeader, overrideHeader, stubVa := None, None, None;
      prespecializationsCount, prespecializationsBaseVa := None, None;
      invertibleSet, singletonPointerVa, defaultOverrideHeader := None, None, None;
    }

    ghost function Snapshot(): Fields
      reads this
    {
      Fields(genericHeaderVa, resilientSuperclassVa, foreignInitVa, singletonInitVa, vtableHeader, overrideHeader,
             stubVa, prespecializationsCount, prespecializationsBaseVa, invertibleSet, singletonPointerVa,
             defaultOverrideHeader)
    }

    method TakeGenericContext(rt: Runtime, va: u64) returns (next: Option<u64>)
      modifies this
      ensures Took(old(Snapshot()), Snapshot(), next, StepAt(rt, GenericContext, va))
    {
      var decoded := DecodeGenericHeader(rt, va);
      if decoded.None? {
        return None;
      }
      genericHeaderVa := Some(va);
      next := Some(decoded.value.1);
    }

    method TakeResilientSuperclass(rt: Runtime, va: u64) returns (next: Option<u64>)
      modifies this
      ensures Took(old(Snapshot()), Snapshot(), next, StepAt(rt, ResilientSuperclass, va))
    {
      resilientSuperclassVa := Some(va);
      next := CheckedAdd(va, 4);
    }

    method TakeForeignInit(rt: Runtime, va: u64) returns (next: Option<u64>)
      modifies this
      ensures Took(old(Snapshot()), Snapshot(), next, StepAt(rt, ForeignInit, va))
    {
      foreignInitVa := Some(va);
      next := CheckedAdd(va, 4);
    }

    method TakeSingletonInit(rt: Runtime, va: u64) returns (next: Option<u64>)
      modifies this
      ensures Took(old(Snapshot()), Snapshot(), next, StepAt(rt, SingletonInit, va))
    {
      singletonInitVa := Some(va);
      next := CheckedAdd(va, 12);
    }

    method TakeVTable(rt: Runtime, va: u64) returns (next: Option<u64>)
      modifies this
      ensures Took(old(Snapshot()), Snapshot(), next, StepAt(rt, VTable, va))
    {
      var decoded := DecodeVTableHeader(rt, va);
      if decoded.None? {
        return None;
      }
      vtableHeader := Some(decoded.value.0);
      next := Some(decoded.value.1);
    }

    method TakeOverrideTable(rt: Runtime, va: u64) returns (next: Option<u64>)
      modifies this
      ensures Took(old(Snapshot()), Snapshot(), next, StepAt(rt, OverrideTable, va))
    {
      var decoded := DecodeTable(rt, va, 12);
      if decoded.None? {
        return None;
      }
      overrideHeader := Some(decoded.value.0);
      next := Some(decoded.value.1);
    }

    method TakeObjcStub(rt: Runtime, va: u64) returns (next: Option<u64>)
      modifies this
      ensures Took(old(Snapshot()), Snapshot(), next, StepAt(rt, ObjcStub, va))
    {
      stubVa := Some(va);
      next := CheckedAdd(va, 4);
    }

    method TakePrespecializations(rt: Runtime, va: u64) returns (next: Option<u64>)
      modifies this
      ensures Took(old(Snapshot()), Snapshot(), next, StepAt(rt, Prespecializations, va))
    {
      var decoded := DecodePrespecializations(rt, va);
      if decoded.None? {
        return None;
      }
      prespecializationsCount := Some(decoded.value.0.count);
      prespecializationsBaseVa := Some(decoded.value.0.entriesVa);
      next := Some(decoded.value.1);
    }

    method TakeInvertibleSet(rt: Runtime, va: u64) returns (next: Option<u64>)
      modifies this
      ensures Took(old(Snapshot()), Snapshot(), next, StepAt(rt, InvertibleSet, va))
    {
      var bits := ReadU16At(rt, va);
      if bits.None? {
        return None;
      }
      invertibleSet := bits;
      // Padded to the next 4-byte boundary.
      next := CheckedAdd(va, 4);
    }

    method TakeSingletonPointer(rt: Runtime, va: u64) returns (next: Option<u64>)
      modifies this
      ensures Took(old(Snapshot()), Snapshot(), next, StepAt(rt, SingletonPointer, va))
    {
      singletonPointerVa := Some(va);
      next := CheckedAdd(va, 4);
    }

    method TakeDefaultOverrides(rt: Runtime, va: u64) returns (next: Option<u64>)
      modifies this
      ensures Took(old(Snapshot()), Snapshot(), next, StepAt(rt, DefaultOverrides, va))
    {
      var decoded := DecodeTable(rt, va, 8);
      if decoded.None? {
        return None;
      }
      defaultOverrideHeader := Some(decoded.value.0);
      next := Some(decoded.value.1);
    }
  }

  /** An absent kind leaves the fields and the cursor alone. */
  lemma {:induction false} NextKind(t: Fields, rt: Runtime, flags: Flags, extra: Option<u32>, kind: Kind,
                                    rest: seq<Kind>, va: u64)
    ensures !Present(kind, flags, extra) ==>
              After(t, rt, flags, extra, [kind] + rest, va) == After(t, rt, flags, extra, rest, va)
  {
    hide StepAt, Present, Set;
    assert ([kind] + rest)[1..] == rest;
  }

  /** A present kind sets its fields, and the walk goes on where it left the cursor, if anywhere. */
  lemma {:induction false} Taken(t: Fields, t': Fields, next: Option<u64>, rt: Runtime, flags: Flags,
                                 extra: Option<u32>, kind: Kind, rest: seq<Kind>, va: u64)
    requires Present(kind, flags, extra) && Took(t, t', next, StepAt(rt, kind, va))
    ensures After(t, rt, flags, extra, [kind] + rest, va)
         == if next.Some? then After(t', rt, flags, extra, rest, next.value) else t'
  {
    hide StepAt, Present, Set;
    var step := StepAt(rt, kind, va);
    assert ([kind] + rest)[1..] == rest;
    var first := if step.block.Some? then [step.block.value] else [];
    var tail := if step.next.Some? then Walk(rt, flags, extra, rest, step.next.value) else [];
    assert Walk(rt, flags, extra, [kind] + rest, va) == first + tail;
    assert (first + tail)[|first|..] == tail;
    assert Record(t, first + tail) == Record(t', tail);
  }

  lemma {:induction false} Finished(t: Fields, rt: Runtime, flags: Flags, extra: Option<u32>, va: u64)
    ensures After(t, rt, flags, extra, [], va) == t
  {
  }

  /** The class order from the vtable on. */
  const TABLE_ORDER: seq<Kind> :=
    [VTable, OverrideTable, ObjcStub, Prespecializations, InvertibleSet, SingletonPointer, DefaultOverrides]

  lemma {:induction false} ClassSuffixes() returns (r1: seq<Kind>, r2: seq<Kind>, r3: seq<Kind>, r4: seq<Kind>)
    ensures CLASS_ORDER == [GenericContext] + r1
    ensures r1 == [ResilientSuperclass] + r2
    ensures r2 == [ForeignInit] + r3
    ensures r3 == [SingletonInit] + r4
    ensures r4 == TABLE_ORDER
  {
    assert CLASS_ORDER[4..] == TABLE_ORDER;
    r4 := TABLE_ORDER;
    r3 := [SingletonInit] + r4;
    r2 := [ForeignInit] + r3;
    r1 := [ResilientSuperclass] + r2;
  }

  lemma {:induction false} TableSuffixes()
    returns (r5: seq<Kind>, r6: seq<Kind>, r7: seq<Kind>, r8: seq<Kind>, r9: seq<Kind>, r10: seq<Kind>)
    ensures TABLE_ORDER == [VTable] + r5
    ensures r5 == [OverrideTable] + r6
    ensures r6 == [ObjcStub] + r7
    ensures r7 == [Prespecializations] + r8
    ensures r8 == [InvertibleSet] + r9
    ensures r9 == [SingletonPointer] + r10
    ensures r10 == [DefaultOverrides] + []
  {
    r10 := [DefaultOverrides];
    r9 := [SingletonPointer] + r10;
    r8 := [InvertibleSet] + r9;
    r7 := [Prespecializations] + r8;
    r6 := [ObjcStub] + r7;
    r5 := [OverrideTable] + r6;
  }

  lemma {:induction false} ValueSuffixes() returns (r1: seq<Kind>, r2: seq<Kind>, r3: seq<Kind>, r4: seq<Kind>,
                                         r5: seq<Kind>)
    ensures VALUE_ORDER == [GenericContext] + r1
    ensures r1 == [ForeignInit] + r2
    ensures r2 == [SingletonInit] + r3
    ensures r3 == [Prespecializations] + r4
    ensures r4 == [InvertibleSet] + r5
    ensures r5 == [SingletonPointer] + []
  {
    r5 := [SingletonPointer];
    r4 := [InvertibleSet] + r5;
    r3 := [Prespecializations] + r4;
    r2 := [SingletonInit] + r3;
    r1 := [ForeignInit] + r2;
  }

  method DecodeClassTrailers(rt: Runtime, flags: Flags, start: u64, body: TrailerBody)
    modifies body
    ensures body.Snapshot() == After(old(body.Snapshot()), rt, flags, body.extraClassFlags, CLASS_ORDER, start)
  {
    hide *;
    var cursor := start;
    var extra := body.extraClassFlags;
    ghost var t := body.Snapshot();
    ghost var all := After(t, rt, flags, extra, CLASS_ORDER, start);
    ghost var r1, r2, r3, r4 := ClassSuffixes();

    // 1. Generic context
    NextKind(t, rt, flags, extra, GenericContext, r1, cursor);
    if Present(GenericContext, flags, extra) {
      var next := body.TakeGenericContext(rt, cursor);
      Taken(t, body.Snapshot(), next, rt, flags, extra, GenericContext, r1, cursor);
      if next.None? {
        return;
      }
      cursor := next.value;
    }
    t := body.Snapshot();
    assert all == After(t, rt, flags, extra, r1, cursor);

    // 2. Resilient superclass
    NextKind(t, rt, flags, extra, ResilientSuperclass, r2, cursor);
    if Present(ResilientSuperclass, flags, extra) {
      var next := body.TakeResilientSuperclass(rt, cursor);
      Taken(t, body.Snapshot(), next, rt, flags, extra, ResilientSuperclass, r2, cursor);
      if next.None? {
        return;
      }
      cursor := next.value;
    }
    t := body.Snapshot();
    assert all == After(t, rt, flags, extra, r2, cursor);

    // 3. Foreign metadata initialization
    NextKind(t, rt, flags, extra, ForeignInit, r3, cursor);
    if Present(ForeignInit, flags, extra) {
      var next := body.TakeForeignInit(rt, cursor);
      Taken(t, body.Snapshot(), next, rt, flags, extra, ForeignInit, r3, cursor);
      if next.None? {
        return;
      }
      cursor := next.value;
    }
    t := body.Snapshot();
    assert all == After(t, rt, flags, extra, r3, cursor);

    // 4. Singleton metadata initialization
    NextKind(t, rt, flags, extra, SingletonInit, r4, cursor);
    if Present(SingletonInit, flags, extra) {
      var next := body.TakeSingletonInit(rt, cursor);
      Taken(t, body.Snapshot(), next, rt, flags, extra, SingletonInit, r4, cursor);
      if next.None? {
        return;
      }
      cursor := next.value;
    }
    t := body.Snapshot();
    assert all == After(t, rt, flags, extra, r4, cursor);

    DecodeClassTables(rt, flags, cursor, body);
  }

  /** The class walk from its vtable on. */
  method DecodeClassTables(rt: Runtime, flags: Flags, start: u64, body: TrailerBody)
    modifies body
    ensures body.Snapshot() == After(old(body.Snapshot()), rt, flags, body.extraClassFlags, TABLE_ORDER, start)
  {
    hide *;
    var cursor := start;
    var extra := body.extraClassFlags;
    ghost var t := body.Snapshot();
    ghost var all := After(t, rt, flags, extra, TABLE_ORDER, start);
    ghost var r5, r6, r7, r8, r9, r10 := TableSuffixes();

    // 5. VTable
    NextKind(t, rt, flags, extra, VTable, r5, cursor);
    if Present(VTable, flags, extra) {
      var next := body.TakeVTable(rt, cursor);
      Taken(t, body.Snapshot(), next, rt, flags, extra, VTable, r5, cursor);
      if next.None? {
        return;
      }
      cursor := next.value;
    }
    t := body.Snapshot();
    assert all == After(t, rt, flags, extra, r5, cursor);

    // 6. Override table
    NextKind(t, rt, flags, extra, OverrideTable, r6, cursor);
    if Present(OverrideTable, flags, extra) {
      var next := body.TakeOverrideTable(rt, cursor);
      Taken(t, body.Snapshot(), next, rt, flags, extra, OverrideTable, r6, cursor);
      if next.None? {
        return;
      }
      cursor := next.value;
    }
    t := body.Snapshot();
    assert all == After(t, rt, flags, extra, r6, cursor);

    // 7. Objective-C resilient class stub
    NextKind(t, rt, flags, extra, ObjcStub, r7, cursor);
    if Present(ObjcStub, flags, extra) {
      var next := body.TakeObjcStub(rt, cursor);
      Taken(t, body.Snapshot(), next, rt, flags, extra, ObjcStub, r7, cursor);
      if next.None? {
        return;
      }
      cursor := next.value;
    }
    t := body.Snapshot();
    assert all == After(t, rt, flags, extra, r7, cursor);

    // 8. Canonical specialized metadatas
    NextKind(t, rt, flags, extra, Prespecializations, r8, cursor);
    if Present(Prespecializations, flags, extra) {
      var next := body.TakePrespecializations(rt, cursor);
      Taken(t, body.Snapshot(), next, rt, flags, extra, Prespecializations, r8, cursor);
      if next.None? {
        return;
      }
      cursor := next.value;
    }
    t := body.Snapshot();
    assert all == After(t, rt, flags, extra, r8, cursor);

    // 9. Invertible protocol set
    NextKind(t, rt, flags, extra, InvertibleSet, r9, cursor);
    if Present(InvertibleSet, flags, extra) {
      var next := body.TakeInvertibleSet(rt, cursor);
      Taken(t, body.Snapshot(), next, rt, flags, extra, InvertibleSet, r9, cursor);
      if next.None? {
        return;
      }
      cursor := next.value;
    }
    t := body.Snapshot();
    assert all == After(t, rt, flags, extra, r9, cursor);

    // 10. Singleton metadata pointer
    NextKind(t, rt, flags, extra, SingletonPointer, r10, cursor);
    if Present(SingletonPointer, flags, extra) {
      var next := body.TakeSingletonPointer(rt, cursor);
      Taken(t, body.Snapshot(), next, rt, flags, extra, SingletonPointer, r10, cursor);
      if next.None? {
        return;
      }
      cursor := next.value;
    }
    t := body.Snapshot();
    assert all == After(t, rt, flags, extra, r10, cursor);

    // 11. Default override table
    NextKind(t, rt, flags, extra, DefaultOverrides, [], cursor);
    if Present(DefaultOverrides, flags, extra) {
      var next := body.TakeDefaultOverrides(rt, cursor);
      Taken(t, body.Snapshot(), next, rt, flags, extra, DefaultOverrides, [], cursor);
      if next.None? {
        return;
      }
      cursor := next.value;
    }
    t := body.Snapshot();
    assert all == After(t, rt, flags, extra, [], cursor);
    Finished(t, rt, flags, extra, cursor);
  }

  method DecodeValueTypeTrailers(rt: Runtime, flags: Flags, start: u64, body: TrailerBody)
    modifies body
    ensures body.Snapshot() == After(old(body.Snapshot()), rt, flags, None, VALUE_ORDER, start)
  {
    hide *;
    var cursor := start;
    var extra: Option<u32> := None;
    ghost var t := body.Snapshot();
    ghost var all := After(t, rt, flags, extra, VALUE_ORDER, start);
    ghost var r1, r2, r3, r4, r5 := ValueSuffixes();

    // 1. Generic context
    NextKind(t, rt, flags, extra, GenericContext, r1, cursor);
    if Present(GenericContext, flags, extra) {
      var next := body.TakeGenericContext(rt, cursor);
      Taken(t, body.Snapshot(), next, rt, flags, extra, GenericContext, r1, cursor);
      if next.None? {
        return;
      }
      cursor := next.value;
    }
    t := body.Snapshot();
    assert all == After(t, rt, flags, extra, r1, cursor);

    // 2. Foreign metadata initialization
    NextKind(t, rt, flags, extra, ForeignInit, r2, cursor);
    if Present(ForeignInit, flags, extra) {
      var next := body.TakeForeignInit(rt, cursor);
      Taken(t, body.Snapshot(), next, rt, flags, extra, ForeignInit, r2, cursor);
      if next.None? {
        return;
      }
      cursor := next.value;
    }
    t := body.Snapshot();
    assert all == After(t, rt, flags, extra, r2, cursor);

    // 3. Singleton metadata initialization
    NextKind(t, rt, flags, extra, SingletonInit, r3, cursor);
    if Present(SingletonInit, flags, extra) {
      var next := body.TakeSingletonInit(rt, cursor);
      Taken(t, body.Snapshot(), next, rt, flags, extra, SingletonInit, r3, cursor);
      if next.None? {
        return;
      }
      cursor := next.value;
    }
    t := body.Snapshot();
    assert all == After(t, rt, flags, extra, r3, cursor);

    // 4. Canonical specialized metadatas
    NextKind(t, rt, flags, extra, Prespecializations, r4, cursor);
    if Present(Prespecializations, flags, extra) {
      var next := body.TakePrespecializations(rt, cursor);
      Taken(t, body.Snapshot(), next, rt, flags, extra, Prespecializations, r4, cursor);
      if next.None? {
        return;
      }
      cursor := next.value;
    }
    t := body.Snapshot();
    assert all == After(t, rt, flags, extra, r4, cursor);

    // 5. Invertible protocol set
    NextKind(t, rt, flags, extra, InvertibleSet, r5, cursor);
    if Present(InvertibleSet, flags, extra) {
      var next := body.TakeInvertibleSet(rt, cursor);
      Taken(t, body.Snapshot(), next, rt, flags, extra, InvertibleSet, r5, cursor);
      if next.None? {
        return;
      }
      cursor := next.value;
    }
    t := body.Snapshot();
    assert all == After(t, rt, flags, extra, r5, cursor);

    // 6. Singleton metadata pointer
    NextKind(t, rt, flags, extra, SingletonPointer, [], cursor);
    if Present(SingletonPointer, flags, extra) {
      var next := body.TakeSingletonPointer(rt, cursor);
      Taken(t, body.Snapshot(), next, rt, flags, extra, SingletonPointer, [], cursor);
      if next.None? {
        return;
      }
      cursor := next.value;
    }
    t := body.Snapshot();
    assert all == After(t, rt, flags, extra, [], cursor);
    Finished(t, rt, flags, extra, cursor);
  }

  // ----- truncation, field by field -----

  /** The fields one kind of block sets. */
  datatype View = View(va: Option<u64>, vtable: Option<VTableHeader>, table: Option<TableHeader>,
                       count: Option<u32>, bits: Option<u16>)

  function ViewOf(t: Fields, kind: Kind): View {
    match kind
    case GenericContext => View(t.genericHeaderVa, None, None, None, None)
    case ResilientSuperclass => View(t.resilientSuperclassVa, None, None, None, None)
    case ForeignInit => View(t.foreignInitVa, None, None, None, None)
    case SingletonInit => View(t.singletonInitVa, None, None, None, None)
    case VTable => View(None, t.vtableHeader, None, None, None)
    case OverrideTable => View(None, None, t.overrideHeader, None, None)
    case ObjcStub => View(t.stubVa, None, None, None, None)
    case Prespecializations => View(t.prespecializationsBaseVa, None, None, t.prespecializationsCount, None)
    case InvertibleSet => View(None, None, None, None, t.invertibleSet)
    case SingletonPointer => View(t.singletonPointerVa, None, None, None, None)
    case DefaultOverrides => View(None, None, t.defaultOverrideHeader, None, None)
  }

  lemma {:induction false} SetKeepsOthers(t: Fields, b: Block, kind: Kind)
    requires b.kind != kind
    ensures ViewOf(Set(t, b), kind) == ViewOf(t, kind)
  {
  }

  lemma {:induction false} RecordKeepsOthers(t: Fields, blocks: seq<Block>, kind: Kind)
    requires kind !in KindsOf(blocks)
    ensures ViewOf(Record(t, blocks), kind) == ViewOf(t, kind)
    decreases |blocks|
  {
    hide Set, ViewOf;
    if blocks != [] {
      assert KindsOf(blocks)[0] == blocks[0].kind;
      assert KindsOf(blocks)[1..] == KindsOf(blocks[1..]);
      SetKeepsOthers(t, blocks[0], kind);
      RecordKeepsOthers(Set(t, blocks[0]), blocks[1..], kind);
    }
  }

  lemma {:induction false} RecordCat(t: Fields, a: seq<Block>, b: seq<Block>)
    ensures Record(t, a + b) == Record(Record(t, a), b)
    decreases |a|
  {
    hide Set;
    if a == [] {
      assert a + b == b;
    } else {
      RecordCat(Set(t, a[0]), a[1..], b);
      assert (a + b)[1..] == a[1..] + b;
    }
  }

  predicate Distinct(kinds: seq<Kind>) {
    forall i, j :: 0 <= i < j < |kinds| ==> kinds[i] != kinds[j]
  }

  lemma {:induction false} PresentStaysDistinct(kinds: seq<Kind>, flags: Flags, extra: Option<u32>)
    requires Distinct(kinds)
    ensures Distinct(PresentKinds(kinds, flags, extra))
    ensures forall k :: k in PresentKinds(kinds, flags, extra) ==> k in kinds
  {
    hide Present;
    if kinds != [] {
      PresentStaysDistinct(kinds[1..], flags, extra);
      assert kinds[0] !in kinds[1..];
    }
  }

  /** On a truncated file every field of the body is either unset or the full file's. */
  lemma {:induction false} TruncatedFields(rt: Runtime, len: nat, flags: Flags, extra: Option<u32>,
                                           order: seq<Kind>, start: u64, kind: Kind)
    requires Distinct(order)
    ensures var short := ViewOf(After(UNSET, Truncate(rt, len), flags, extra, order, start), kind);
            || short == ViewOf(UNSET, kind)
            || short == ViewOf(After(UNSET, rt, flags, extra, order, start), kind)
  {
    hide Walk, Set, ViewOf, Present, PresentKinds, KindsOf, Record;
    TruncationLosesSuffix(rt, len, flags, extra, order, start);
    var full, short := Walk(rt, flags, extra, order, start), Walk(Truncate(rt, len), flags, extra, order, start);
    var lost := full[|short|..];
    assert full == short + lost;
    RecordCat(UNSET, short, lost);
    if kind in KindsOf(lost) {
      WalkTiles(rt, flags, extra, order, start);
      PresentStaysDistinct(order, flags, extra);
      NotInBoth(short, lost, PresentKinds(order, flags, extra), kind);
      RecordKeepsOthers(UNSET, short, kind);
    } else {
      RecordKeepsOthers(Record(UNSET, short), lost, kind);
    }
  }

  lemma {:induction false} NotInBoth(a: seq<Block>, b: seq<Block>, kinds: seq<Kind>, kind: Kind)
    requires KindsOf(a + b) <= kinds && Distinct(kinds) && kind in KindsOf(b)
    ensures kind !in KindsOf(a)
  {
    var j :| 0 <= j < |b| && b[j].kind == kind;
    assert KindsOf(a + b)[|a| + j] == kind;
    forall i | 0 <= i < |a|
      ensures a[i].kind != kind
    {
      assert KindsOf(a + b)[i] == a[i].kind;
      assert kinds[i] != kinds[|a| + j];
    }
  }
}
