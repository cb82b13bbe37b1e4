/** The objects that trail a Swift type descriptor (src/swift/classtrailers.rs): a flag-gated
    sequence of variable-size blocks located by one running cursor. */
module Trailers {
  import opened Bytes
  import opened SegmentMap

  /** The image's bytes and its segment table. */
  datatype Runtime = Runtime(data: seq<byte>, segs: seq<Segment>) {
    function ReadBytes(va: u64, len: nat): (r: Option<seq<byte>>)
      ensures r.Some? ==> |r.value| == len
    {
      var off :- VmToFile(segs, va);
      if off + len <= |data| then Some(data[off..off + len]) else None
    }
  }

  // ----- flags (src/swift/context.rs) -----

  datatype InitKind = NoInit | Singleton | Foreign | OtherInit

  /** The descriptor's flag word; its high half is the kind-specific block. */
  datatype Flags = Flags(word: u32) {
    function Init(): InitKind {
      match word / 0x1_0000 % 4
      case 0 => NoInit
      case 1 => InitKind.Singleton
      case 2 => Foreign
      case _ => OtherInit
    }

    predicate HasInvertibleProtocols() { word / 0x20 % 2 != 0 }

    predicate IsGeneric() { word / 0x80 % 2 != 0 }

    predicate HasPrespecializationsOrPointer() { word / 0x8_0000 % 2 != 0 }

    predicate HasPrespecializations() { HasPrespecializationsOrPointer() && !Init().Singleton? }

    predicate HasSingletonPointer() { HasPrespecializationsOrPointer() && Init().Singleton? }

    predicate HasDefaultOverrideTable() { word / 0x40_0000 % 2 != 0 }

    predicate HasResilientSuperclass() { word / 0x2000_0000 % 2 != 0 }

    predicate HasOverrideTable() { word / 0x4000_0000 % 2 != 0 }

    predicate HasVTable() { word / 0x8000_0000 % 2 != 0 }
  }

  /** The stub bit of a class's extra flags, where it has any. */
  predicate HasStub(extra: Option<u32>) {
    extra.Some? && extra.value % 2 != 0
  }

  // ----- block headers -----

  datatype VTableHeader = VTableHeader(offset: u32, size: u32, entriesVa: u64)

  datatype TableHeader = TableHeader(count: u32, entriesVa: u64)

  /** Parameter and requirement counts, and the address after the generic context. */
  function DecodeGenericHeader(rt: Runtime, va: u64): Option<((u16, u16), u64)> {
    var header :- rt.ReadBytes(va, 16);
    var params :- ReadU16Le(header, 8);
    var requirements :- ReadU16Le(header, 10);
    var start :- CheckedAdd(va, 16);
    var afterParams :- CheckedAdd(start, params);
    var pad := (4 - params % 4) % 4;
    var aligned :- CheckedAdd(afterParams, pad);
    var end :- CheckedAdd(aligned, 12 * requirements);
    Some(((params, requirements), end))
  }

  function DecodeVTableHeader(rt: Runtime, va: u64): Option<(VTableHeader, u64)> {
    var header :- rt.ReadBytes(va, 8);
    var offset :- ReadU32Le(header, 0);
    var size :- ReadU32Le(header, 4);
    var entries :- CheckedAdd(va, 8);
    var end :- CheckedAdd(entries, 8 * size);
    Some((VTableHeader(offset, size, entries), end))
  }

  /** A count word and its entries, `entrySize` bytes each. */
  function DecodeTable(rt: Runtime, va: u64, entrySize: nat): Option<(TableHeader, u64)>
    requires entrySize <= 12
  {
    var header :- rt.ReadBytes(va, 4);
    var count :- ReadU32Le(header, 0);
    var entries :- CheckedAdd(va, 4);
    var end :- CheckedAdd(entries, entrySize * count);
    Some((TableHeader(count, entries), end))
  }

  /** Entries and accessors follow the count, four bytes each. */
  function DecodePrespecializations(rt: Runtime, va: u64): Option<(TableHeader, u64)> {
    var header :- rt.ReadBytes(va, 4);
    var count :- ReadU32Le(header, 0);
    var entries :- CheckedAdd(va, 4);
    var afterEntries :- CheckedAdd(entries, 4 * count);
    var end :- CheckedAdd(afterEntries, 4 * count);
    Some((TableHeader(count, entries), end))
  }

  function ReadU16At(rt: Runtime, va: u64): Option<u16> {
    var bytes :- rt.ReadBytes(va, 2);
    ReadU16Le(bytes, 0)
  }

  // ----- the declared order, as a table -----

  datatype Kind =
    | GenericContext
    | ResilientSuperclass
    | ForeignInit
    | SingletonInit
    | VTable
    | OverrideTable
    | ObjcStub
    | Prespecializations
    | InvertibleSet
    | SingletonPointer
    | DefaultOverrides

  const CLASS_ORDER: seq<Kind> :=
    [GenericContext, ResilientSuperclass, ForeignInit, SingletonInit, VTable, OverrideTable, ObjcStub,
     Prespecializations, InvertibleSet, SingletonPointer, DefaultOverrides]

  const VALUE_ORDER: seq<Kind> :=
    [GenericContext, ForeignInit, SingletonInit, Prespecializations, InvertibleSet, SingletonPointer]

  predicate Present(kind: Kind, flags: Flags, extra: Option<u32>) {
    match kind
    case GenericContext => flags.IsGeneric()
    case ResilientSuperclass => flags.HasResilientSuperclass()
    case ForeignInit => flags.Init().Foreign?
    case SingletonInit => flags.Init().Singleton?
    case VTable => flags.HasVTable()
    case OverrideTable => flags.HasOverrideTable()
    case ObjcStub => HasStub(extra)
    case Prespecializations => flags.HasPrespecializations()
    case InvertibleSet => flags.HasInvertibleProtocols()
    case SingletonPointer => flags.HasSingletonPointer()
    case DefaultOverrides => flags.HasDefaultOverrideTable()
  }

  /** What the walk learns of a block besides its address. */
  datatype Detail = Fixed | Generics(params: u16, requirements: u16) | VTableInfo(vtable: VTableHeader)
                  | TableInfo(table: TableHeader) | Bits(bits: u16)

  datatype Block = Block(kind: Kind, va: u64, detail: Detail)

  /** The block a kind records at an address, and where the next block starts. */
  datatype Step = Step(block: Option<Block>, next: Option<u64>)

  function FixedStep(kind: Kind, va: u64, size: nat): Step {
    Step(Some(Block(kind, va, Fixed)), CheckedAdd(va, size))
  }

  function TableStep(kind: Kind, va: u64, decoded: Option<(TableHeader, u64)>): Step {
    if decoded.None? then Step(None, None)
    else Step(Some(Block(kind, va, TableInfo(decoded.value.0))), Some(decoded.value.1))
  }

  function StepAt(rt: Runtime, kind: Kind, va: u64): Step {
    match kind
    case GenericContext =>
      var g := DecodeGenericHeader(rt, va);
      if g.None? then Step(None, None)
      else Step(Some(Block(kind, va, Generics(g.value.0.0, g.value.0.1))), Some(g.value.1))
    case VTable =>
      var v := DecodeVTableHeader(rt, va);
      if v.None? then Step(None, None) else Step(Some(Block(kind, va, VTableInfo(v.value.0))), Some(v.value.1))
    case OverrideTable => TableStep(kind, va, DecodeTable(rt, va, 12))
    case DefaultOverrides => TableStep(kind, va, DecodeTable(rt, va, 8))
    case Prespecializations => TableStep(kind, va, DecodePrespecializations(rt, va))
    case InvertibleSet =>
      var bits := ReadU16At(rt, va);
      if bits.None? then Step(None, None)
      else Step(Some(Block(kind, va, Bits(bits.value))), CheckedAdd(va, 4))
    case SingletonInit => FixedStep(kind, va, 12)
    case _ => FixedStep(kind, va, 4)
  }

  /** The blocks recorded by a walk over `kinds` from `va`; the first failure ends it. */
  function Walk(rt: Runtime, flags: Flags, extra: Option<u32>, kinds: seq<Kind>, va: u64): seq<Block> {
    if kinds == [] then []
    else if !Present(kinds[0], flags, extra) then Walk(rt, flags, extra, kinds[1..], va)
    else
      var step := StepAt(rt, kinds[0], va);
      (if step.block.Some? then [step.block.value] else [])
      + if step.next.Some? then Walk(rt, flags, extra, kinds[1..], step.next.value) else []
  }
}
