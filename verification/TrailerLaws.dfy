/** What every trailing-object walk keeps: blocks tile, truncation loses a suffix, and the
    value-type walk is the class walk without the class-only blocks. */
module TrailerLaws {
  import opened Bytes
  import opened SegmentMap
  import opened Trailers

  // ----- tiling -----

  /** Size of a block, from the counts in its header. */
  function SizeOf(b: Block): nat {
    match b.detail
    case Generics(params, requirements) => 16 + RoundUp4(params) + 12 * requirements
    case VTableInfo(vtable) => 8 + 8 * vtable.size
    case TableInfo(table) => 4 + (if b.kind.OverrideTable? then 12 * table.count else 8 * table.count)
    case Bits(_) => 4
    case Fixed => if b.kind.SingletonInit? then 12 else 4
  }

  lemma {:induction false} GenericAdvances(rt: Runtime, va: u64)
    ensures var g := DecodeGenericHeader(rt, va);
            g.Some? ==>
              var (params, requirements) := g.value.0;
              g.value.1 == va + 16 + RoundUp4(params) + 12 * requirements
  {
    hide VmToFile, ReadU16Le;
  }

  lemma {:induction false} TablesAdvance(rt: Runtime, va: u64, entrySize: nat)
    requires entrySize <= 12
    ensures var v, t, p := DecodeVTableHeader(rt, va), DecodeTable(rt, va, entrySize), DecodePrespecializations(rt, va);
            && (v.Some? ==> v.value.1 == va + 8 + 8 * v.value.0.size)
            && (t.Some? ==> t.value.1 == va + 4 + entrySize * t.value.0.count)
            && (p.Some? ==> p.value.1 == va + 4 + 8 * p.value.0.count)
  {
    hide VmToFile, ReadU32Le;
  }

  /** The step records a block of this kind at this address, and advances by the block's size. */
  predicate Advances(step: Step, kind: Kind, va: u64) {
    && (step.next.Some? ==> step.block.Some?)
    && (step.block.Some? ==> step.block.value.kind == kind && step.block.value.va == va)
    && (step.next.Some? ==> step.next.value == va + SizeOf(step.block.value))
  }

  lemma {:induction false} CountedAdvances(rt: Runtime, va: u64)
    ensures Advances(StepAt(rt, GenericContext, va), GenericContext, va)
    ensures Advances(StepAt(rt, VTable, va), VTable, va)
    ensures Advances(StepAt(rt, InvertibleSet, va), InvertibleSet, va)
  {
    GenericAdvances(rt, va);
    TablesAdvance(rt, va, 8);
    hide DecodeGenericHeader, DecodeVTableHeader, DecodeTable, DecodePrespecializations, ReadU16At, RoundUp4;
  }

  lemma {:induction false} TableAdvances(rt: Runtime, va: u64)
    ensures Advances(StepAt(rt, OverrideTable, va), OverrideTable, va)
    ensures Advances(StepAt(rt, DefaultOverrides, va), DefaultOverrides, va)
    ensures Advances(StepAt(rt, Prespecializations, va), Prespecializations, va)
  {
    TablesAdvance(rt, va, 12);
    TablesAdvance(rt, va, 8);
    hide DecodeGenericHeader, DecodeVTableHeader, DecodeTable, DecodePrespecializations, ReadU16At, RoundUp4;
  }

  lemma {:induction false} FixedAdvances(rt: Runtime, kind: Kind, va: u64)
    requires kind.ResilientSuperclass? || kind.ForeignInit? || kind.SingletonInit? || kind.ObjcStub?
             || kind.SingletonPointer?
    ensures Advances(StepAt(rt, kind, va), kind, va)
  {
    hide DecodeGenericHeader, DecodeVTableHeader, DecodeTable, DecodePrespecializations, ReadU16At, RoundUp4;
  }

  /** Every step records its own kind at its own address, and advances by the block's size. */
  lemma {:induction false} StepAdvances(rt: Runtime, kind: Kind, va: u64)
    ensures Advances(StepAt(rt, kind, va), kind, va)
  {
    hide *;
    match kind {
      case GenericContext | VTable | InvertibleSet => CountedAdvances(rt, va);
      case OverrideTable | DefaultOverrides | Prespecializations => TableAdvances(rt, va);
      case _ => FixedAdvances(rt, kind, va);
    }
  }

  lemma {:induction false} SizeIsAligned(b: Block)
    ensures SizeOf(b) % 4 == 0
  {
    match b.detail {
      case Generics(params, requirements) =>
        MultipleOf4(SizeOf(b), 4 + (params + 3) / 4 + 3 * requirements);
      case VTableInfo(vtable) => MultipleOf4(SizeOf(b), 2 + 2 * vtable.size);
      case TableInfo(table) =>
        MultipleOf4(SizeOf(b), 1 + (if b.kind.OverrideTable? then 3 * table.count else 2 * table.count));
      case Bits(_) =>
      case Fixed =>
    }
  }

  lemma {:induction false} MultipleOf4(n: nat, k: nat)
    requires n == 4 * k
    ensures n % 4 == 0
  {
  }

  /** Blocks lie end to end from `start`. */
  ghost predicate Tiles(blocks: seq<Block>, start: nat) {
    && (blocks != [] ==> blocks[0].va == start)
    && forall i :: 1 <= i < |blocks| ==> blocks[i].va == blocks[i - 1].va + SizeOf(blocks[i - 1])
  }

  function PresentKinds(kinds: seq<Kind>, flags: Flags, extra: Option<u32>): seq<Kind> {
    if kinds == [] then []
    else (if Present(kinds[0], flags, extra) then [kinds[0]] else []) + PresentKinds(kinds[1..], flags, extra)
  }

  function KindsOf(blocks: seq<Block>): seq<Kind> {
    seq(|blocks|, i requires 0 <= i < |blocks| => blocks[i].kind)
  }

  /** No read fails and no address overflows along the walk. */
  predicate Unbroken(rt: Runtime, flags: Flags, extra: Option<u32>, kinds: seq<Kind>, va: u64) {
    kinds == [] ||
    if !Present(kinds[0], flags, extra) then Unbroken(rt, flags, extra, kinds[1..], va)
    else
      var next := StepAt(rt, kinds[0], va).next;
      next.Some? && Unbroken(rt, flags, extra, kinds[1..], next.value)
  }

  /** Every walk, broken or not, records a prefix of the present blocks in the declared order, end
      to end from the start; an unbroken one records them all. */
  lemma {:induction false} WalkTiles(rt: Runtime, flags: Flags, extra: Option<u32>, kinds: seq<Kind>, va: u64)
    ensures var blocks := Walk(rt, flags, extra, kinds, va);
            && Tiles(blocks, va)
            && KindsOf(blocks) <= PresentKinds(kinds, flags, extra)
            && (Unbroken(rt, flags, extra, kinds, va) ==> KindsOf(blocks) == PresentKinds(kinds, flags, extra))
    decreases |kinds|
  {
    hide StepAt, Present, SizeOf, KindsOf, Tiles;
    NoBlocks(va);
    if kinds != [] {
      if !Present(kinds[0], flags, extra) {
        WalkTiles(rt, flags, extra, kinds[1..], va);
      } else {
        var step := StepAt(rt, kinds[0], va);
        StepAdvances(rt, kinds[0], va);
        if step.next.Some? {
          WalkTiles(rt, flags, extra, kinds[1..], step.next.value);
          ConsBlock(step.block.value, Walk(rt, flags, extra, kinds[1..], step.next.value));
        } else if step.block.Some? {
          ConsBlock(step.block.value, []);
          assert [step.block.value] + [] == [step.block.value];
          assert Walk(rt, flags, extra, kinds, va) == [step.block.value];
        } else {
          assert Walk(rt, flags, extra, kinds, va) == [];
        }
      }
    }
  }

  lemma {:induction false} NoBlocks(va: nat)
    ensures Tiles([], va) && KindsOf([]) == []
  {
  }

  lemma {:induction false} ConsBlock(b: Block, rest: seq<Block>)
    ensures KindsOf([b] + rest) == [b.kind] + KindsOf(rest)
    ensures Tiles(rest, b.va + SizeOf(b)) ==> Tiles([b] + rest, b.va)
    ensures Tiles([b], b.va)
  {
    hide SizeOf;
  }

  /** A block is where the sizes of the blocks before it put it; from a 4-aligned start every
      block is 4-aligned. */
  lemma {:induction false} TilesSum(blocks: seq<Block>, start: nat, i: nat)
    requires Tiles(blocks, start) && i < |blocks|
    ensures blocks[i].va == start + SizesSum(blocks[..i])
    ensures start % 4 == 0 ==> blocks[i].va % 4 == 0
  {
    hide SizeOf;
    if i > 0 {
      TilesSum(blocks, start, i - 1);
      assert blocks[..i][..i - 1] == blocks[..i - 1];
      SizeIsAligned(blocks[i - 1]);
    }
  }

  function SizesSum(blocks: seq<Block>): nat {
    if blocks == [] then 0 else SizesSum(blocks[..|blocks| - 1]) + SizeOf(blocks[|blocks| - 1])
  }

  /** Blocks the class walk records: the i-th is at the start plus the sizes of exactly the
      earlier ones, so they are disjoint, and 4-aligned when the start is. */
  lemma {:induction false} ClassBlocksTile(rt: Runtime, flags: Flags, extra: Option<u32>, start: u64, i: nat, j: nat)
    requires i <= j < |Walk(rt, flags, extra, CLASS_ORDER, start)|
    ensures var blocks := Walk(rt, flags, extra, CLASS_ORDER, start);
            && blocks[j].va == start + SizesSum(blocks[..j])
            && (i < j ==> blocks[i].va + SizeOf(blocks[i]) <= blocks[j].va)
            && (start % 4 == 0 ==> blocks[j].va % 4 == 0)
    decreases j - i
  {
    hide Walk, SizeOf;
    WalkTiles(rt, flags, extra, CLASS_ORDER, start);
    var blocks := Walk(rt, flags, extra, CLASS_ORDER, start);
    TilesSum(blocks, start, j);
    if i + 1 < j {
      ClassBlocksTile(rt, flags, extra, start, i + 1, j);
    }
  }

  // ----- truncation -----

  function Truncate(rt: Runtime, len: nat): Runtime {
    if len <= |rt.data| then rt.(data := rt.data[..len]) else rt
  }

  lemma {:induction false} ReadTruncated(rt: Runtime, len: nat, va: u64, n: nat)
    ensures var r := Truncate(rt, len).ReadBytes(va, n); r == None || r == rt.ReadBytes(va, n)
  {
    hide VmToFile;
    var off := VmToFile(rt.segs, va);
    if off.Some? && len <= |rt.data| && off.value + n <= len {
      assert rt.data[..len][off.value..off.value + n] == rt.data[off.value..off.value + n];
    }
  }

  /** On a truncated file a step is the same or fails outright. */
  lemma {:induction false} StepTruncated(rt: Runtime, len: nat, kind: Kind, va: u64)
    ensures var short := StepAt(Truncate(rt, len), kind, va);
            short == StepAt(rt, kind, va) || short == Step(None, None)
  {
    ReadTruncated(rt, len, va, 16);
    ReadTruncated(rt, len, va, 8);
    ReadTruncated(rt, len, va, 4);
    ReadTruncated(rt, len, va, 2);
    hide Truncate, ReadU16Le, ReadU32Le, VmToFile, Runtime.ReadBytes;
  }

  /** Truncating the file only loses a suffix of the blocks: those still recorded are the full
      file's, and once one is lost no later one is set. */
  lemma {:induction false} TruncationLosesSuffix(rt: Runtime, len: nat, flags: Flags, extra: Option<u32>,
                                                 kinds: seq<Kind>, va: u64)
    ensures Walk(Truncate(rt, len), flags, extra, kinds, va) <= Walk(rt, flags, extra, kinds, va)
    decreases |kinds|
  {
    hide StepAt, Present, Truncate;
    if kinds != [] {
      if !Present(kinds[0], flags, extra) {
        TruncationLosesSuffix(rt, len, flags, extra, kinds[1..], va);
      } else {
        StepTruncated(rt, len, kinds[0], va);
        var step := StepAt(rt, kinds[0], va);
        if step.next.Some? {
          TruncationLosesSuffix(rt, len, flags, extra, kinds[1..], step.next.value);
        }
      }
    }
  }

  // ----- value types -----

  lemma {:induction false} SkipAbsent(rt: Runtime, flags: Flags, extra: Option<u32>, mid: seq<Kind>,
                                      rest: seq<Kind>, va: u64)
    requires forall k :: k in mid ==> !Present(k, flags, extra)
    ensures Walk(rt, flags, extra, mid + rest, va) == Walk(rt, flags, extra, rest, va)
  {
    hide StepAt, Present;
    if mid == [] {
      assert mid + rest == rest;
    } else {
      assert mid[0] in mid && (mid + rest)[1..] == mid[1..] + rest;
      SkipAbsent(rt, flags, extra, mid[1..], rest, va);
    }
  }

  /** Kinds that are absent can be left out of the order. */
  lemma {:induction false} DropAbsent(rt: Runtime, flags: Flags, extra: Option<u32>, first: seq<Kind>,
                                      mid: seq<Kind>, rest: seq<Kind>, va: u64)
    requires forall k :: k in mid ==> !Present(k, flags, extra)
    ensures Walk(rt, flags, extra, first + mid + rest, va) == Walk(rt, flags, extra, first + rest, va)
    decreases |first|
  {
    hide StepAt, Present;
    if first == [] {
      assert first + mid + rest == mid + rest && first + rest == rest;
      SkipAbsent(rt, flags, extra, mid, rest, va);
    } else {
      var step := StepAt(rt, first[0], va);
      assert (first + mid + rest)[1..] == first[1..] + mid + rest && (first + rest)[1..] == first[1..] + rest;
      DropAbsent(rt, flags, extra, first[1..], mid, rest, va);
      if step.next.Some? {
        DropAbsent(rt, flags, extra, first[1..], mid, rest, step.next.value);
      }
    }
  }

  predicate ClassBitsClear(flags: Flags) {
    && !flags.HasResilientSuperclass() && !flags.HasVTable()
    && !flags.HasOverrideTable() && !flags.HasDefaultOverrideTable()
  }

  /** Over kinds without the stub the extra flags are never consulted. */
  lemma {:induction false} IgnoresExtra(rt: Runtime, flags: Flags, extra: Option<u32>, kinds: seq<Kind>, va: u64)
    requires ObjcStub !in kinds
    ensures Walk(rt, flags, None, kinds, va) == Walk(rt, flags, extra, kinds, va)
    decreases |kinds|
  {
    hide StepAt;
    if kinds != [] {
      var step := StepAt(rt, kinds[0], va);
      IgnoresExtra(rt, flags, extra, kinds[1..], va);
      if step.next.Some? {
        IgnoresExtra(rt, flags, extra, kinds[1..], step.next.value);
      }
    }
  }

  /** Without class-only bits and extra flags the value-type walk records the blocks of the class
      walk at the same addresses, on every memory, failing reads included. */
  lemma {:induction false} ValueWalkRefinesClassWalk(rt: Runtime, flags: Flags, extra: Option<u32>, start: u64)
    requires ClassBitsClear(flags) && !HasStub(extra)
    ensures Walk(rt, flags, None, VALUE_ORDER, start) == Walk(rt, flags, extra, CLASS_ORDER, start)
  {
    var tables := [VTable, OverrideTable, ObjcStub];
    var tail := [Prespecializations, InvertibleSet, SingletonPointer, DefaultOverrides];
    var middle := [GenericContext, ForeignInit, SingletonInit];
    assert CLASS_ORDER == [GenericContext] + [ResilientSuperclass] + ([ForeignInit, SingletonInit] + tables + tail);
    assert [GenericContext] + ([ForeignInit, SingletonInit] + tables + tail) == middle + tables + tail;
    assert middle + tail == VALUE_ORDER + [DefaultOverrides] + [];
    assert VALUE_ORDER + [] == VALUE_ORDER;
    hide Walk;
    DropAbsent(rt, flags, extra, [GenericContext], [ResilientSuperclass],
               [ForeignInit, SingletonInit] + tables + tail, start);
    DropAbsent(rt, flags, extra, middle, tables, tail, start);
    DropAbsent(rt, flags, extra, VALUE_ORDER, [DefaultOverrides], [], start);
    IgnoresExtra(rt, flags, extra, VALUE_ORDER, start);
  }
}
