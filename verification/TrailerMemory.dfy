/** Trailing objects laid out in memory, and the walk over them: flag bits, counts, sizes and
    addresses, each taken from the bytes where the format keeps it. */
module TrailerMemory {
  import opened Bytes
  import opened SegmentMap
  import opened Trailers
  import opened TrailerLaws

  // ----- the flag word -----

  /** The bits of a type descriptor's flag word, lowest first; those no walk consults are numbers. */
  datatype Word = Word(kind: nat, invertible: bool, unique: nat, generic: bool, middle: nat, init: nat, imports: nat,
                       prespecialized: bool, layout: nat, defaults: bool, upper: nat, superclass: bool,
                       overrides: bool, vtable: bool)
  {
    predicate Valid() {
      && kind < 0x20 && unique < 2 && middle < 0x100 && init < 4 && imports < 2 && layout < 4 && upper < 0x40
    }
  }

  function Bit(b: bool): nat {
    if b then 1 else 0
  }

  function PackWord(w: Word): nat {
    w.kind + 0x20 * Bit(w.invertible) + 0x40 * w.unique + 0x80 * Bit(w.generic) + 0x100 * w.middle
    + 0x1_0000 * w.init + 0x4_0000 * w.imports + 0x8_0000 * Bit(w.prespecialized) + 0x10_0000 * w.layout
    + 0x40_0000 * Bit(w.defaults) + 0x80_0000 * w.upper + 0x2000_0000 * Bit(w.superclass)
    + 0x4000_0000 * Bit(w.overrides) + 0x8000_0000 * Bit(w.vtable)
  }

  /** Which blocks follow a descriptor; initialization 1 is singleton and 2 foreign, and bit 19 means
      a singleton pointer under the former and prespecializations otherwise. */
  predicate Shows(kind: Kind, w: Word, extra: Option<u32>) {
    match kind
    case GenericContext => w.generic
    case ResilientSuperclass => w.superclass
    case ForeignInit => w.init == 2
    case SingletonInit => w.init == 1
    case VTable => w.vtable
    case OverrideTable => w.overrides
    case ObjcStub => extra.Some? && extra.value % 2 == 1
    case Prespecializations => w.prespecialized && w.init != 1
    case InvertibleSet => w.invertible
    case SingletonPointer => w.prespecialized && w.init == 1
    case DefaultOverrides => w.defaults
  }

  /** A field of a word above `low`. */
  lemma {:induction false} FieldAt(word: nat, low: nat, field: nat, high: nat, unit: nat, size: nat)
    requires low < unit && field < size && word == low + unit * (field + size * high)
    ensures word / unit % size == field
  {
    Cut(word, low, field, high, unit, size);
  }

  /** The low half of a packed word: bits 5 and 7. */
  lemma {:induction false} LowBits(w: Word, word: nat, rest: nat)
    requires w.Valid()
    requires word == w.kind + 0x20 * Bit(w.invertible) + 0x40 * w.unique + 0x80 * Bit(w.generic) + 0x100 * rest
    ensures word / 0x20 % 2 == Bit(w.invertible) && word / 0x80 % 2 == Bit(w.generic)
  {
    FieldAt(word, w.kind, Bit(w.invertible), w.unique + 2 * Bit(w.generic) + 4 * rest, 0x20, 2);
    FieldAt(word, w.kind + 0x20 * Bit(w.invertible) + 0x40 * w.unique, Bit(w.generic), rest, 0x80, 2);
  }

  /** Bits 16 to 22, above `low`. */
  lemma {:induction false} MiddleBits(w: Word, word: nat, low: nat, rest: nat)
    requires w.Valid() && low < 0x1_0000
    requires word == low + 0x1_0000 * w.init + 0x4_0000 * w.imports + 0x8_0000 * Bit(w.prespecialized)
                     + 0x10_0000 * w.layout + 0x40_0000 * Bit(w.defaults) + 0x80_0000 * rest
    ensures word / 0x1_0000 % 4 == w.init
    ensures word / 0x8_0000 % 2 == Bit(w.prespecialized) && word / 0x40_0000 % 2 == Bit(w.defaults)
  {
    var p, d := Bit(w.prespecialized), Bit(w.defaults);
    FieldAt(word, low, w.init, w.imports + 2 * p + 4 * w.layout + 16 * d + 32 * rest, 0x1_0000, 4);
    FieldAt(word, low + 0x1_0000 * w.init + 0x4_0000 * w.imports, p, w.layout + 4 * d + 8 * rest, 0x8_0000, 2);
    FieldAt(word, low + 0x1_0000 * w.init + 0x4_0000 * w.imports + 0x8_0000 * p + 0x10_0000 * w.layout, d, rest,
            0x40_0000, 2);
  }

  /** Bits 29 to 31, above `low`. */
  lemma {:induction false} HighBits(w: Word, word: nat, low: nat)
    requires low < 0x2000_0000
    requires word == low + 0x2000_0000 * Bit(w.superclass) + 0x4000_0000 * Bit(w.overrides)
                     + 0x8000_0000 * Bit(w.vtable)
    ensures word < 0x1_0000_0000
    ensures word / 0x2000_0000 % 2 == Bit(w.superclass) && word / 0x4000_0000 % 2 == Bit(w.overrides)
    ensures word / 0x8000_0000 % 2 == Bit(w.vtable)
  {
    var s, o, v := Bit(w.superclass), Bit(w.overrides), Bit(w.vtable);
    FieldAt(word, low, s, o + 2 * v, 0x2000_0000, 2);
    FieldAt(word, low + 0x2000_0000 * s, o, v, 0x4000_0000, 2);
    FieldAt(word, low + 0x2000_0000 * s + 0x4000_0000 * o, v, 0, 0x8000_0000, 2);
  }

  lemma {:induction false} WordFields(w: Word, word: nat)
    requires w.Valid() && word == PackWord(w)
    ensures word < 0x1_0000_0000
    ensures word / 0x20 % 2 == Bit(w.invertible) && word / 0x80 % 2 == Bit(w.generic)
    ensures word / 0x1_0000 % 4 == w.init
    ensures word / 0x8_0000 % 2 == Bit(w.prespecialized) && word / 0x40_0000 % 2 == Bit(w.defaults)
    ensures word / 0x2000_0000 % 2 == Bit(w.superclass) && word / 0x4000_0000 % 2 == Bit(w.overrides)
    ensures word / 0x8000_0000 % 2 == Bit(w.vtable)
  {
    var high := Bit(w.superclass) + 2 * Bit(w.overrides) + 4 * Bit(w.vtable);
    var low := w.kind + 0x20 * Bit(w.invertible) + 0x40 * w.unique + 0x80 * Bit(w.generic) + 0x100 * w.middle;
    var mid := w.init + 4 * w.imports + 8 * Bit(w.prespecialized) + 16 * w.layout + 64 * Bit(w.defaults);
    assert low < 0x1_0000 && low + 0x1_0000 * mid + 0x80_0000 * w.upper < 0x2000_0000;
    hide Bit;
    LowBits(w, word, w.middle + 0x100 * (mid + 0x80 * (w.upper + 0x40 * high)));
    MiddleBits(w, word, low, w.upper + 0x40 * high);
    HighBits(w, word, low + 0x1_0000 * mid + 0x80_0000 * w.upper);
  }

  /** The walk's flag tests on a packed word show exactly its blocks. */
  lemma {:induction false} FlagsReadBack(w: Word, kind: Kind, extra: Option<u32>)
    requires w.Valid()
    ensures PackWord(w) < 0x1_0000_0000
    ensures Present(kind, Flags(PackWord(w)), extra) == Shows(kind, w, extra)
  {
    WordFields(w, PackWord(w));
    hide PackWord;
  }

  // ----- blocks in memory -----

  /** A block's bytes, counts, entries and padding included. */
  datatype Laid = Laid(kind: Kind, bytes: seq<byte>)

  /** The block is as long as its own counts say: parameters at +8, a byte each and padded to four,
      and requirements at +10, twelve bytes each; vtable entries at +4, eight bytes each; a count and
      entries of twelve bytes, of eight, or of two times four; otherwise twelve bytes or four. */
  predicate Fits(b: Laid) {
    match b.kind
    case GenericContext =>
      |b.bytes| >= 16 && |b.bytes| == 16 + (LeNat(b.bytes[8..10]) + 3) / 4 * 4 + 12 * LeNat(b.bytes[10..12])
    case VTable => |b.bytes| >= 8 && |b.bytes| == 8 + 8 * LeNat(b.bytes[4..8])
    case OverrideTable => |b.bytes| >= 4 && |b.bytes| == 4 + 12 * LeNat(b.bytes[0..4])
    case DefaultOverrides => |b.bytes| >= 4 && |b.bytes| == 4 + 8 * LeNat(b.bytes[0..4])
    case Prespecializations =>
      |b.bytes| >= 4 && |b.bytes| == 4 + 4 * LeNat(b.bytes[0..4]) + 4 * LeNat(b.bytes[0..4])
    case SingletonInit => |b.bytes| == 12
    case _ => |b.bytes| == 4
  }

  lemma {:induction false} WordBounds(bs: seq<byte>)
    ensures |bs| == 2 ==> LeNat(bs) < 0x1_0000
    ensures |bs| == 4 ==> LeNat(bs) < 0x1_0000_0000
  {
    LeNatBound(bs);
    Pow2Is(8 * |bs|);
  }

  /** What a walk records of a block at an address. */
  function Recorded(b: Laid, va: u64): Block
    requires Fits(b) && va + |b.bytes| < 0x1_0000_0000_0000_0000
  {
    match b.kind
    case GenericContext =>
      WordBounds(b.bytes[8..10]);
      WordBounds(b.bytes[10..12]);
      Block(b.kind, va, Generics(params := LeNat(b.bytes[8..10]), requirements := LeNat(b.bytes[10..12])))
    case VTable =>
      WordBounds(b.bytes[0..4]);
      WordBounds(b.bytes[4..8]);
      Block(b.kind, va, VTableInfo(VTableHeader(offset := LeNat(b.bytes[0..4]), size := LeNat(b.bytes[4..8]),
                                                entriesVa := va + 8)))
    case OverrideTable | DefaultOverrides | Prespecializations =>
      WordBounds(b.bytes[0..4]);
      Block(b.kind, va, TableInfo(TableHeader(count := LeNat(b.bytes[0..4]), entriesVa := va + 4)))
    case InvertibleSet =>
      WordBounds(b.bytes[0..2]);
      Block(b.kind, va, Bits(LeNat(b.bytes[0..2])))
    case _ => Block(b.kind, va, Fixed)
  }

  /** The bytes are mapped at `va`, from file offset `off` on. */
  ghost predicate Mapped(rt: Runtime, va: nat, bytes: seq<byte>, off: nat) {
    && va + |bytes| < 0x1_0000_0000_0000_0000 && off + |bytes| <= |rt.data| && off + |bytes| < 0x1_0000_0000_0000_0000
    && rt.data[off..off + |bytes|] == bytes
    && forall x: u64 :: va <= x < va + |bytes| ==> VmToFile(rt.segs, x) == Some(off + (x - va))
  }

  /** Bytes on disk in a segment of a well-formed table are mapped at its addresses. */
  lemma {:induction false} SegmentMaps(rt: Runtime, k: nat, delta: nat, n: nat)
    requires NoOverflow(rt.segs) && DisjointRanges(rt.segs) && k < |rt.segs|
    requires var seg := rt.segs[k];
             && seg.filesize <= seg.vmsize && delta + n <= seg.filesize
             && seg.fileoff + delta + n <= |rt.data| && seg.fileoff + delta + n < 0x1_0000_0000_0000_0000
    ensures var seg := rt.segs[k];
            Mapped(rt, seg.vmaddr + delta, rt.data[seg.fileoff + delta..seg.fileoff + delta + n], seg.fileoff + delta)
  {
    var seg := rt.segs[k];
    assert seg.vmaddr + seg.vmsize < 0x1_0000_0000_0000_0000;
    forall x: u64 | seg.vmaddr + delta <= x < seg.vmaddr + delta + n
      ensures VmToFile(rt.segs, x) == Some(seg.fileoff + delta + (x - (seg.vmaddr + delta)))
    {
      TranslationExact(rt.segs, x, seg.fileoff + (x - seg.vmaddr));
      assert rt.segs[k].Backs(x, seg.fileoff + (x - seg.vmaddr));
    }
  }

  lemma {:induction false} ReadsMapped(rt: Runtime, va: u64, bytes: seq<byte>, off: nat, n: nat)
    requires Mapped(rt, va, bytes, off) && n <= |bytes| && bytes != []
    ensures rt.ReadBytes(va, n) == Some(bytes[0..n])
  {
    assert VmToFile(rt.segs, va) == Some(off);
    hide VmToFile;
    assert rt.data[off..off + |bytes|][0..n] == rt.data[off..off + n];
  }

  lemma {:induction false} MappedSplit(rt: Runtime, va: nat, a: seq<byte>, b: seq<byte>, off: nat)
    requires Mapped(rt, va, a + b, off)
    ensures Mapped(rt, va, a, off) && Mapped(rt, va + |a|, b, off + |a|)
  {
    hide VmToFile;
    var bytes := rt.data[off..off + |a + b|];
    assert bytes[..|a|] == a && bytes[|a|..] == b;
    assert rt.data[off..off + |a|] == bytes[..|a|];
    assert rt.data[off + |a|..off + |a| + |b|] == bytes[|a|..];
  }

  lemma {:induction false} Padded(params: nat)
    ensures params + (4 - params % 4) % 4 == (params + 3) / 4 * 4
  {
  }

  /** The end of a generic context whose header has been read. */
  lemma {:induction false} GenericFrom(rt: Runtime, va: u64, header: seq<byte>, params: u16, requirements: u16)
    requires rt.ReadBytes(va, 16) == Some(header)
    requires ReadU16Le(header, 8) == Some(params) && ReadU16Le(header, 10) == Some(requirements)
    requires va + 16 + (params + 3) / 4 * 4 + 12 * requirements < 0x1_0000_0000_0000_0000
    ensures DecodeGenericHeader(rt, va)
         == Some(((params, requirements), va + 16 + (params + 3) / 4 * 4 + 12 * requirements))
  {
    Padded(params);
    hide Runtime.ReadBytes, ReadU16Le;
  }

  lemma {:induction false} HeaderCounts(bytes: seq<byte>)
    requires |bytes| >= 16
    ensures LeNat(bytes[8..10]) < 0x1_0000 && LeNat(bytes[10..12]) < 0x1_0000
    ensures ReadU16Le(bytes[0..16], 8) == Some(LeNat(bytes[8..10]))
    ensures ReadU16Le(bytes[0..16], 10) == Some(LeNat(bytes[10..12]))
  {
    var header := bytes[0..16];
    WordBounds(bytes[8..10]);
    WordBounds(bytes[10..12]);
    assert header[8..10] == bytes[8..10] && header[10..12] == bytes[10..12];
    hide LeNat;
  }

  lemma {:induction false} GenericReadsBack(rt: Runtime, bytes: seq<byte>, va: u64, off: nat)
    requires Fits(Laid(GenericContext, bytes)) && Mapped(rt, va, bytes, off)
    ensures StepAt(rt, GenericContext, va)
         == Step(Some(Recorded(Laid(GenericContext, bytes), va)), Some(va + |bytes|))
  {
    ReadsMapped(rt, va, bytes, off, 16);
    HeaderCounts(bytes);
    hide LeNat, VmToFile, ReadU16Le, Runtime.ReadBytes, DecodeGenericHeader;
    GenericFrom(rt, va, bytes[0..16], LeNat(bytes[8..10]), LeNat(bytes[10..12]));
  }

  lemma {:induction false} VTableReadsBack(rt: Runtime, bytes: seq<byte>, va: u64, off: nat)
    requires Fits(Laid(VTable, bytes)) && Mapped(rt, va, bytes, off)
    ensures StepAt(rt, VTable, va) == Step(Some(Recorded(Laid(VTable, bytes), va)), Some(va + |bytes|))
  {
    ReadsMapped(rt, va, bytes, off, 8);
    var header := bytes[0..8];
    assert header[0..4] == bytes[0..4] && header[4..8] == bytes[4..8];
    hide LeNat, VmToFile, Mapped, Runtime.ReadBytes;
  }

  lemma {:induction false} TableReadsBack(rt: Runtime, kind: Kind, bytes: seq<byte>, va: u64, off: nat)
    requires kind.OverrideTable? || kind.DefaultOverrides? || kind.Prespecializations?
    requires Fits(Laid(kind, bytes)) && Mapped(rt, va, bytes, off)
    ensures StepAt(rt, kind, va) == Step(Some(Recorded(Laid(kind, bytes), va)), Some(va + |bytes|))
  {
    ReadsMapped(rt, va, bytes, off, 4);
    var header := bytes[0..4];
    assert header[0..4] == header;
    hide LeNat, VmToFile, Mapped, Runtime.ReadBytes;
  }

  lemma {:induction false} FixedReadsBack(rt: Runtime, kind: Kind, bytes: seq<byte>, va: u64, off: nat)
    requires !kind.GenericContext? && !kind.VTable?
    requires !kind.OverrideTable? && !kind.DefaultOverrides? && !kind.Prespecializations?
    requires Fits(Laid(kind, bytes)) && Mapped(rt, va, bytes, off)
    ensures StepAt(rt, kind, va) == Step(Some(Recorded(Laid(kind, bytes), va)), Some(va + |bytes|))
  {
    if kind.InvertibleSet? {
      ReadsMapped(rt, va, bytes, off, 2);
      var header := bytes[0..2];
      assert header[0..2] == header;
    }
    hide LeNat, VmToFile, Mapped, Runtime.ReadBytes;
  }

  /** A step over a block in memory records it and moves past its last byte. */
  lemma {:induction false} StepReadsBack(rt: Runtime, b: Laid, va: u64, off: nat)
    requires Fits(b) && Mapped(rt, va, b.bytes, off)
    ensures va + |b.bytes| < 0x1_0000_0000_0000_0000
    ensures StepAt(rt, b.kind, va) == Step(Some(Recorded(b, va)), Some(va + |b.bytes|))
  {
    assert va + |b.bytes| < 0x1_0000_0000_0000_0000;
    hide StepAt, Recorded, Mapped, LeNat;
    match b.kind {
      case GenericContext => GenericReadsBack(rt, b.bytes, va, off);
      case VTable => VTableReadsBack(rt, b.bytes, va, off);
      case OverrideTable | DefaultOverrides | Prespecializations => TableReadsBack(rt, b.kind, b.bytes, va, off);
      case _ => FixedReadsBack(rt, b.kind, b.bytes, va, off);
    }
  }

  // ----- whole walks -----

  function Flat(laid: seq<Laid>): seq<byte> {
    if laid == [] then [] else laid[0].bytes + Flat(laid[1..])
  }

  predicate AllFit(laid: seq<Laid>) {
    forall i :: 0 <= i < |laid| ==> Fits(laid[i])
  }

  function RecordedAll(laid: seq<Laid>, va: nat): seq<Block>
    requires AllFit(laid) && va + |Flat(laid)| < 0x1_0000_0000_0000_0000
  {
    if laid == [] then [] else [Recorded(laid[0], va)] + RecordedAll(laid[1..], va + |laid[0].bytes|)
  }

  /** The kinds shown by a flag word, in an order. */
  function Shown(order: seq<Kind>, w: Word, extra: Option<u32>): seq<Kind> {
    if order == [] then []
    else (if Shows(order[0], w, extra) then [order[0]] else []) + Shown(order[1..], w, extra)
  }

  function KindsLaid(laid: seq<Laid>): seq<Kind> {
    seq(|laid|, i requires 0 <= i < |laid| => laid[i].kind)
  }

  lemma {:induction false} FirstLaid(laid: seq<Laid>, va: nat)
    requires laid != [] && AllFit(laid) && va + |Flat(laid)| < 0x1_0000_0000_0000_0000
    ensures Fits(laid[0]) && AllFit(laid[1..]) && Flat(laid) == laid[0].bytes + Flat(laid[1..])
    ensures KindsLaid(laid) == [laid[0].kind] + KindsLaid(laid[1..])
    ensures va + |laid[0].bytes| + |Flat(laid[1..])| < 0x1_0000_0000_0000_0000
    ensures RecordedAll(laid, va) == [Recorded(laid[0], va)] + RecordedAll(laid[1..], va + |laid[0].bytes|)
  {
    hide Fits, Recorded;
  }

  lemma {:induction false} NoneLaid(laid: seq<Laid>, va: nat)
    requires KindsLaid(laid) == []
    ensures laid == [] && AllFit(laid) && Flat(laid) == []
    ensures va < 0x1_0000_0000_0000_0000 ==> RecordedAll(laid, va) == []
  {
    assert |laid| == |KindsLaid(laid)|;
  }

  lemma {:induction false} NextShown(order: seq<Kind>, w: Word, extra: Option<u32>)
    ensures Shown([], w, extra) == []
    ensures order != [] ==>
              Shown(order, w, extra)
              == if Shows(order[0], w, extra) then [order[0]] + Shown(order[1..], w, extra)
                 else Shown(order[1..], w, extra)
  {
    hide Shows;
  }

  /** A walk's first kind: absent, or one whole step. */
  lemma {:induction false} WalkStep(rt: Runtime, flags: Flags, extra: Option<u32>, order: seq<Kind>, va: u64)
    ensures Walk(rt, flags, extra, [], va) == []
    ensures order != [] && !Present(order[0], flags, extra) ==>
              Walk(rt, flags, extra, order, va) == Walk(rt, flags, extra, order[1..], va)
    ensures order != [] && Present(order[0], flags, extra) ==>
              var step := StepAt(rt, order[0], va);
              step.block.Some? && step.next.Some? ==>
                Walk(rt, flags, extra, order, va)
                == [step.block.value] + Walk(rt, flags, extra, order[1..], step.next.value)
  {
    hide StepAt, Present;
  }

  lemma {:induction false} MappedEnds(rt: Runtime, va: nat, bytes: seq<byte>, off: nat)
    requires Mapped(rt, va, bytes, off)
    ensures va + |bytes| < 0x1_0000_0000_0000_0000
  {
    hide VmToFile;
  }

  /** Over memory that holds the blocks a flag word shows, end to end from `va`, a walk records each
      of them, with the details in its bytes, at its own address. */
  lemma {:induction false} WalkReadsBack(rt: Runtime, w: Word, extra: Option<u32>, order: seq<Kind>, laid: seq<Laid>,
                                         va: nat, off: nat)
    requires w.Valid() && AllFit(laid) && KindsLaid(laid) == Shown(order, w, extra)
    requires Mapped(rt, va, Flat(laid), off)
    ensures PackWord(w) < 0x1_0000_0000 && va + |Flat(laid)| < 0x1_0000_0000_0000_0000
    ensures Walk(rt, Flags(PackWord(w)), extra, order, va) == RecordedAll(laid, va)
    decreases |order|
  {
    hide *;
    FlagsReadBack(w, GenericContext, extra);
    MappedEnds(rt, va, Flat(laid), off);
    var flags := Flags(PackWord(w));
    NextShown(order, w, extra);
    WalkStep(rt, flags, extra, order, va);
    if order == [] {
      NoneLaid(laid, va);
    } else {
      FlagsReadBack(w, order[0], extra);
      if Shows(order[0], w, extra) {
        LaidFirst(laid, order[0], Shown(order[1..], w, extra));
        FirstLaid(laid, va);
        var b := laid[0];
        MappedSplit(rt, va, b.bytes, Flat(laid[1..]), off);
        StepReadsBack(rt, b, va, off);
        WalkReadsBack(rt, w, extra, order[1..], laid[1..], va + |b.bytes|, off + |b.bytes|);
      } else {
        WalkReadsBack(rt, w, extra, order[1..], laid, va, off);
      }
    }
  }

  lemma {:induction false} LaidFirst(laid: seq<Laid>, kind: Kind, rest: seq<Kind>)
    requires KindsLaid(laid) == [kind] + rest
    ensures laid != [] && laid[0].kind == kind && KindsLaid(laid[1..]) == rest
  {
    assert |laid| == |KindsLaid(laid)| && KindsLaid(laid)[0] == kind;
    assert KindsLaid(laid)[1..] == rest && KindsLaid(laid[1..]) == KindsLaid(laid)[1..];
  }
}
