/** What every chained-fixup walk keeps, on arbitrary bytes: bounds, independence from the import
    tables, and agreement with the segment-table translator. */
module ChainLaws {
  import opened Bytes
  import opened ChainSlot
  import opened SegmentMap
  import opened ChainWalk

  function Off(row: Entry): u64 {
    match row
    case RebaseEntry(r) => r.segmentOffset
    case BindEntry(b) => b.segmentOffset
  }

  function Vm(row: Entry): u64 {
    match row
    case RebaseEntry(r) => r.vmAddress
    case BindEntry(b) => b.vmAddress
  }

  function RawSlot(row: Entry): u64 {
    match row
    case RebaseEntry(r) => r.rawSlot
    case BindEntry(b) => b.rawSlot
  }

  // ----- every walk ends -----

  lemma {:induction false} DecodeKeepsSite(slot: u64, format: PointerFormat, ctx: SlotCtx)
    ensures var decoded := DecodeChainEntry(slot, format, ctx);
            decoded.Some? ==> var row := decoded.value.0;
                              && Off(row) == ctx.segmentOffset
                              && Vm(row) == ctx.vmAddress
                              && RawSlot(row) == slot
  {
  }

  /** The offsets a chain visits start at its own, climb by at least the stride and stay on disk. */
  ghost predicate Climbs(rows: seq<Entry>, first: nat, stride: nat, filesize: nat) {
    && (rows != [] ==> Off(rows[0]) == first)
    && (forall i :: 0 <= i < |rows| ==> Off(rows[i]) < filesize)
    && (forall i :: 1 <= i < |rows| ==> Off(rows[i - 1]) + stride <= Off(rows[i]))
  }

  lemma {:induction false} ChainClimbs(data: seq<byte>, loc: SegmentLoc, imageBase: u64, names: Names, page: nat,
                                       chainOff: u64)
    ensures Climbs(ChainRows(data, loc, imageBase, names, page, chainOff),
                   page * loc.chained.pageSize + chainOff, loc.chained.format.Stride(), loc.filesize)
    decreases if chainOff < loc.filesize then loc.filesize - chainOff else 0
  {
    ChainStep(data, loc, imageBase, names, page, chainOff);
    var read := ReadSlot(data, loc, page, chainOff);
    if read.Some? {
      var ctx := CtxAt(loc, imageBase, names, read.value.0);
      var decoded := DecodeChainEntry(read.value.1, loc.chained.format, ctx);
      DecodeKeepsSite(read.value.1, loc.chained.format, ctx);
      if decoded.Some? && decoded.value.1 != 0 {
        var next := Advance(loc.chained.format, chainOff, decoded.value.1);
        hide ChainRows, DecodeChainEntry;
        AdvanceIncreases(loc.chained.format, chainOff, decoded.value.1);
        ChainClimbs(data, loc, imageBase, names, page, next);
      }
    }
  }

  lemma {:induction false} ClimbCount(rows: seq<Entry>, first: nat, stride: nat, filesize: nat)
    requires Climbs(rows, first, stride, filesize) && rows != []
    ensures (|rows| - 1) * stride <= Off(rows[|rows| - 1])
  {
    if |rows| > 1 {
      ClimbCount(rows[..|rows| - 1], first, stride, filesize);
      assert (|rows| - 1) * stride == (|rows| - 2) * stride + stride;
    }
  }

  /** On arbitrary bytes a page yields at most ceil(filesize / stride) rows. */
  lemma {:induction false} ChainRowBound(data: seq<byte>, loc: SegmentLoc, imageBase: u64, names: Names, page: nat,
                                         chainOff: u64)
    ensures var stride := loc.chained.format.Stride();
            |ChainRows(data, loc, imageBase, names, page, chainOff)| <= (loc.filesize + stride - 1) / stride
  {
    var rows := ChainRows(data, loc, imageBase, names, page, chainOff);
    ChainClimbs(data, loc, imageBase, names, page, chainOff);
    if rows != [] {
      ClimbCount(rows, page * loc.chained.pageSize + chainOff, loc.chained.format.Stride(), loc.filesize);
    }
  }

  // ----- one walk, split in two -----

  /** A row without what the import tables contribute to it. */
  function Skeleton(row: Entry): Entry {
    match row
    case RebaseEntry(_) => row
    case BindEntry(b) => BindEntry(b.(name := "", dylib := "", isWeak := false, addend := 0))
  }

  ghost predicate SameSkeleton(a: seq<Entry>, b: seq<Entry>) {
    |a| == |b| && forall i :: 0 <= i < |a| ==> Skeleton(a[i]) == Skeleton(b[i])
  }

  lemma {:induction false} DecodeIgnoresNames(slot: u64, format: PointerFormat, ctx: SlotCtx, names: Names)
    ensures var a, b := DecodeChainEntry(slot, format, ctx), DecodeChainEntry(slot, format, ctx.(names := names));
            && a.Some? == b.Some?
            && (a.Some? ==> a.value.1 == b.value.1 && Skeleton(a.value.0) == Skeleton(b.value.0))
  {
  }

  /** Two walks read the same slot at an offset, with contexts that differ in their names alone. */
  lemma {:induction false} SlotIgnoresNames(loc: SegmentLoc, imageBase: u64, names1: Names, names2: Names,
                                            read: (u64, u64))
    ensures var a := DecodeChainEntry(read.1, loc.chained.format, CtxAt(loc, imageBase, names1, read.0));
            var b := DecodeChainEntry(read.1, loc.chained.format, CtxAt(loc, imageBase, names2, read.0));
            && a.Some? == b.Some?
            && (a.Some? ==> a.value.1 == b.value.1 && Skeleton(a.value.0) == Skeleton(b.value.0))
  {
    var ctx := CtxAt(loc, imageBase, names1, read.0);
    assert ctx.(names := names2) == CtxAt(loc, imageBase, names2, read.0);
    hide *;
    DecodeIgnoresNames(read.1, loc.chained.format, ctx, names2);
  }

  lemma {:induction false} SkeletonsJoin(x: Entry, y: Entry, a: seq<Entry>, b: seq<Entry>)
    requires Skeleton(x) == Skeleton(y)
    ensures SameSkeleton([], []) && SameSkeleton([x] + [], [y] + [])
    ensures SameSkeleton(a, b) ==> SameSkeleton([x] + a, [y] + b)
  {
    hide Skeleton;
  }

  lemma {:induction false} ChainIgnoresNames(data: seq<byte>, loc: SegmentLoc, imageBase: u64, names1: Names,
                                             names2: Names, page: nat, chainOff: u64)
    ensures SameSkeleton(ChainRows(data, loc, imageBase, names1, page, chainOff),
                         ChainRows(data, loc, imageBase, names2, page, chainOff))
    decreases if chainOff < loc.filesize then loc.filesize - chainOff else 0
  {
    assert SameSkeleton([], []);
    hide *;
    ChainStep(data, loc, imageBase, names1, page, chainOff);
    ChainStep(data, loc, imageBase, names2, page, chainOff);
    var read := ReadSlot(data, loc, page, chainOff);
    if read.Some? {
      SlotIgnoresNames(loc, imageBase, names1, names2, read.value);
      var a := DecodeChainEntry(read.value.1, loc.chained.format, CtxAt(loc, imageBase, names1, read.value.0));
      var b := DecodeChainEntry(read.value.1, loc.chained.format, CtxAt(loc, imageBase, names2, read.value.0));
      if a.Some? {
        var next := Advance(loc.chained.format, chainOff, a.value.1);
        SkeletonsJoin(a.value.0, b.value.0, ChainRows(data, loc, imageBase, names1, page, next),
                      ChainRows(data, loc, imageBase, names2, page, next));
        if a.value.1 != 0 {
          AdvanceIncreases(loc.chained.format, chainOff, a.value.1);
          ChainIgnoresNames(data, loc, imageBase, names1, names2, page, next);
        }
      }
    }
  }

  lemma {:induction false} PagesIgnoreNames(data: seq<byte>, loc: SegmentLoc, imageBase: u64, names1: Names,
                                            names2: Names, page: nat)
    ensures SameSkeleton(PageRows(data, loc, imageBase, names1, page), PageRows(data, loc, imageBase, names2, page))
    decreases loc.chained.pageCount - page
  {
    PageStep(data, loc, imageBase, names1, page);
    PageStep(data, loc, imageBase, names2, page);
    hide PageRows, ChainRows, Skeleton;
    if page < loc.chained.pageCount && PageStart(data, loc, page).Some? {
      ChainIgnoresNames(data, loc, imageBase, names1, names2, page, PageStart(data, loc, page).value);
      PagesIgnoreNames(data, loc, imageBase, names1, names2, page + 1);
    }
  }

  lemma {:induction false} SegmentIgnoresNames(data: seq<byte>, loc: SegmentLoc, imageBase: u64, names1: Names,
                                               names2: Names)
    ensures SameSkeleton(SegmentRows(data, loc, imageBase, names1), SegmentRows(data, loc, imageBase, names2))
  {
    PagesIgnoreNames(data, loc, imageBase, names1, names2, 0);
    hide PageRows, Skeleton;
  }

  lemma {:induction false} ImageIgnoresNames(data: seq<byte>, locs: seq<SegmentLoc>, imageBase: u64, names1: Names,
                                             names2: Names)
    ensures SameSkeleton(ImageRows(data, locs, imageBase, names1), ImageRows(data, locs, imageBase, names2))
  {
    hide SegmentRows, Skeleton;
    if locs != [] {
      ImageIgnoresNames(data, locs[..|locs| - 1], imageBase, names1, names2);
      SegmentIgnoresNames(data, locs[|locs| - 1], imageBase, names1, names2);
    }
  }

  // The rows of one kind, in visiting order.

  function RebaseRows(rows: seq<Rebase>): seq<Entry> {
    seq(|rows|, i requires 0 <= i < |rows| => RebaseEntry(rows[i]))
  }

  function BindRows(rows: seq<Bind>): seq<Entry> {
    seq(|rows|, i requires 0 <= i < |rows| => BindEntry(rows[i]))
  }

  /** `rows` is an interleaving of `a` and `b`: each row goes, in order, to exactly one of them. */
  ghost predicate Interleaves(rows: seq<Entry>, a: seq<Entry>, b: seq<Entry>)
    decreases |rows|
  {
    if rows == [] then a == [] && b == []
    else
      || (a != [] && rows[0] == a[0] && Interleaves(rows[1..], a[1..], b))
      || (b != [] && rows[0] == b[0] && Interleaves(rows[1..], a, b[1..]))
  }

  lemma {:induction false} KindsInterleave(rows: seq<Entry>)
    ensures Interleaves(rows, RebaseRows(Rebases(rows)), BindRows(Binds(rows)))
  {
    if rows != [] {
      KindsInterleave(rows[1..]);
      var a, b := RebaseRows(Rebases(rows)), BindRows(Binds(rows));
      if rows[0].RebaseEntry? {
        assert a[1..] == RebaseRows(Rebases(rows[1..])) && Binds(rows) == Binds(rows[1..]);
      } else {
        assert b[1..] == BindRows(Binds(rows[1..])) && Rebases(rows) == Rebases(rows[1..]);
      }
    }
  }

  lemma {:induction false} SameRebases(a: seq<Entry>, b: seq<Entry>)
    requires SameSkeleton(a, b)
    ensures Rebases(a) == Rebases(b)
  {
    if a != [] {
      assert Skeleton(a[0]) == Skeleton(b[0]);
      assert SameSkeleton(a[1..], b[1..]) by {
        assert forall i :: 0 <= i < |a[1..]| ==> a[1..][i] == a[i + 1] && b[1..][i] == b[i + 1];
      }
      SameRebases(a[1..], b[1..]);
    }
  }

  /** The rebase walk, run with empty tables, and the bind walk split one sequence of slots: the
      bind walk's rows are an interleaving of the rebases the other walk reports and its own
      binds, and neither the slots visited nor the rebases depend on the tables. */
  lemma {:induction false} RebasesAndBindsPartition(data: seq<byte>, locs: seq<SegmentLoc>, imageBase: u64,
                                                    names: Names)
    ensures var walk, bare := ImageRows(data, locs, imageBase, names), ImageRows(data, locs, imageBase, NO_NAMES);
            && SameSkeleton(walk, bare)
            && Rebases(walk) == Rebases(bare)
            && Interleaves(walk, RebaseRows(Rebases(bare)), BindRows(Binds(walk)))
  {
    hide *;
    ImageIgnoresNames(data, locs, imageBase, names, NO_NAMES);
    var walk := ImageRows(data, locs, imageBase, names);
    SameRebases(walk, ImageRows(data, locs, imageBase, NO_NAMES));
    KindsInterleave(walk);
  }

  // ----- rows agree with the segment table -----

  /** The row's slot was read at file offset fileoff + segmentOffset. */
  ghost predicate ReadFrom(data: seq<byte>, loc: SegmentLoc, row: Entry) {
    && Off(row) < loc.filesize
    && loc.fileoff + Off(row) < U64
    && ReadU64Le(data, loc.fileoff + Off(row)) == Some(RawSlot(row))
    && Vm(row) == SatAdd(loc.vmaddr, Off(row))
  }

  lemma {:induction false} ChainReadFrom(data: seq<byte>, loc: SegmentLoc, imageBase: u64, names: Names, page: nat,
                                         chainOff: u64)
    ensures forall row :: row in ChainRows(data, loc, imageBase, names, page, chainOff) ==> ReadFrom(data, loc, row)
    decreases if chainOff < loc.filesize then loc.filesize - chainOff else 0
  {
    ChainStep(data, loc, imageBase, names, page, chainOff);
    var read := ReadSlot(data, loc, page, chainOff);
    if read.Some? {
      var ctx := CtxAt(loc, imageBase, names, read.value.0);
      DecodeKeepsSite(read.value.1, loc.chained.format, ctx);
      var decoded := DecodeChainEntry(read.value.1, loc.chained.format, ctx);
      hide ChainRows, DecodeChainEntry, ReadU64Le;
      if decoded.Some? && decoded.value.1 != 0 {
        AdvanceIncreases(loc.chained.format, chainOff, decoded.value.1);
        ChainReadFrom(data, loc, imageBase, names, page, Advance(loc.chained.format, chainOff, decoded.value.1));
      }
    }
  }

  lemma {:induction false} PagesReadFrom(data: seq<byte>, loc: SegmentLoc, imageBase: u64, names: Names, page: nat)
    ensures forall row :: row in PageRows(data, loc, imageBase, names, page) ==> ReadFrom(data, loc, row)
    decreases loc.chained.pageCount - page
  {
    PageStep(data, loc, imageBase, names, page);
    hide PageRows, ChainRows, ReadFrom;
    if page < loc.chained.pageCount && PageStart(data, loc, page).Some? {
      ChainReadFrom(data, loc, imageBase, names, page, PageStart(data, loc, page).value);
      PagesReadFrom(data, loc, imageBase, names, page + 1);
    }
  }

  lemma {:induction false} RowReadFrom(data: seq<byte>, loc: SegmentLoc, imageBase: u64, names: Names, row: Entry)
    requires row in SegmentRows(data, loc, imageBase, names)
    ensures ReadFrom(data, loc, row)
  {
    PagesReadFrom(data, loc, imageBase, names, 0);
  }

  /** The segment-table entry a walk context was built from. */
  ghost predicate LocOf(loc: SegmentLoc, seg: Segment) {
    loc.vmaddr == seg.vmaddr && loc.fileoff == seg.fileoff && loc.filesize == seg.filesize
  }

  lemma {:induction false} TranslateSite(loc: SegmentLoc, segs: seq<Segment>, k: nat, off: u64)
    requires NoOverflow(segs) && DisjointRanges(segs)
    requires k < |segs| && LocOf(loc, segs[k]) && segs[k].filesize <= segs[k].vmsize
    requires off < loc.filesize && loc.fileoff + off < U64
    ensures VmToFile(segs, SatAdd(loc.vmaddr, off)) == Some(loc.fileoff + off)
  {
    hide VmToFile;
    TranslationExact(segs, SatAdd(loc.vmaddr, off), loc.fileoff + off);
    assert segs[k].Backs(SatAdd(loc.vmaddr, off), loc.fileoff + off);
  }

  /** Over a well-formed table, translating a row's VM address gives the very file offset the
      row's slot was read from. */
  lemma {:induction false} WalkAgreesWithTranslator(data: seq<byte>, loc: SegmentLoc, imageBase: u64, names: Names,
                                                    segs: seq<Segment>, k: nat)
    requires NoOverflow(segs) && DisjointRanges(segs)
    requires k < |segs| && LocOf(loc, segs[k]) && segs[k].filesize <= segs[k].vmsize
    ensures forall row :: row in SegmentRows(data, loc, imageBase, names) ==>
              && loc.fileoff + Off(row) < U64
              && VmToFile(segs, Vm(row)) == Some(loc.fileoff + Off(row))
              && ReadU64Le(data, loc.fileoff + Off(row)) == Some(RawSlot(row))
  {
    forall row | row in SegmentRows(data, loc, imageBase, names)
      ensures && loc.fileoff + Off(row) < U64
              && VmToFile(segs, Vm(row)) == Some(loc.fileoff + Off(row))
              && ReadU64Le(data, loc.fileoff + Off(row)) == Some(RawSlot(row))
    {
      RowReadFrom(data, loc, imageBase, names, row);
      TranslateSite(loc, segs, k, Off(row));
    }
  }

  // ----- the walk contexts of an image -----

  function LocsOf(segs: seq<Segment>, chained: seq<ChainedSegment>): seq<SegmentLoc> {
    if chained == [] then []
    else
      var last := chained[|chained| - 1];
      LocsOf(segs, chained[..|chained| - 1]) +
      if last.segIndex < |segs| then
        var seg := segs[last.segIndex];
        [SegmentLoc(last, seg.vmaddr, seg.fileoff, seg.filesize)]
      else []
  }

  /** The lowest address of a segment with bytes on disk, or 0 when there is none. */
  ghost predicate IsImageBase(segs: seq<Segment>, base: u64) {
    if exists i :: 0 <= i < |segs| && segs[i].filesize > 0 then
      && (exists i :: 0 <= i < |segs| && segs[i].filesize > 0 && segs[i].vmaddr == base)
      && (forall i :: 0 <= i < |segs| && segs[i].filesize > 0 ==> base <= segs[i].vmaddr)
    else base == 0
  }

  method CollectChainedSegments(segs: seq<Segment>, chained: seq<ChainedSegment>)
    returns (locs: seq<SegmentLoc>, imageBase: u64)
    ensures locs == LocsOf(segs, chained)
    ensures IsImageBase(segs, imageBase)
  {
    var lowest: Option<u64> := None;
    for i := 0 to |segs|
      invariant lowest.None? <==> forall j :: 0 <= j < i ==> segs[j].filesize == 0
      invariant lowest.Some? ==> IsImageBase(segs[..i], lowest.value)
    {
      if segs[i].filesize > 0 {
        assert segs[..i + 1][i].filesize > 0;
        assert forall j :: 0 <= j < i ==> segs[..i + 1][j] == segs[..i][j];
        lowest := Some(if lowest.Some? && lowest.value <= segs[i].vmaddr then lowest.value else segs[i].vmaddr);
        assert lowest.value == segs[i].vmaddr || IsImageBase(segs[..i], lowest.value);
      }
      assert segs[..i + 1] == segs[..i] + [segs[i]];
    }
    assert segs[..|segs|] == segs;
    imageBase := if lowest.Some? then lowest.value else 0;
    locs := [];
    for i := 0 to |chained|
      invariant locs == LocsOf(segs, chained[..i])
    {
      assert chained[..i + 1][..i] == chained[..i];
      if chained[i].segIndex < |segs| {
        var seg := segs[chained[i].segIndex];
        locs := locs + [SegmentLoc(chained[i], seg.vmaddr, seg.fileoff, seg.filesize)];
      }
    }
    assert chained[..|chained|] == chained;
  }

  /** No chained segment with a table entry is dropped, and their order is kept. */
  lemma {:induction false} AllCollected(segs: seq<Segment>, chained: seq<ChainedSegment>)
    requires forall i :: 0 <= i < |chained| ==> chained[i].segIndex < |segs|
    ensures |LocsOf(segs, chained)| == |chained|
    ensures forall i :: 0 <= i < |chained| ==>
              var seg := segs[chained[i].segIndex];
              LocsOf(segs, chained)[i] == SegmentLoc(chained[i], seg.vmaddr, seg.fileoff, seg.filesize)
    decreases |chained|
  {
    if chained != [] {
      AllCollected(segs, chained[..|chained| - 1]);
    }
  }

  /** One without a table entry is dropped, and nothing else. */
  lemma {:induction false} StraySegmentDropped(segs: seq<Segment>, before: seq<ChainedSegment>, stray: ChainedSegment,
                                               later: seq<ChainedSegment>)
    requires stray.segIndex >= |segs|
    ensures LocsOf(segs, before + [stray] + later) == LocsOf(segs, before + later)
    decreases |later|
  {
    if later == [] {
      assert (before + [stray] + later)[..|before|] == before && before + later == before;
      assert before + [stray] + later == before + [stray];
    } else {
      var init := later[..|later| - 1];
      StraySegmentDropped(segs, before, stray, init);
      var long, short := before + [stray] + later, before + later;
      assert long[..|long| - 1] == before + [stray] + init && short[..|short| - 1] == before + init;
    }
  }

  lemma {:induction false} LocsComeFromTable(segs: seq<Segment>, chained: seq<ChainedSegment>)
    ensures forall loc :: loc in LocsOf(segs, chained) ==>
              loc.chained.segIndex < |segs| && LocOf(loc, segs[loc.chained.segIndex])
  {
    if chained != [] {
      LocsComeFromTable(segs, chained[..|chained| - 1]);
    }
  }

  /** The row's address translates to the file offset that holds its slot. */
  ghost predicate Translates(data: seq<byte>, segs: seq<Segment>, row: Entry) {
    && VmToFile(segs, Vm(row)).Some?
    && ReadU64Le(data, VmToFile(segs, Vm(row)).value) == Some(RawSlot(row))
  }

  lemma {:induction false} RowsTranslate(data: seq<byte>, segs: seq<Segment>, locs: seq<SegmentLoc>, imageBase: u64,
                                         names: Names)
    requires NoOverflow(segs) && DisjointRanges(segs)
    requires forall i :: 0 <= i < |segs| ==> segs[i].filesize <= segs[i].vmsize
    requires forall loc :: loc in locs ==> loc.chained.segIndex < |segs| && LocOf(loc, segs[loc.chained.segIndex])
    ensures forall row :: row in ImageRows(data, locs, imageBase, names) ==> Translates(data, segs, row)
  {
    if locs != [] {
      var loc := locs[|locs| - 1];
      RowsTranslate(data, segs, locs[..|locs| - 1], imageBase, names);
      assert loc in locs;
      WalkAgreesWithTranslator(data, loc, imageBase, names, segs, loc.chained.segIndex);
      hide SegmentRows, VmToFile, ReadU64Le, DisjointRanges;
    }
  }

  /** Walker and translator agree on every row of a whole image. */
  lemma {:induction false} ImageRowsTranslate(data: seq<byte>, segs: seq<Segment>, chained: seq<ChainedSegment>,
                                              imageBase: u64, names: Names)
    requires NoOverflow(segs) && DisjointRanges(segs)
    requires forall i :: 0 <= i < |segs| ==> segs[i].filesize <= segs[i].vmsize
    ensures forall row :: row in ImageRows(data, LocsOf(segs, chained), imageBase, names) ==>
              Translates(data, segs, row)
  {
    LocsComeFromTable(segs, chained);
    RowsTranslate(data, segs, LocsOf(segs, chained), imageBase, names);
  }

  // ----- slots visited once -----

  /** Each row lies above the one before it. */
  ghost predicate Ordered(rows: seq<Entry>) {
    forall i :: 1 <= i < |rows| ==> Off(rows[i - 1]) < Off(rows[i])
  }

  lemma {:induction false} OrderedCat(a: seq<Entry>, b: seq<Entry>)
    ensures Ordered(a + b)
       <==> Ordered(a) && Ordered(b) && (a != [] && b != [] ==> Off(a[|a| - 1]) < Off(b[0]))
  {
    hide Off;
    var all := a + b;
    assert forall i :: 0 <= i < |b| ==> b[i] == all[|a| + i];
    assert forall i :: 0 <= i < |a| ==> a[i] == all[i];
    if Ordered(all) {
      assert a != [] && b != [] ==> Off(all[|a| - 1]) < Off(all[|a|]);
      forall i | 1 <= i < |b|
        ensures Off(b[i - 1]) < Off(b[i])
      {
        assert Off(all[|a| + i - 1]) < Off(all[|a| + i]);
      }
    }
  }

  /** The rows of one page. */
  function ChainAt(data: seq<byte>, loc: SegmentLoc, imageBase: u64, names: Names, page: nat): seq<Entry> {
    var start := PageStart(data, loc, page);
    if start.Some? && HasChain(start.value) then ChainRows(data, loc, imageBase, names, page, start.value) else []
  }

  /** Each non-empty chain ends below where the next non-empty one starts. */
  ghost predicate ChainsApart(data: seq<byte>, loc: SegmentLoc, imageBase: u64, names: Names, page: nat)
    decreases loc.chained.pageCount - page
  {
    page >= loc.chained.pageCount || PageStart(data, loc, page).None? ||
    var chain, later := ChainAt(data, loc, imageBase, names, page), PageRows(data, loc, imageBase, names, page + 1);
    && (chain != [] && later != [] ==> Off(chain[|chain| - 1]) < Off(later[0]))
    && ChainsApart(data, loc, imageBase, names, page + 1)
  }

  lemma {:induction false} PageSplits(data: seq<byte>, loc: SegmentLoc, imageBase: u64, names: Names, page: nat)
    ensures var rows := PageRows(data, loc, imageBase, names, page);
            if page >= loc.chained.pageCount || PageStart(data, loc, page).None? then rows == []
            else
              rows == ChainAt(data, loc, imageBase, names, page) + PageRows(data, loc, imageBase, names, page + 1)
  {
    PageStep(data, loc, imageBase, names, page);
    hide PageRows, ChainRows, HasChain, PageStart;
    assert [] + PageRows(data, loc, imageBase, names, page + 1) == PageRows(data, loc, imageBase, names, page + 1);
  }

  lemma {:induction false} ClimbsAbove(rows: seq<Entry>, first: nat, stride: nat, filesize: nat, i: nat)
    requires Climbs(rows, first, stride, filesize) && i < |rows|
    ensures first <= Off(rows[i])
  {
    hide Off;
    if i > 0 {
      ClimbsAbove(rows, first, stride, filesize, i - 1);
    }
  }

  lemma {:induction false} ClimbsOrdered(rows: seq<Entry>, first: nat, stride: nat, filesize: nat)
    requires Climbs(rows, first, stride, filesize) && stride > 0
    ensures Ordered(rows)
    ensures forall i :: 0 <= i < |rows| ==> first <= Off(rows[i])
  {
    hide Off;
    forall i | 0 <= i < |rows|
      ensures first <= Off(rows[i])
    {
      ClimbsAbove(rows, first, stride, filesize, i);
    }
  }

  /** A page's rows climb from the page's first byte on. */
  lemma {:induction false} ChainOrdered(data: seq<byte>, loc: SegmentLoc, imageBase: u64, names: Names, page: nat)
    ensures Ordered(ChainAt(data, loc, imageBase, names, page))
    ensures forall row :: row in ChainAt(data, loc, imageBase, names, page) ==> page * loc.chained.pageSize <= Off(row)
  {
    var start := PageStart(data, loc, page);
    if start.Some? && HasChain(start.value) {
      var first := page * loc.chained.pageSize + start.value;
      ChainClimbs(data, loc, imageBase, names, page, start.value);
      ClimbsOrdered(ChainRows(data, loc, imageBase, names, page, start.value), first, loc.chained.format.Stride(),
                    loc.filesize);
    }
    hide ChainRows, HasChain, PageStart, Climbs, Off;
  }

  /** On arbitrary bytes the rows of a segment strictly climb, so no slot is visited twice, if and
      only if its chains stay apart. */
  lemma {:induction false} PagesOrderedIff(data: seq<byte>, loc: SegmentLoc, imageBase: u64, names: Names, page: nat)
    ensures Ordered(PageRows(data, loc, imageBase, names, page))
       <==> ChainsApart(data, loc, imageBase, names, page)
    decreases loc.chained.pageCount - page
  {
    PageSplits(data, loc, imageBase, names, page);
    hide PageRows, ChainAt, PageStart, Ordered, Off;
    if page < loc.chained.pageCount && PageStart(data, loc, page).Some? {
      PagesOrderedIff(data, loc, imageBase, names, page + 1);
      ChainOrdered(data, loc, imageBase, names, page);
      OrderedCat(ChainAt(data, loc, imageBase, names, page), PageRows(data, loc, imageBase, names, page + 1));
    } else {
      NoneOrdered();
    }
  }

  lemma {:induction false} NoneOrdered()
    ensures Ordered([])
  {
  }

  /** Every chain keeps to its own page. */
  ghost predicate KeepsToPages(data: seq<byte>, loc: SegmentLoc, imageBase: u64, names: Names) {
    forall page: nat, row :: page < loc.chained.pageCount && row in ChainAt(data, loc, imageBase, names, page) ==>
      Off(row) < (page + 1) * loc.chained.pageSize
  }

  lemma {:induction false} RowsAbove(data: seq<byte>, loc: SegmentLoc, imageBase: u64, names: Names, page: nat)
    ensures forall row :: row in PageRows(data, loc, imageBase, names, page) ==> page * loc.chained.pageSize <= Off(row)
    decreases loc.chained.pageCount - page
  {
    PageSplits(data, loc, imageBase, names, page);
    hide PageRows, ChainAt, PageStart, Off;
    if page < loc.chained.pageCount && PageStart(data, loc, page).Some? {
      RowsAbove(data, loc, imageBase, names, page + 1);
      ChainOrdered(data, loc, imageBase, names, page);
      MulLe(page, page + 1, loc.chained.pageSize);
    }
  }

  /** Chains that keep to their pages stay apart. */
  lemma {:induction false} PagedChainsApart(data: seq<byte>, loc: SegmentLoc, imageBase: u64, names: Names, page: nat)
    requires KeepsToPages(data, loc, imageBase, names)
    ensures ChainsApart(data, loc, imageBase, names, page)
    decreases loc.chained.pageCount - page
  {
    hide PageRows, ChainAt, PageStart, Off;
    if page < loc.chained.pageCount {
      PagedChainsApart(data, loc, imageBase, names, page + 1);
      RowsAbove(data, loc, imageBase, names, page + 1);
      var chain, later := ChainAt(data, loc, imageBase, names, page), PageRows(data, loc, imageBase, names, page + 1);
      if chain != [] && later != [] {
        assert chain[|chain| - 1] in chain && later[0] in later;
      }
    }
  }

  /** Two pages of eight bytes whose chains meet: the slot at offset 8 is visited, and reported,
      twice. */
  lemma {:induction false} SlotVisitedTwice(imageBase: u64)
    ensures var data: seq<byte> := seq(22, _ => 0) + [8, 0, 0, 0];
            var loc := SegmentLoc(ChainedSegment(0, 8, Ptr64, 2, 0), 0, 0, 16);
            var rows := SegmentRows(data, loc, imageBase, NO_NAMES);
            |rows| == 2 && rows[0] == rows[1]
  {
    var data: seq<byte> := seq(22, _ => 0) + [8, 0, 0, 0];
    var loc := SegmentLoc(ChainedSegment(0, 8, Ptr64, 2, 0), 0, 0, 16);
    TwoStarts(data, loc);
    ZeroSlot(data, loc, imageBase, 0, 8);
    ZeroSlot(data, loc, imageBase, 1, 0);
    PageSplits(data, loc, imageBase, NO_NAMES, 0);
    PageSplits(data, loc, imageBase, NO_NAMES, 1);
    PageSplits(data, loc, imageBase, NO_NAMES, 2);
    hide PageRows, ChainRows, PageStart, ReadU16Le;
  }

  lemma {:induction false} TwoStarts(data: seq<byte>, loc: SegmentLoc)
    requires data == seq(22, _ => 0) + [8, 0, 0, 0] && loc.chained.startsOffset == 0
    ensures PageStart(data, loc, 0) == Some(8) && PageStart(data, loc, 1) == Some(0)
  {
    assert data[22..24] == [8, 0] && data[24..26] == [0, 0];
    LeWord(8, 0);
    LeWord(0, 0);
    hide LeNat;
  }

  lemma {:induction false} LeWord(low: byte, high: byte)
    ensures LeNat([low, high]) == low + 256 * high
  {
    assert [low, high][1..] == [high] && [high][1..] == [];
    assert LeNat([high]) == high + 256 * LeNat([high][1..]);
  }

  /** The empty slot at offset 8 is a chain of one rebase. */
  lemma {:induction false} ZeroSlot(data: seq<byte>, loc: SegmentLoc, imageBase: u64, page: nat, chainOff: u64)
    requires |data| >= 16 && forall i :: 8 <= i < 16 ==> data[i] == 0
    requires loc == SegmentLoc(ChainedSegment(0, 8, Ptr64, 2, 0), 0, 0, 16)
    requires page * 8 + chainOff == 8
    ensures ChainRows(data, loc, imageBase, NO_NAMES, page, chainOff)
         == [MakeRebase(0, Ptr64, CtxAt(loc, imageBase, NO_NAMES, 8), 0, None, Some(0))]
  {
    ZeroBytes(data[8..16]);
    assert ReadU64Le(data, 8) == Some(0);
    assert ReadSlot(data, loc, page, chainOff) == Some((8, 0));
    ChainStep(data, loc, imageBase, NO_NAMES, page, chainOff);
    hide ChainRows, ReadSlot, CtxAt, MakeRebase;
    assert 0 / 0x8_0000_0000_0000 % 0x1000 == 0 && 0 / 0x8000_0000_0000_0000 % 2 == 0;
  }

  lemma {:induction false} ZeroBytes(s: seq<byte>)
    requires forall i :: 0 <= i < |s| ==> s[i] == 0
    ensures LeNat(s) == 0
    decreases |s|
  {
    if s != [] {
      ZeroBytes(s[1..]);
    }
  }

  // ----- addresses over a whole image -----

  ghost predicate DistinctOffsets(rows: seq<Entry>) {
    forall i, j :: 0 <= i < j < |rows| ==> Off(rows[i]) != Off(rows[j])
  }

  ghost predicate DistinctAddresses(rows: seq<Entry>) {
    forall i, j :: 0 <= i < j < |rows| ==> Vm(rows[i]) != Vm(rows[j])
  }

  lemma {:induction false} OrderedDistinct(rows: seq<Entry>)
    requires Ordered(rows)
    ensures DistinctOffsets(rows)
  {
    hide Off;
    forall i, j | 0 <= i < j < |rows|
      ensures Off(rows[i]) != Off(rows[j])
    {
      OrderedGap(rows, i, j);
    }
  }

  lemma {:induction false} OrderedGap(rows: seq<Entry>, i: nat, j: nat)
    requires Ordered(rows) && i < j < |rows|
    ensures Off(rows[i]) < Off(rows[j])
    decreases j
  {
    hide Off;
    if i + 1 < j {
      OrderedGap(rows, i, j - 1);
    }
  }

  lemma {:induction false} DistinctCat(a: seq<Entry>, b: seq<Entry>)
    requires forall x, y :: x in a && y in b ==> Vm(x) != Vm(y)
    ensures DistinctAddresses(a + b) <==> DistinctAddresses(a) && DistinctAddresses(b)
  {
    hide Vm;
    var all := a + b;
    assert forall i :: 0 <= i < |b| ==> b[i] == all[|a| + i];
    assert forall i :: 0 <= i < |a| ==> a[i] == all[i];
    if DistinctAddresses(a) && DistinctAddresses(b) {
      forall i, j | 0 <= i < j < |all|
        ensures Vm(all[i]) != Vm(all[j])
      {
        if i < |a| <= j {
          assert all[i] in a && all[j] in b;
        } else if i >= |a| {
          assert all[i] == b[i - |a|] && all[j] == b[j - |a|];
        }
      }
    }
  }

  /** Where a segment's table entry is well formed, its rows' addresses are its offsets, moved. */
  lemma {:induction false} SegmentAddresses(data: seq<byte>, loc: SegmentLoc, imageBase: u64, names: Names,
                                            seg: Segment)
    requires LocOf(loc, seg) && seg.filesize <= seg.vmsize && seg.vmaddr + seg.vmsize < U64
    ensures var rows := SegmentRows(data, loc, imageBase, names);
            && (forall row :: row in rows ==> Vm(row) == seg.vmaddr + Off(row) && seg.Covers(Vm(row)))
            && (DistinctAddresses(rows) <==> DistinctOffsets(rows))
  {
    var rows := SegmentRows(data, loc, imageBase, names);
    forall row | row in rows
      ensures Vm(row) == seg.vmaddr + Off(row) && seg.Covers(Vm(row))
    {
      RowReadFrom(data, loc, imageBase, names, row);
    }
    hide SegmentRows, Off, Vm, Segment.Covers;
    assert forall i :: 0 <= i < |rows| ==> rows[i] in rows;
  }

  /** Contexts of distinct segments of the table. */
  ghost predicate FromTable(segs: seq<Segment>, locs: seq<SegmentLoc>) {
    && (forall i :: 0 <= i < |locs| ==>
          locs[i].chained.segIndex < |segs| && LocOf(locs[i], segs[locs[i].chained.segIndex]))
    && (forall i, j :: 0 <= i < j < |locs| ==> locs[i].chained.segIndex != locs[j].chained.segIndex)
  }

  /** The contexts collected for chained segments of distinct indices. */
  lemma {:induction false} CollectedFromTable(segs: seq<Segment>, chained: seq<ChainedSegment>)
    requires forall i, j :: 0 <= i < j < |chained| ==> chained[i].segIndex != chained[j].segIndex
    ensures FromTable(segs, LocsOf(segs, chained))
    ensures forall loc :: loc in LocsOf(segs, chained) ==> loc.chained in chained
    decreases |chained|
  {
    if chained != [] {
      var init, last := chained[..|chained| - 1], chained[|chained| - 1];
      CollectedFromTable(segs, init);
      assert chained == init + [last];
      assert forall loc :: loc in LocsOf(segs, init) ==> loc.chained.segIndex != last.segIndex;
    }
  }

  lemma {:induction false} RowOfSomeSegment(data: seq<byte>, locs: seq<SegmentLoc>, imageBase: u64, names: Names,
                                            row: Entry) returns (k: nat)
    requires row in ImageRows(data, locs, imageBase, names)
    ensures k < |locs| && row in SegmentRows(data, locs[k], imageBase, names)
    decreases |locs|
  {
    hide SegmentRows;
    var init := locs[..|locs| - 1];
    if row in ImageRows(data, init, imageBase, names) {
      k := RowOfSomeSegment(data, init, imageBase, names, row);
    } else {
      k := |locs| - 1;
    }
  }

  lemma {:induction false} FromTableInit(segs: seq<Segment>, locs: seq<SegmentLoc>)
    requires FromTable(segs, locs) && locs != []
    ensures FromTable(segs, locs[..|locs| - 1])
    ensures locs[|locs| - 1].chained.segIndex < |segs|
    ensures LocOf(locs[|locs| - 1], segs[locs[|locs| - 1].chained.segIndex])
  {
  }

  lemma {:induction false} SegmentWellFormed(segs: seq<Segment>, k: nat)
    requires NoOverflow(segs) && k < |segs|
    ensures segs[k].vmaddr + segs[k].vmsize < U64
  {
  }

  lemma {:induction false} LastSegment(data: seq<byte>, locs: seq<SegmentLoc>, imageBase: u64, names: Names)
    ensures if locs == [] then ImageRows(data, locs, imageBase, names) == []
            else
              ImageRows(data, locs, imageBase, names)
              == ImageRows(data, locs[..|locs| - 1], imageBase, names)
                 + SegmentRows(data, locs[|locs| - 1], imageBase, names)
  {
    hide SegmentRows;
  }

  lemma {:induction false} NoneDistinct()
    ensures DistinctAddresses([])
  {
  }

  /** Over a table with disjoint ranges no two rows of an image share an address, so that a map
      keyed by it loses none, if and only if no segment's walk visits a slot twice. */
  lemma {:induction false} AddressesDistinctIff(data: seq<byte>, segs: seq<Segment>, locs: seq<SegmentLoc>,
                                                imageBase: u64, names: Names)
    requires NoOverflow(segs) && DisjointRanges(segs)
    requires forall i :: 0 <= i < |segs| ==> segs[i].filesize <= segs[i].vmsize
    requires FromTable(segs, locs)
    ensures DistinctAddresses(ImageRows(data, locs, imageBase, names))
       <==> forall k :: 0 <= k < |locs| ==> DistinctOffsets(SegmentRows(data, locs[k], imageBase, names))
    decreases |locs|
  {
    hide *;
    LastSegment(data, locs, imageBase, names);
    if locs == [] {
      NoneDistinct();
    } else {
      var init, last := locs[..|locs| - 1], locs[|locs| - 1];
      FromTableInit(segs, locs);
      AddressesDistinctIff(data, segs, init, imageBase, names);
      var a, b := ImageRows(data, init, imageBase, names), SegmentRows(data, last, imageBase, names);
      SegmentWellFormed(segs, last.chained.segIndex);
      SegmentAddresses(data, last, imageBase, names, segs[last.chained.segIndex]);
      forall x, y | x in a && y in b
        ensures Vm(x) != Vm(y)
      {
        RowsOfSegmentsDiffer(data, segs, locs, imageBase, names, x, y);
      }
      DistinctCat(a, b);
      assert forall k :: 0 <= k < |init| ==> init[k] == locs[k];
    }
  }

  lemma {:induction false} RowsOfSegmentsDiffer(data: seq<byte>, segs: seq<Segment>, locs: seq<SegmentLoc>,
                                                imageBase: u64, names: Names, x: Entry, y: Entry)
    requires NoOverflow(segs) && DisjointRanges(segs)
    requires forall i :: 0 <= i < |segs| ==> segs[i].filesize <= segs[i].vmsize
    requires FromTable(segs, locs) && locs != []
    requires x in ImageRows(data, locs[..|locs| - 1], imageBase, names)
    requires y in SegmentRows(data, locs[|locs| - 1], imageBase, names)
    ensures Vm(x) != Vm(y)
  {
    var k := RowOfSomeSegment(data, locs[..|locs| - 1], imageBase, names, x);
    var i, j := locs[k].chained.segIndex, locs[|locs| - 1].chained.segIndex;
    SegmentAddresses(data, locs[k], imageBase, names, segs[i]);
    SegmentAddresses(data, locs[|locs| - 1], imageBase, names, segs[j]);
    assert i != j && segs[i].Covers(Vm(x)) && segs[j].Covers(Vm(y));
    hide ImageRows, SegmentRows, Vm, Off, Segment.Covers;
  }

  /** So chains that keep to their pages give every slot of the image its own address. */
  lemma {:induction false} PagedAddressesDistinct(data: seq<byte>, segs: seq<Segment>, locs: seq<SegmentLoc>,
                                                  imageBase: u64, names: Names)
    requires NoOverflow(segs) && DisjointRanges(segs)
    requires forall i :: 0 <= i < |segs| ==> segs[i].filesize <= segs[i].vmsize
    requires FromTable(segs, locs)
    requires forall k :: 0 <= k < |locs| ==> KeepsToPages(data, locs[k], imageBase, names)
    ensures DistinctAddresses(ImageRows(data, locs, imageBase, names))
  {
    forall k | 0 <= k < |locs|
      ensures DistinctOffsets(SegmentRows(data, locs[k], imageBase, names))
    {
      SegmentDistinct(data, locs[k], imageBase, names);
    }
    hide *;
    AddressesDistinctIff(data, segs, locs, imageBase, names);
  }

  lemma {:induction false} SegmentDistinct(data: seq<byte>, loc: SegmentLoc, imageBase: u64, names: Names)
    requires KeepsToPages(data, loc, imageBase, names)
    ensures DistinctOffsets(SegmentRows(data, loc, imageBase, names))
  {
    PagedChainsApart(data, loc, imageBase, names, 0);
    PagesOrderedIff(data, loc, imageBase, names, 0);
    NoneOrdered();
    hide PageRows, KeepsToPages, ChainsApart, Ordered, DistinctOffsets;
    OrderedDistinct(SegmentRows(data, loc, imageBase, names));
  }
}
