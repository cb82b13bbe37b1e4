/** The chained-fixup walker (src/fixup.rs): page starts, chains threaded through slots, and the
    rebase and bind rows they yield. */
module ChainWalk {
  import opened Bytes
  import opened ChainSlot
  import opened SegmentMap

  const START_NONE: u16 := 0xFFFF
  const STARTS_HEADER: u64 := 22

  /** The fields of dyld_chained_starts_in_segment that the walk uses. */
  datatype ChainedSegment = ChainedSegment(segIndex: u32, pageSize: u16, format: PointerFormat,
                                           pageCount: u16, startsOffset: u64)

  /** Chain metadata joined with the segment-table entry it belongs to. */
  datatype SegmentLoc = SegmentLoc(chained: ChainedSegment, vmaddr: u64, fileoff: u64, filesize: u64)

  // ----- the rows of a walk -----

  /** Segment offset and bits of the slot `chainOff` bytes into a page, when it is on disk. */
  function ReadSlot(data: seq<byte>, loc: SegmentLoc, page: nat, chainOff: u64): (r: Option<(u64, u64)>)
    ensures r.Some? ==> chainOff <= r.value.0 < loc.filesize
  {
    var pageOff :- CheckedMul(page, loc.chained.pageSize);
    var off :- CheckedAdd(pageOff, chainOff);
    if off >= loc.filesize then None
    else
      var fileOff :- CheckedAdd(loc.fileoff, off);
      var slot :- ReadU64Le(data, fileOff);
      Some((off, slot))
  }

  function CtxAt(loc: SegmentLoc, imageBase: u64, names: Names, off: u64): SlotCtx {
    SlotCtx(imageBase, loc.chained.segIndex, off, SatAdd(loc.vmaddr, off), names)
  }

  function Advance(format: PointerFormat, chainOff: u64, next: nat): u64 {
    SatAdd(chainOff, SatMul(next, format.Stride()))
  }

  /** The rows of the chain that continues at `chainOff` of a page. */
  function ChainRows(data: seq<byte>, loc: SegmentLoc, imageBase: u64, names: Names,
                     page: nat, chainOff: u64): seq<Entry>
    decreases if chainOff < loc.filesize then loc.filesize - chainOff else 0
  {
    var read := ReadSlot(data, loc, page, chainOff);
    if read.None? then []
    else
      var (off, slot) := read.value;
      var decoded := DecodeChainEntry(slot, loc.chained.format, CtxAt(loc, imageBase, names, off));
      if decoded.None? then []
      else
        var (entry, next) := decoded.value;
        [entry] + if next == 0 then []
                  else ChainRows(data, loc, imageBase, names, page, Advance(loc.chained.format, chainOff, next))
  }

  function PageStart(data: seq<byte>, loc: SegmentLoc, page: nat): Option<u16> {
    var entryOff :- CheckedAdd(SatAdd(loc.chained.startsOffset, STARTS_HEADER), 2 * page);
    ReadU16Le(data, entryOff)
  }

  predicate HasChain(start: u16) {
    start != START_NONE && start / 0x8000 % 2 == 0
  }

  /** The rows of the pages from `page` on; an unreadable page start ends the segment. */
  function PageRows(data: seq<byte>, loc: SegmentLoc, imageBase: u64, names: Names, page: nat): seq<Entry>
    decreases loc.chained.pageCount - page
  {
    if page >= loc.chained.pageCount then []
    else
      var start := PageStart(data, loc, page);
      if start.None? then []
      else
        (if HasChain(start.value) then ChainRows(data, loc, imageBase, names, page, start.value) else [])
        + PageRows(data, loc, imageBase, names, page + 1)
  }

  function SegmentRows(data: seq<byte>, loc: SegmentLoc, imageBase: u64, names: Names): seq<Entry> {
    if loc.chained.format.IsSupported() then PageRows(data, loc, imageBase, names, 0) else []
  }

  function ImageRows(data: seq<byte>, locs: seq<SegmentLoc>, imageBase: u64, names: Names): seq<Entry> {
    if locs == [] then []
    else ImageRows(data, locs[..|locs| - 1], imageBase, names) + SegmentRows(data, locs[|locs| - 1], imageBase, names)
  }

  function Rebases(rows: seq<Entry>): seq<Rebase> {
    if rows == [] then []
    else (if rows[0].RebaseEntry? then [rows[0].rebase] else []) + Rebases(rows[1..])
  }

  function Binds(rows: seq<Entry>): seq<Bind> {
    if rows == [] then []
    else (if rows[0].BindEntry? then [rows[0].bind] else []) + Binds(rows[1..])
  }

  lemma {:induction false} SplitRebases(a: seq<Entry>, b: seq<Entry>)
    ensures Rebases(a + b) == Rebases(a) + Rebases(b)
  {
    if a == [] {
      assert a + b == b;
    } else {
      SplitRebases(a[1..], b);
      assert (a + b)[1..] == a[1..] + b;
      Assoc(if a[0].RebaseEntry? then [a[0].rebase] else [], Rebases(a[1..]), Rebases(b));
    }
  }

  lemma {:induction false} SplitBinds(a: seq<Entry>, b: seq<Entry>)
    ensures Binds(a + b) == Binds(a) + Binds(b)
  {
    if a == [] {
      assert a + b == b;
    } else {
      SplitBinds(a[1..], b);
      assert (a + b)[1..] == a[1..] + b;
      Assoc(if a[0].BindEntry? then [a[0].bind] else [], Binds(a[1..]), Binds(b));
    }
  }

  lemma {:induction false} PushRow(done: seq<Entry>, row: Entry)
    ensures Rebases(done + [row]) == if row.RebaseEntry? then Rebases(done) + [row.rebase] else Rebases(done)
    ensures Binds(done + [row]) == if row.BindEntry? then Binds(done) + [row.bind] else Binds(done)
  {
    SplitRebases(done, [row]);
    SplitBinds(done, [row]);
    assert [row][1..] == [];
  }

  // ----- the walker -----

  /** A vector of rows the walk appends to. */
  class RowList<T> {
    var rows: seq<T>

    constructor ()
      ensures rows == []
    {
      rows := [];
    }

    method Push(row: T)
      modifies this
      ensures rows == old(rows) + [row]
    {
      rows := rows + [row];
    }
  }

  /** A chain never stands still, even where its offset saturates. */
  lemma {:induction false} AdvanceIncreases(format: PointerFormat, chainOff: u64, next: nat)
    requires next > 0 && chainOff < U64 - 1
    ensures Advance(format, chainOff, next) > chainOff
    ensures Advance(format, chainOff, next) < U64 - 1 ==>
              Advance(format, chainOff, next) == chainOff + next * format.Stride() >= chainOff + format.Stride()
  {
  }

  lemma {:induction false} ChainStep(data: seq<byte>, loc: SegmentLoc, imageBase: u64, names: Names, page: nat,
                                     chainOff: u64)
    ensures var chain := ChainRows(data, loc, imageBase, names, page, chainOff);
            var read := ReadSlot(data, loc, page, chainOff);
            if read.None? then chain == []
            else
              var ctx := CtxAt(loc, imageBase, names, read.value.0);
              var decoded := DecodeChainEntry(read.value.1, loc.chained.format, ctx);
              if decoded.None? then chain == []
              else
                var next := Advance(loc.chained.format, chainOff, decoded.value.1);
                chain == [decoded.value.0] + if decoded.value.1 == 0 then []
                                             else ChainRows(data, loc, imageBase, names, page, next)
  {
  }

  lemma {:induction false} PageStep(data: seq<byte>, loc: SegmentLoc, imageBase: u64, names: Names, page: nat)
    ensures var rows := PageRows(data, loc, imageBase, names, page);
            if page >= loc.chained.pageCount then rows == []
            else
              match PageStart(data, loc, page)
              case None => rows == []
              case Some(start) =>
                var rest := PageRows(data, loc, imageBase, names, page + 1);
                if HasChain(start) then rows == ChainRows(data, loc, imageBase, names, page, start) + rest
                else rows == rest
  {
  }

  /** The loop over one page's chain. */
  method WalkChain(data: seq<byte>, loc: SegmentLoc, imageBase: u64, names: Names, page: nat, start: u64,
                   rebasesOut: RowList<Rebase>, bindsOut: RowList<Bind>)
    modifies rebasesOut, bindsOut
    ensures rebasesOut.rows == old(rebasesOut.rows) + Rebases(ChainRows(data, loc, imageBase, names, page, start))
    ensures bindsOut.rows == old(bindsOut.rows) + Binds(ChainRows(data, loc, imageBase, names, page, start))
  {
    ghost var done: seq<Entry> := [];
    assert Rebases(done) == [] && Binds(done) == [];
    ghost var chain, r0, b0 := ChainRows(data, loc, imageBase, names, page, start), rebasesOut.rows, bindsOut.rows;
    hide *;
    var chainOff: u64 := start;
    while true
      invariant chain == done + ChainRows(data, loc, imageBase, names, page, chainOff)
      invariant rebasesOut.rows == r0 + Rebases(done)
      invariant bindsOut.rows == b0 + Binds(done)
      decreases if chainOff < loc.filesize then loc.filesize - chainOff else 0
    {
      ChainStep(data, loc, imageBase, names, page, chainOff);
      var read := ReadSlot(data, loc, page, chainOff);
      if read.None? {
        assert chain == done;
        break;
      }
      var (off, slot) := read.value;
      var decoded := DecodeChainEntry(slot, loc.chained.format, CtxAt(loc, imageBase, names, off));
      if decoded.None? {
        assert chain == done;
        break;
      }
      var (entry, next) := decoded.value;
      PushRow(done, entry);
      match entry {
        case RebaseEntry(r) =>
          Assoc(r0, Rebases(done), [r]);
          rebasesOut.Push(r);
        case BindEntry(b) =>
          Assoc(b0, Binds(done), [b]);
          bindsOut.Push(b);
      }
      if next == 0 {
        done := done + [entry];
        break;
      }
      AdvanceIncreases(loc.chained.format, chainOff, next);
      chainOff := Advance(loc.chained.format, chainOff, next);
      Assoc(done, [entry], ChainRows(data, loc, imageBase, names, page, chainOff));
      done := done + [entry];
    }
    assert chain == done;
  }

  method DecodeSegmentChains(data: seq<byte>, loc: SegmentLoc, imageBase: u64,
                             rebasesOut: RowList<Rebase>, bindsOut: RowList<Bind>, names: Names)
    modifies rebasesOut, bindsOut
    ensures rebasesOut.rows == old(rebasesOut.rows) + Rebases(SegmentRows(data, loc, imageBase, names))
    ensures bindsOut.rows == old(bindsOut.rows) + Binds(SegmentRows(data, loc, imageBase, names))
  {
    if !loc.chained.format.IsSupported() {
      return;
    }
    ghost var all := SegmentRows(data, loc, imageBase, names);
    ghost var done: seq<Entry> := [];
    assert Rebases(done) == [] && Binds(done) == [];
    ghost var r0, b0 := rebasesOut.rows, bindsOut.rows;
    hide *;
    for page := 0 to loc.chained.pageCount
      invariant all == done + PageRows(data, loc, imageBase, names, page)
      invariant rebasesOut.rows == r0 + Rebases(done)
      invariant bindsOut.rows == b0 + Binds(done)
    {
      PageStep(data, loc, imageBase, names, page);
      var rawStart := PageStart(data, loc, page);
      if rawStart.None? {
        assert all == done;
        return;
      }
      if !HasChain(rawStart.value) {
        continue;
      }
      ghost var chain := ChainRows(data, loc, imageBase, names, page, rawStart.value);
      SplitRebases(done, chain);
      SplitBinds(done, chain);
      Assoc(r0, Rebases(done), Rebases(chain));
      Assoc(b0, Binds(done), Binds(chain));
      Assoc(done, chain, PageRows(data, loc, imageBase, names, page + 1));
      WalkChain(data, loc, imageBase, names, page, rawStart.value, rebasesOut, bindsOut);
      done := done + chain;
    }
    PageStep(data, loc, imageBase, names, loc.chained.pageCount);
    assert all == done;
  }

  method BuildRebaseIter(data: seq<byte>, locs: seq<SegmentLoc>, imageBase: u64) returns (rows: seq<Rebase>)
    ensures rows == Rebases(ImageRows(data, locs, imageBase, NO_NAMES))
  {
    var out := new RowList<Rebase>();
    for i := 0 to |locs|
      invariant out.rows == Rebases(ImageRows(data, locs[..i], imageBase, NO_NAMES))
    {
      var unused := new RowList<Bind>();
      DecodeSegmentChains(data, locs[i], imageBase, out, unused, NO_NAMES);
      NextSegment(data, locs, imageBase, NO_NAMES, i);
    }
    assert locs[..|locs|] == locs;
    return out.rows;
  }

  method BuildBindIter(data: seq<byte>, locs: seq<SegmentLoc>, imageBase: u64, names: Names)
    returns (rows: seq<Bind>)
    ensures rows == Binds(ImageRows(data, locs, imageBase, names))
  {
    var binds := new RowList<Bind>();
    var throwaway := new RowList<Rebase>();
    for i := 0 to |locs|
      invariant binds.rows == Binds(ImageRows(data, locs[..i], imageBase, names))
    {
      DecodeSegmentChains(data, locs[i], imageBase, throwaway, binds, names);
      NextSegment(data, locs, imageBase, names, i);
    }
    assert locs[..|locs|] == locs;
    return binds.rows;
  }

  lemma {:induction false} NextSegment(data: seq<byte>, locs: seq<SegmentLoc>, imageBase: u64, names: Names, i: nat)
    requires i < |locs|
    ensures var before := ImageRows(data, locs[..i], imageBase, names);
            var rows := SegmentRows(data, locs[i], imageBase, names);
            var after := ImageRows(data, locs[..i + 1], imageBase, names);
            Rebases(after) == Rebases(before) + Rebases(rows) && Binds(after) == Binds(before) + Binds(rows)
  {
    assert locs[..i + 1][..i] == locs[..i];
    hide Rebases, Binds;
    SplitRebases(ImageRows(data, locs[..i], imageBase, names), SegmentRows(data, locs[i], imageBase, names));
    SplitBinds(ImageRows(data, locs[..i], imageBase, names), SegmentRows(data, locs[i], imageBase, names));
  }
}
