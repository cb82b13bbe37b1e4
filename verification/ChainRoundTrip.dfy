/** Writing chains into a buffer and walking it gives back exactly the rows written. */
module ChainRoundTrip {
  import opened Bytes
  import opened ChainSlot
  import opened ChainWalk

  // ----- writing a buffer -----

  datatype Write = Write(off: nat, bytes: seq<byte>) {
    function End(): nat {
      off + |bytes|
    }
  }

  function Apply(data: seq<byte>, writes: seq<Write>): (r: seq<byte>)
    requires InBounds(data, writes)
    ensures |r| == |data|
    decreases |writes|
  {
    if writes == [] then data
    else
      var w := writes[0];
      Apply(data[..w.off] + w.bytes + data[w.End()..], writes[1..])
  }

  predicate InBounds(data: seq<byte>, writes: seq<Write>) {
    forall i :: 0 <= i < |writes| ==> writes[i].End() <= |data|
  }

  predicate Disjoint(writes: seq<Write>) {
    forall i, j :: 0 <= i < j < |writes| ==> writes[i].End() <= writes[j].off || writes[j].End() <= writes[i].off
  }

  predicate Written(data: seq<byte>, w: Write) {
    w.End() <= |data| && data[w.off..w.End()] == w.bytes
  }

  predicate AllWritten(data: seq<byte>, writes: seq<Write>) {
    forall i :: 0 <= i < |writes| ==> Written(data, writes[i])
  }

  /** Bytes that no write touches stay. */
  lemma {:induction false} ApplyKeeps(data: seq<byte>, writes: seq<Write>, lo: nat, hi: nat)
    requires InBounds(data, writes) && lo <= hi <= |data|
    requires forall i :: 0 <= i < |writes| ==> writes[i].End() <= lo || hi <= writes[i].off
    ensures Apply(data, writes)[lo..hi] == data[lo..hi]
    decreases |writes|
  {
    if writes != [] {
      var w := writes[0];
      var next := data[..w.off] + w.bytes + data[w.End()..];
      assert w.End() <= lo || hi <= w.off;
      assert next[lo..hi] == data[lo..hi];
      ApplyKeeps(next, writes[1..], lo, hi);
    }
  }

  lemma {:induction false} ApplyWrites(data: seq<byte>, writes: seq<Write>)
    requires InBounds(data, writes) && Disjoint(writes)
    ensures AllWritten(Apply(data, writes), writes)
    decreases |writes|
  {
    if writes != [] {
      var w := writes[0];
      var next := data[..w.off] + w.bytes + data[w.End()..];
      ApplyWrites(next, writes[1..]);
      assert next[w.off..w.End()] == w.bytes;
      ApplyKeeps(next, writes[1..], w.off, w.End());
      assert forall i :: 1 <= i < |writes| ==> writes[i] == writes[1..][i - 1];
    }
  }

  // ----- what to write -----

  /** A slot and the distance to the next one in strides, 0 for the last. */
  datatype Link = Link(payload: Payload, next: nat)

  /** A page without a chain keeps any word from 0x8000 on: none at all, or several starts. */
  datatype PagePlan = Skipped(word: u16) | Chain(start: nat, links: seq<Link>)

  /** Bytes per unit of `next`. */
  function Unit(format: PointerFormat): nat {
    match format
    case Ptr64 | Ptr64Offset | Arm64eKernel => 4
    case _ => 8
  }

  /** Where the slot at a segment offset is, as its row says. */
  function SiteOf(loc: SegmentLoc, imageBase: u64, names: Names, off: u64): SlotCtx {
    SlotCtx(imageBase := imageBase, segIndex := loc.chained.segIndex, segmentOffset := off,
            vmAddress := Clamped(loc.vmaddr + off), names := names)
  }

  predicate AllFit(format: PointerFormat, links: seq<Link>) {
    forall i :: 0 <= i < |links| ==> Fits(format, links[i].payload, links[i].next)
  }

  /** In-width fields, and `next` zero exactly in the last slot. */
  predicate ValidLinks(format: PointerFormat, links: seq<Link>) {
    && links != []
    && forall i :: 0 <= i < |links| ==>
         && Fits(format, links[i].payload, links[i].next)
         && (links[i].next == 0 <==> i == |links| - 1)
  }

  /** Every slot starts inside the segment's file extent, below 2^64. */
  predicate OnDisk(loc: SegmentLoc, off: nat, links: seq<Link>)
    decreases |links|
  {
    links != [] ==>
      && off < loc.filesize && loc.fileoff + off < U64
      && OnDisk(loc, off + links[0].next * Unit(loc.chained.format), links[1..])
  }

  function LinkWrites(loc: SegmentLoc, off: nat, links: seq<Link>): seq<Write>
    requires AllFit(loc.chained.format, links)
    decreases |links|
  {
    if links == [] then []
    else
      var link := links[0];
      SlotInRange(loc.chained.format, link);
      [Write(loc.fileoff + off, LeBytes(Pack(loc.chained.format, link.payload, link.next), 8))]
      + LinkWrites(loc, off + link.next * Unit(loc.chained.format), links[1..])
  }

  lemma {:induction false} SlotInRange(format: PointerFormat, link: Link)
    requires Fits(format, link.payload, link.next)
    ensures 0 <= Pack(format, link.payload, link.next) < U64
  {
    SlotRoundTrip(link.payload, format, SlotCtx(0, 0, 0, 0, NO_NAMES), link.next);
  }

  /** Segment offset of a page. */
  function PageBase(loc: SegmentLoc, page: nat): nat {
    page * loc.chained.pageSize
  }

  lemma {:induction false} PageBaseSteps(loc: SegmentLoc, page: nat, count: nat)
    requires page < count
    ensures PageBase(loc, page) + loc.chained.pageSize == PageBase(loc, page + 1) <= PageBase(loc, count)
  {
    MulLe(page + 1, count, loc.chained.pageSize);
  }

  predicate ValidPage(loc: SegmentLoc, page: nat, plan: PagePlan) {
    if plan.Skipped? then plan.word >= 0x8000
    else
      && plan.start < 0x8000
      && ValidLinks(loc.chained.format, plan.links)
      && OnDisk(loc, PageBase(loc, page) + plan.start, plan.links)
  }

  function PageWrites(loc: SegmentLoc, page: nat, plan: PagePlan): seq<Write>
    requires ValidPage(loc, page, plan)
  {
    var startWord := if plan.Skipped? then plan.word else plan.start;
    [Write(loc.chained.startsOffset + 22 + 2 * page, LeBytes(startWord, 2))]
    + if plan.Skipped? then []
      else LinkWrites(loc, PageBase(loc, page) + plan.start, plan.links)
  }

  predicate ValidPlans(loc: SegmentLoc, plans: seq<PagePlan>) {
    && |plans| == loc.chained.pageCount
    && loc.chained.startsOffset + 22 + 2 * |plans| < U64
    && forall p :: 0 <= p < |plans| ==> ValidPage(loc, p, plans[p])
  }

  function PlanWrites(loc: SegmentLoc, plans: seq<PagePlan>, page: nat): seq<Write>
    requires ValidPlans(loc, plans) && page <= |plans|
    decreases |plans| - page
  {
    if page == |plans| then [] else PageWrites(loc, page, plans[page]) + PlanWrites(loc, plans, page + 1)
  }

  // ----- what to read back -----

  function LinkRows(loc: SegmentLoc, imageBase: u64, names: Names, off: nat, links: seq<Link>): seq<Entry>
    requires AllFit(loc.chained.format, links)
    requires OnDisk(loc, off, links)
    decreases |links|
  {
    if links == [] then []
    else
      var link := links[0];
      SlotInRange(loc.chained.format, link);
      [RowOf(link.payload, loc.chained.format, SiteOf(loc, imageBase, names, off),
             Pack(loc.chained.format, link.payload, link.next))]
      + LinkRows(loc, imageBase, names, off + link.next * Unit(loc.chained.format), links[1..])
  }

  function PlanRows(loc: SegmentLoc, imageBase: u64, names: Names, plans: seq<PagePlan>, page: nat): seq<Entry>
    requires ValidPlans(loc, plans) && page <= |plans|
    decreases |plans| - page
  {
    if page == |plans| then []
    else
      (match plans[page]
       case Skipped(_) => []
       case Chain(start, links) => LinkRows(loc, imageBase, names, PageBase(loc, page) + start, links))
      + PlanRows(loc, imageBase, names, plans, page + 1)
  }

  // ----- the round trip -----

  lemma {:induction false} ReadWritten16(data: seq<byte>, off: nat, v: u16)
    requires Written(data, Write(off, LeBytes(v, 2)))
    ensures ReadU16Le(data, off) == Some(v)
  {
    Pow2Is(16);
    LeRoundTrip(v, 2);
  }

  lemma {:induction false} ReadWritten64(data: seq<byte>, off: nat, v: u64)
    requires Written(data, Write(off, LeBytes(v, 8)))
    ensures ReadU64Le(data, off) == Some(v)
  {
    Pow2Is(64);
    LeRoundTrip(v, 8);
  }

  lemma {:induction false} AllWrittenSplit(data: seq<byte>, a: seq<Write>, b: seq<Write>)
    requires AllWritten(data, a + b)
    ensures AllWritten(data, a) && AllWritten(data, b)
  {
    hide Written;
    assert forall i :: 0 <= i < |a| ==> a[i] == (a + b)[i];
    assert forall i :: 0 <= i < |b| ==> b[i] == (a + b)[|a| + i];
  }

  lemma {:induction false} ValidTail(format: PointerFormat, links: seq<Link>)
    requires ValidLinks(format, links) && links[0].next != 0
    ensures ValidLinks(format, links[1..])
  {
    hide Fits;
    assert forall i :: 0 <= i < |links[1..]| ==> links[1..][i] == links[i + 1];
  }

  /** The first slot of a written chain reads back as its link. */
  lemma {:induction false} SlotReadsBack(data: seq<byte>, loc: SegmentLoc, imageBase: u64, names: Names, page: nat,
                                         chainOff: nat, link: Link)
    requires Fits(loc.chained.format, link.payload, link.next)
    requires var off := PageBase(loc, page) + chainOff; off < loc.filesize && loc.fileoff + off < U64
    requires Written(data, Write(loc.fileoff + PageBase(loc, page) + chainOff,
                                 LeBytes(Pack(loc.chained.format, link.payload, link.next), 8)))
    ensures 0 <= Pack(loc.chained.format, link.payload, link.next) < U64 && chainOff < U64
    ensures var off, slot := PageBase(loc, page) + chainOff, Pack(loc.chained.format, link.payload, link.next);
            && ReadSlot(data, loc, page, chainOff) == Some((off, slot))
            && DecodeChainEntry(slot, loc.chained.format, SiteOf(loc, imageBase, names, off))
            == Some((RowOf(link.payload, loc.chained.format, SiteOf(loc, imageBase, names, off), slot), link.next))
  {
    hide DecodeChainEntry, Pack, RowOf, LeBytes, ReadU64Le;
    var off := PageBase(loc, page) + chainOff;
    SlotInRange(loc.chained.format, link);
    ReadWritten64(data, loc.fileoff + off, Pack(loc.chained.format, link.payload, link.next));
    SlotRoundTrip(link.payload, loc.chained.format, SiteOf(loc, imageBase, names, off), link.next);
  }

  lemma {:induction false} SameSite(loc: SegmentLoc, imageBase: u64, names: Names, off: u64)
    ensures CtxAt(loc, imageBase, names, off) == SiteOf(loc, imageBase, names, off)
  {
  }

  lemma {:induction false} ChainReadsBack(data: seq<byte>, loc: SegmentLoc, imageBase: u64, names: Names, page: nat,
                                          chainOff: nat, links: seq<Link>)
    requires ValidLinks(loc.chained.format, links)
    requires OnDisk(loc, PageBase(loc, page) + chainOff, links)
    requires AllWritten(data, LinkWrites(loc, PageBase(loc, page) + chainOff, links))
    ensures chainOff < U64
    ensures ChainRows(data, loc, imageBase, names, page, chainOff)
         == LinkRows(loc, imageBase, names, PageBase(loc, page) + chainOff, links)
    decreases |links|
  {
    hide DecodeChainEntry, Pack, RowOf, LeBytes, ReadSlot, ChainRows, Fits, SiteOf, CtxAt, Written, PageBase;
    var off := PageBase(loc, page) + chainOff;
    var link := links[0];
    var writes := LinkWrites(loc, off, links);
    assert Written(data, writes[0]);
    SlotReadsBack(data, loc, imageBase, names, page, chainOff, link);
    SameSite(loc, imageBase, names, off);
    ChainStep(data, loc, imageBase, names, page, chainOff);
    if link.next != 0 {
      var step := link.next * Unit(loc.chained.format);
      AllWrittenSplit(data, [writes[0]], LinkWrites(loc, off + step, links[1..]));
      ValidTail(loc.chained.format, links);
      ChainReadsBack(data, loc, imageBase, names, page, chainOff + step, links[1..]);
      assert Advance(loc.chained.format, chainOff, link.next) == chainOff + step;
    } else {
      assert links[1..] == [];
    }
  }

  /** One page start, and the chain behind it. */
  lemma {:induction false} PageReadsBack(data: seq<byte>, loc: SegmentLoc, imageBase: u64, names: Names, page: nat,
                                         plan: PagePlan)
    requires ValidPage(loc, page, plan) && AllWritten(data, PageWrites(loc, page, plan))
    requires loc.chained.startsOffset + 22 + 2 * page < U64
    ensures var start := PageStart(data, loc, page);
            && start.Some?
            && (plan.Skipped? ==> !HasChain(start.value))
            && (plan.Chain? ==>
                  && HasChain(start.value)
                  && ChainRows(data, loc, imageBase, names, page, start.value)
                  == LinkRows(loc, imageBase, names, PageBase(loc, page) + plan.start, plan.links))
  {
    hide ChainRows, LinkRows, LinkWrites, LeBytes, ReadU16Le, Written, Fits, PageBase;
    var writes := PageWrites(loc, page, plan);
    var startWord: u16 := if plan.Skipped? then plan.word else plan.start;
    assert Written(data, writes[0]);
    ReadWritten16(data, loc.chained.startsOffset + 22 + 2 * page, startWord);
    assert PageStart(data, loc, page) == Some(startWord);
    if plan.Chain? {
      AllWrittenSplit(data, [writes[0]], LinkWrites(loc, PageBase(loc, page) + plan.start, plan.links));
      ChainReadsBack(data, loc, imageBase, names, page, plan.start, plan.links);
    }
  }

  lemma {:induction false} PagesReadBack(data: seq<byte>, loc: SegmentLoc, imageBase: u64, names: Names,
                                         plans: seq<PagePlan>, page: nat)
    requires ValidPlans(loc, plans) && page <= |plans|
    requires AllWritten(data, PlanWrites(loc, plans, page))
    ensures PageRows(data, loc, imageBase, names, page) == PlanRows(loc, imageBase, names, plans, page)
    decreases |plans| - page
  {
    PageStep(data, loc, imageBase, names, page);
    hide PageRows, ChainRows, LinkRows, ValidPage, PageWrites, HasChain, PageStart, AllWritten;
    if page < |plans| {
      AllWrittenSplit(data, PageWrites(loc, page, plans[page]), PlanWrites(loc, plans, page + 1));
      PageReadsBack(data, loc, imageBase, names, page, plans[page]);
      PagesReadBack(data, loc, imageBase, names, plans, page + 1);
    }
  }

  /** For every supported format and every plan of chains whose writes stay apart and inside the
      buffer: the walker over the written buffer yields exactly the planned rows, in order. */
  lemma {:induction false} ChainsRoundTrip(buffer: seq<byte>, loc: SegmentLoc, imageBase: u64, names: Names,
                                           plans: seq<PagePlan>)
    requires !loc.chained.format.Other? && ValidPlans(loc, plans)
    requires InBounds(buffer, PlanWrites(loc, plans, 0)) && Disjoint(PlanWrites(loc, plans, 0))
    ensures SegmentRows(Apply(buffer, PlanWrites(loc, plans, 0)), loc, imageBase, names)
         == PlanRows(loc, imageBase, names, plans, 0)
  {
    ApplyWrites(buffer, PlanWrites(loc, plans, 0));
    PagesReadBack(Apply(buffer, PlanWrites(loc, plans, 0)), loc, imageBase, names, plans, 0);
  }

  // ----- plans whose writes stay apart -----

  /** Consecutive slots at least 8 bytes apart, the last one ending inside the page. */
  predicate Spaced(loc: SegmentLoc, chainOff: nat, links: seq<Link>)
    decreases |links|
  {
    links != [] ==>
      var step := links[0].next * Unit(loc.chained.format);
      && chainOff + 8 <= loc.chained.pageSize
      && (|links| > 1 ==> step >= 8)
      && Spaced(loc, chainOff + step, links[1..])
  }

  /** Every chain is spaced, and the page-start table lies outside the pages. */
  predicate SpacedPlans(loc: SegmentLoc, plans: seq<PagePlan>) {
    && (forall p :: 0 <= p < |plans| && plans[p].Chain? ==> Spaced(loc, plans[p].start, plans[p].links))
    && var table := loc.chained.startsOffset + 22;
       (table + 2 * |plans| <= loc.fileoff || loc.fileoff + PageBase(loc, |plans|) <= table)
  }

  predicate Within(writes: seq<Write>, lo: nat, hi: nat) {
    forall i :: 0 <= i < |writes| ==> lo <= writes[i].off && writes[i].End() <= hi
  }

  lemma {:induction false} LinksApart(loc: SegmentLoc, base: nat, chainOff: nat, links: seq<Link>)
    requires ValidLinks(loc.chained.format, links) && Spaced(loc, chainOff, links)
    ensures Disjoint(LinkWrites(loc, base + chainOff, links))
    ensures Within(LinkWrites(loc, base + chainOff, links), loc.fileoff + base + chainOff,
                   loc.fileoff + base + loc.chained.pageSize)
    decreases |links|
  {
    hide Pack, LeBytes, Fits;
    if |links| > 1 {
      ValidTail(loc.chained.format, links);
      LinksApart(loc, base, chainOff + links[0].next * Unit(loc.chained.format), links[1..]);
    }
  }

  /** Table writes of the pages from `page` on, or slot writes inside those pages. */
  predicate Placed(loc: SegmentLoc, count: nat, page: nat, w: Write) {
    var table := loc.chained.startsOffset + 22;
    || (table + 2 * page <= w.off && w.End() <= table + 2 * count)
    || (loc.fileoff + PageBase(loc, page) <= w.off && w.End() <= loc.fileoff + PageBase(loc, count))
  }

  lemma {:induction false} PlansApart(loc: SegmentLoc, plans: seq<PagePlan>, page: nat)
    requires ValidPlans(loc, plans) && SpacedPlans(loc, plans) && page <= |plans|
    ensures Disjoint(PlanWrites(loc, plans, page))
    ensures forall w :: w in PlanWrites(loc, plans, page) ==> Placed(loc, |plans|, page, w)
    decreases |plans| - page
  {
    hide LinkWrites, PageWrites, LeBytes, ValidPage, Spaced, PageBase;
    if page < |plans| {
      PlansApart(loc, plans, page + 1);
      var here, rest := PageWrites(loc, page, plans[page]), PlanWrites(loc, plans, page + 1);
      PageApart(loc, plans, page);
      PageBaseSteps(loc, page, |plans|);
      forall i, j | 0 <= i < |here| && 0 <= j < |rest|
        ensures here[i].End() <= rest[j].off || rest[j].End() <= here[i].off
      {
        assert here[i] in here && rest[j] in rest;
        assert PlacedIn(loc, page, here[i]) && Placed(loc, |plans|, page + 1, rest[j]);
      }
    }
  }

  /** The page-start write of a page, or a slot write inside it. */
  predicate PlacedIn(loc: SegmentLoc, page: nat, w: Write) {
    var table := loc.chained.startsOffset + 22 + 2 * page;
    || (w.off == table && w.End() == table + 2)
    || (loc.fileoff + PageBase(loc, page) <= w.off
        && w.End() <= loc.fileoff + PageBase(loc, page) + loc.chained.pageSize)
  }

  /** A page's table entry, before slot writes inside the page. */
  lemma {:induction false} EntryAndSlots(loc: SegmentLoc, page: nat, start: nat, entry: Write, slots: seq<Write>)
    requires PlacedIn(loc, page, entry)
    requires var lo, hi := loc.fileoff + PageBase(loc, page), loc.fileoff + PageBase(loc, page) + loc.chained.pageSize;
             && (entry.End() <= lo || hi <= entry.off)
             && Disjoint(slots) && Within(slots, lo + start, hi)
    ensures Disjoint([entry] + slots)
    ensures forall w :: w in [entry] + slots ==> PlacedIn(loc, page, w)
  {
    hide PageBase;
    var all := [entry] + slots;
    assert forall i :: 1 <= i < |all| ==> all[i] == slots[i - 1];
  }

  lemma {:induction false} EntryOutside(loc: SegmentLoc, plans: seq<PagePlan>, page: nat)
    requires ValidPlans(loc, plans) && SpacedPlans(loc, plans) && page < |plans|
    ensures var table, lo := loc.chained.startsOffset + 22 + 2 * page, loc.fileoff + PageBase(loc, page);
            table + 2 <= lo || lo + loc.chained.pageSize <= table
  {
    PageBaseSteps(loc, page, |plans|);
    hide PageBase, Spaced, ValidPage;
  }

  lemma {:induction false} LinksFit(format: PointerFormat, links: seq<Link>)
    requires ValidLinks(format, links)
    ensures AllFit(format, links)
  {
    hide Fits;
  }

  lemma {:induction false} PlanAt(loc: SegmentLoc, plans: seq<PagePlan>, page: nat)
    requires ValidPlans(loc, plans) && SpacedPlans(loc, plans) && page < |plans|
    ensures ValidPage(loc, page, plans[page])
    ensures plans[page].Chain? ==>
              && ValidLinks(loc.chained.format, plans[page].links)
              && Spaced(loc, plans[page].start, plans[page].links)
              && AllFit(loc.chained.format, plans[page].links)
  {
    hide PageBase, Spaced, ValidLinks, AllFit;
    if plans[page].Chain? {
      LinksFit(loc.chained.format, plans[page].links);
    }
  }

  /** The start of a page's table entry, its write, and the slot writes after it. */
  lemma {:induction false} PageWritesAre(loc: SegmentLoc, page: nat, plan: PagePlan)
    requires ValidPage(loc, page, plan)
    ensures var writes, table := PageWrites(loc, page, plan), loc.chained.startsOffset + 22 + 2 * page;
            && |writes| >= 1 && writes[0].off == table && writes[0].End() == table + 2
            && PlacedIn(loc, page, writes[0])
            && (plan.Skipped? ==> writes == [writes[0]])
            && (plan.Chain? ==> writes == [writes[0]] + LinkWrites(loc, PageBase(loc, page) + plan.start, plan.links))
  {
    hide LinkWrites, Fits, PageBase;
  }

  lemma {:induction false} ChainPageApart(loc: SegmentLoc, plans: seq<PagePlan>, page: nat)
    requires ValidPlans(loc, plans) && SpacedPlans(loc, plans) && page < |plans| && plans[page].Chain?
    requires ValidPage(loc, page, plans[page])
    ensures Disjoint(PageWrites(loc, page, plans[page]))
    ensures forall w :: w in PageWrites(loc, page, plans[page]) ==> PlacedIn(loc, page, w)
  {
    hide *;
    var plan, base := plans[page], PageBase(loc, page);
    PlanAt(loc, plans, page);
    PageWritesAre(loc, page, plan);
    EntryOutside(loc, plans, page);
    LinksApart(loc, base, plan.start, plan.links);
    EntryAndSlots(loc, page, plan.start, PageWrites(loc, page, plan)[0],
                  LinkWrites(loc, base + plan.start, plan.links));
  }

  lemma {:induction false} OneApart(w: Write)
    ensures Disjoint([w]) && forall x :: x in [w] ==> x == w
  {
  }

  lemma {:induction false} PageApart(loc: SegmentLoc, plans: seq<PagePlan>, page: nat)
    requires ValidPlans(loc, plans) && SpacedPlans(loc, plans) && page < |plans|
    ensures ValidPage(loc, page, plans[page])
    ensures Disjoint(PageWrites(loc, page, plans[page]))
    ensures forall w :: w in PageWrites(loc, page, plans[page]) ==> PlacedIn(loc, page, w)
  {
    hide *;
    PlanAt(loc, plans, page);
    if plans[page].Chain? {
      ChainPageApart(loc, plans, page);
    } else {
      PageWritesAre(loc, page, plans[page]);
      OneApart(PageWrites(loc, page, plans[page])[0]);
    }
  }

  /** The round trip for slots at least 8 bytes apart that keep to their pages. */
  lemma {:induction false} SpacedChainsRoundTrip(buffer: seq<byte>, loc: SegmentLoc, imageBase: u64, names: Names,
                                                 plans: seq<PagePlan>)
    requires !loc.chained.format.Other? && ValidPlans(loc, plans) && SpacedPlans(loc, plans)
    requires loc.chained.startsOffset + 22 + 2 * |plans| <= |buffer|
    requires loc.fileoff + PageBase(loc, |plans|) <= |buffer|
    ensures InBounds(buffer, PlanWrites(loc, plans, 0))
    ensures SegmentRows(Apply(buffer, PlanWrites(loc, plans, 0)), loc, imageBase, names)
         == PlanRows(loc, imageBase, names, plans, 0)
  {
    PlansApart(loc, plans, 0);
    var writes := PlanWrites(loc, plans, 0);
    forall i | 0 <= i < |writes|
      ensures writes[i].End() <= |buffer|
    {
      assert writes[i] in writes;
    }
    hide *;
    ChainsRoundTrip(buffer, loc, imageBase, names, plans);
  }

  // ----- a whole image -----

  datatype SegmentPlan = SegmentPlan(loc: SegmentLoc, pages: seq<PagePlan>)

  /** Segments of unsupported formats may hold anything, and yield nothing. */
  predicate ValidImage(image: seq<SegmentPlan>) {
    forall i :: 0 <= i < |image| ==>
      image[i].loc.chained.format.Other? || ValidPlans(image[i].loc, image[i].pages)
  }

  function PlanLocs(image: seq<SegmentPlan>): seq<SegmentLoc> {
    if image == [] then [] else PlanLocs(image[..|image| - 1]) + [image[|image| - 1].loc]
  }

  function ImageWrites(image: seq<SegmentPlan>): seq<Write>
    requires ValidImage(image)
  {
    if image == [] then []
    else
      var last := image[|image| - 1];
      ImageWrites(image[..|image| - 1])
      + if last.loc.chained.format.Other? then [] else PlanWrites(last.loc, last.pages, 0)
  }

  function PlannedRows(image: seq<SegmentPlan>, imageBase: u64, names: Names): seq<Entry>
    requires ValidImage(image)
  {
    if image == [] then []
    else
      var last := image[|image| - 1];
      PlannedRows(image[..|image| - 1], imageBase, names)
      + if last.loc.chained.format.Other? then [] else PlanRows(last.loc, imageBase, names, last.pages, 0)
  }

  lemma {:induction false} ImageReadsBack(data: seq<byte>, image: seq<SegmentPlan>, imageBase: u64, names: Names)
    requires ValidImage(image) && AllWritten(data, ImageWrites(image))
    ensures ImageRows(data, PlanLocs(image), imageBase, names) == PlannedRows(image, imageBase, names)
  {
    hide AllWritten, ValidPlans, PageRows, PlanRows, PlanWrites;
    if image != [] {
      var init, last := image[..|image| - 1], image[|image| - 1];
      if last.loc.chained.format.Other? {
        AllWrittenSplit(data, ImageWrites(init), []);
      } else {
        AllWrittenSplit(data, ImageWrites(init), PlanWrites(last.loc, last.pages, 0));
        PagesReadBack(data, last.loc, imageBase, names, last.pages, 0);
      }
      ImageReadsBack(data, init, imageBase, names);
      assert PlanLocs(image)[..|PlanLocs(image)| - 1] == PlanLocs(init);
    }
  }

  /** For every image whose writes stay apart and inside the buffer, the rebase and bind iterators
      over the written buffer yield the planned rebases and binds of all segments, in order. */
  lemma {:induction false} ImageRoundTrip(buffer: seq<byte>, image: seq<SegmentPlan>, imageBase: u64, names: Names)
    requires ValidImage(image)
    requires InBounds(buffer, ImageWrites(image)) && Disjoint(ImageWrites(image))
    ensures var data, locs := Apply(buffer, ImageWrites(image)), PlanLocs(image);
            && Rebases(ImageRows(data, locs, imageBase, NO_NAMES)) == Rebases(PlannedRows(image, imageBase, NO_NAMES))
            && Binds(ImageRows(data, locs, imageBase, names)) == Binds(PlannedRows(image, imageBase, names))
  {
    hide ValidImage, ImageWrites, ImageRows, PlannedRows, InBounds, Disjoint, AllWritten, Rebases, Binds, Apply;
    ApplyWrites(buffer, ImageWrites(image));
    ImageReadsBack(Apply(buffer, ImageWrites(image)), image, imageBase, NO_NAMES);
    ImageReadsBack(Apply(buffer, ImageWrites(image)), image, imageBase, names);
  }
}
