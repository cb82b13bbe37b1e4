/** The segment table and the translation of a VM address to its file offset (src/util.rs). */
module SegmentMap {
  import opened Bytes

  datatype Segment = Segment(vmaddr: u64, vmsize: u64, fileoff: u64, filesize: u64) {
    /** `vm` lies in the segment's mapped range, and the segment has bytes on disk. */
    predicate Covers(vm: u64) {
      vmaddr <= vm < vmaddr + vmsize && filesize > 0
    }

    /** `vm` lies in the part of the segment that is on disk, at file offset `off`. */
    predicate Backs(vm: u64, off: u64) {
      Covers(vm) && vm - vmaddr < filesize && off == fileoff + (vm - vmaddr)
    }
  }

  function VmToFile(segs: seq<Segment>, vm: u64): Option<u64> {
    if segs == [] || segs[0].vmaddr + segs[0].vmsize >= U64 then None
    else if !segs[0].Covers(vm) then VmToFile(segs[1..], vm)
    else if vm - segs[0].vmaddr >= segs[0].filesize then None
    else CheckedAdd(segs[0].fileoff, vm - segs[0].vmaddr)
  }

  method VmToFileOffsetIn(segs: seq<Segment>, vm: u64) returns (r: Option<u64>)
    ensures r == VmToFile(segs, vm)
  {
    assert segs[0..] == segs;
    for i := 0 to |segs|
      invariant VmToFile(segs, vm) == VmToFile(segs[i..], vm)
    {
      var seg := segs[i];
      assert segs[i..][0] == seg && segs[i..][1..] == segs[i + 1..];
      var segEnd := CheckedAdd(seg.vmaddr, seg.vmsize);
      if segEnd.None? {
        return None;
      }
      if seg.vmaddr <= vm < segEnd.value && seg.filesize > 0 {
        var delta := vm - seg.vmaddr;
        if delta >= seg.filesize {
          return None;
        }
        return CheckedAdd(seg.fileoff, delta);
      }
    }
    return None;
  }

  // ----- any table -----

  /** Entry i backs the address, none before it covers it, and none up to it overflows. */
  ghost predicate FirstBacks(segs: seq<Segment>, i: nat, vm: u64, off: u64) {
    && i < |segs| && segs[i].Backs(vm, off)
    && (forall j :: 0 <= j < i ==> !segs[j].Covers(vm))
    && (forall j :: 0 <= j <= i ==> segs[j].vmaddr + segs[j].vmsize < U64)
  }

  lemma {:induction false} FirstBacksShifts(segs: seq<Segment>, i: nat, vm: u64, off: u64)
    requires segs != []
    ensures FirstBacks(segs, i + 1, vm, off)
       <==> FirstBacks(segs[1..], i, vm, off) && !segs[0].Covers(vm) && segs[0].vmaddr + segs[0].vmsize < U64
  {
    var rest := segs[1..];
    assert forall j :: 0 <= j < |rest| ==> rest[j] == segs[j + 1];
    if FirstBacks(segs, i + 1, vm, off) {
      assert forall j :: 0 <= j < |rest| ==> rest[j] == segs[j + 1];
    }
  }

  /** On any table at all an address translates to `off` exactly when the first entry that covers
      it backs it there, before any entry overflows. */
  lemma {:induction false} FirstMatchExact(segs: seq<Segment>, vm: u64, off: u64)
    ensures VmToFile(segs, vm) == Some(off) <==> exists i: nat :: FirstBacks(segs, i, vm, off)
    decreases |segs|
  {
    if segs != [] {
      FirstMatchExact(segs[1..], vm, off);
      if exists i: nat :: FirstBacks(segs[1..], i, vm, off) {
        var i: nat :| FirstBacks(segs[1..], i, vm, off);
        FirstBacksShifts(segs, i, vm, off);
      }
      if exists i: nat :: FirstBacks(segs, i, vm, off) {
        var i: nat :| FirstBacks(segs, i, vm, off);
        if i > 0 {
          FirstBacksShifts(segs, i - 1, vm, off);
        }
      }
      if VmToFile(segs, vm) == Some(off) && segs[0].Covers(vm) {
        assert FirstBacks(segs, 0, vm, off);
      }
    }
  }

  // ----- well-formed tables -----

  ghost predicate NoOverflow(segs: seq<Segment>) {
    forall i :: 0 <= i < |segs| ==> segs[i].vmaddr + segs[i].vmsize < U64
  }

  ghost predicate DisjointRanges(segs: seq<Segment>) {
    forall i, j, vm: u64 :: 0 <= i < j < |segs| && segs[i].Covers(vm) ==> !segs[j].Covers(vm)
  }

  /** Over a well-formed table the search order is immaterial: an address translates to `off`
      exactly when some segment holds it on disk there. */
  lemma {:induction false} TranslationExact(segs: seq<Segment>, vm: u64, off: u64)
    requires NoOverflow(segs) && DisjointRanges(segs)
    ensures VmToFile(segs, vm) == Some(off) <==> exists i :: 0 <= i < |segs| && segs[i].Backs(vm, off)
  {
    if segs != [] {
      TranslationExact(segs[1..], vm, off);
      if segs[0].Covers(vm) {
        assert forall i :: 1 <= i < |segs| ==> !segs[i].Covers(vm);
        if segs[0].Backs(vm, off) {
          assert VmToFile(segs, vm) == Some(off);
        }
      } else if exists i :: 0 <= i < |segs| && segs[i].Backs(vm, off) {
        var i :| 0 <= i < |segs| && segs[i].Backs(vm, off);
        assert segs[1..][i - 1].Backs(vm, off);
      }
    }
  }
}
