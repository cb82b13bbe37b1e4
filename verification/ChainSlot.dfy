/** One 64-bit slot of a chained-fixup chain (src/fixup.rs): the decoder, a packer, and the round
    trip between them. */
module ChainSlot {
  import opened Bytes

  datatype PointerFormat =
    | Arm64e
    | Ptr64
    | Ptr64Offset
    | Arm64eKernel
    | Arm64eUserland
    | Arm64eUserland24
    | Arm64eSharedCache
    | Other(raw: u16)
  {
    predicate IsSupported() {
      !Other?
    }

    predicate IsPtr64() {
      Ptr64? || Ptr64Offset?
    }

    /** Bytes per unit of a slot's `next` field. */
    function Stride(): nat {
      if Ptr64? || Ptr64Offset? || Arm64eKernel? then 4 else 8
    }
  }

  datatype PacKey = IA | IB | DA | DB

  datatype PtrAuth = PtrAuth(diversity: u16, addrDiv: bool, key: PacKey)

  datatype Import = Import(libOrdinal: int, weak: bool, name: string, addend: i64)

  datatype Rebase = Rebase(segIndex: u32, segmentOffset: u64, vmAddress: u64, target: u64,
                           rawSlot: u64, auth: Option<PtrAuth>, high8: Option<byte>,
                           format: PointerFormat)

  datatype Bind = Bind(segIndex: u32, segmentOffset: u64, vmAddress: u64, ordinal: u32, addend: i64,
                       name: string, dylib: string, isWeak: bool, auth: Option<PtrAuth>,
                       format: PointerFormat, rawSlot: u64)

  datatype Entry = RebaseEntry(rebase: Rebase) | BindEntry(bind: Bind)

  /** The import table and the dylib list a bind is resolved against. */
  datatype Names = Names(imports: seq<Import>, dylibs: seq<string>)

  const NO_NAMES := Names([], [])

  /** Where a slot was read: everything about it but its bits. */
  datatype SlotCtx = SlotCtx(imageBase: u64, segIndex: u32, segmentOffset: u64, vmAddress: u64, names: Names)

  // ----- decoding -----

  function ResolveLibOrdinal(ordinal: int, dylibs: seq<string>): string {
    if ordinal > 0 then (if ordinal - 1 < |dylibs| then dylibs[ordinal - 1] else "")
    else if ordinal == 0 then "self"
    else if ordinal == -1 then "main-executable"
    else if ordinal == -2 then "flat-namespace"
    else if ordinal == -3 then "weak"
    else ""
  }

  /** What the import row's documentation (src/fixup.rs:196-201) says a library ordinal names. */
  function DocumentedDylib(ordinal: int, dylibs: seq<string>): Option<string> {
    if 0 < ordinal <= |dylibs| then Some(dylibs[ordinal - 1])
    else if ordinal == -1 then Some("self")
    else if ordinal == -2 then Some("main-executable")
    else if ordinal == -3 then Some("flat-namespace")
    else if ordinal == -4 then Some("weak")
    else None
  }

  /** The code names a documented ordinal as documented if and only if it is positive; the special
      ordinals are all off by one. */
  lemma {:induction false} SpecialOrdinalsShifted(ordinal: int, dylibs: seq<string>)
    requires DocumentedDylib(ordinal, dylibs).Some?
    ensures ResolveLibOrdinal(ordinal, dylibs) == DocumentedDylib(ordinal, dylibs).value <==> ordinal > 0
    ensures ordinal < 0 ==> ResolveLibOrdinal(ordinal + 1, dylibs) == DocumentedDylib(ordinal, dylibs).value
  {
    assert "self"[0] == 's' && "main-executable"[0] == 'm' && "flat-namespace"[0] == 'f' && "weak"[0] == 'w';
  }

  /** Ordinals past the dylib list, and those below the special ones, name nothing. */
  lemma {:induction false} OtherOrdinalsNameNothing(ordinal: int, dylibs: seq<string>)
    requires ordinal > |dylibs| || ordinal < -3
    ensures ResolveLibOrdinal(ordinal, dylibs) == ""
  {
  }

  /** (symbol name, dylib name, weak flag, addend) of an import ordinal. */
  function ResolveImport(ordinal: nat, names: Names): (string, string, bool, i64) {
    if ordinal < |names.imports| then
      var import_ := names.imports[ordinal];
      (import_.name, ResolveLibOrdinal(import_.libOrdinal, names.dylibs), import_.weak, import_.addend)
    else ("", "", false, 0)
  }

  function KeyOfBits(bits: nat): PacKey {
    match bits % 4
    case 0 => IA
    case 1 => IB
    case 2 => DA
    case _ => DB
  }

  /** Bits 32..51 as a signed 19-bit number. */
  function ExtractSigned19(slot: u64): i64 {
    var raw := slot / 0x1_0000_0000 % 0x8_0000;
    if raw / 0x4_0000 % 2 != 0 then raw - 0x8_0000 else raw
  }

  function MakeBind(slot: u64, format: PointerFormat, ctx: SlotCtx, ordinal: u32, slotAddend: i64,
                    auth: Option<PtrAuth>): Entry
  {
    var (name, dylib, weak, importAddend) := ResolveImport(ordinal, ctx.names);
    BindEntry(Bind(ctx.segIndex, ctx.segmentOffset, ctx.vmAddress, ordinal,
                   SatAddSigned(slotAddend, importAddend), name, dylib, weak, auth, format, slot))
  }

  function MakeRebase(slot: u64, format: PointerFormat, ctx: SlotCtx, target: u64,
                      auth: Option<PtrAuth>, high8: Option<byte>): Entry
  {
    RebaseEntry(Rebase(ctx.segIndex, ctx.segmentOffset, ctx.vmAddress, target, slot, auth, high8, format))
  }

  /** The row in a slot and the slot's `next` field. */
  function DecodeChainEntry(slot: u64, format: PointerFormat, ctx: SlotCtx): Option<(Entry, nat)> {
    if format.Other? then None
    else if !format.IsPtr64() then Some(DecodeArm64eSlot(slot, format, ctx))
    else
      var next := slot / 0x8_0000_0000_0000 % 0x1000;
      if slot / 0x8000_0000_0000_0000 % 2 == 0 then
        var target := slot % 0x10_0000_0000;
        var high8 := slot / 0x10_0000_0000 % 0x100;
        var targetVm := if format.Ptr64Offset? then SatAdd(ctx.imageBase, target) else target;
        Some((MakeRebase(slot, format, ctx, targetVm, None, Some(high8)), next))
      else
        var ordinal := slot % 0x100_0000;
        var addend := slot / 0x100_0000 % 0x100;
        Some((MakeBind(slot, format, ctx, ordinal, addend, None), next))
  }

  /** The PAC fields of an authenticated slot. */
  function SlotAuth(slot: u64): PtrAuth {
    PtrAuth(slot / 0x1_0000_0000 % 0x1_0000, slot / 0x1_0000_0000_0000 % 2 != 0,
            KeyOfBits(slot / 0x2_0000_0000_0000 % 4))
  }

  function DecodeArm64eSlot(slot: u64, format: PointerFormat, ctx: SlotCtx): (Entry, nat) {
    var authBit := slot / 0x8000_0000_0000_0000 % 2;
    var bindBit := slot / 0x4000_0000_0000_0000 % 2;
    var next := slot / 0x8_0000_0000_0000 % 0x800;
    var auth :=
      if authBit != 0 then Some(SlotAuth(slot))
      else None;
    if bindBit == 0 then
      var targetVm :=
        if authBit != 0 then SatAdd(ctx.imageBase, slot % 0x1_0000_0000)
        else if format.Arm64e? then slot % 0x800_0000_0000
        else SatAdd(ctx.imageBase, slot % 0x800_0000_0000);
      var high8 := if authBit == 0 then Some(slot / 0x800_0000_0000 % 0x100) else None;
      (MakeRebase(slot, format, ctx, targetVm, auth, high8), next)
    else
      var ordinal := if format.Arm64eUserland24? then slot % 0x100_0000 else slot % 0x1_0000;
      var addend := if authBit != 0 then 0 else ExtractSigned19(slot);
      (MakeBind(slot, format, ctx, ordinal, addend, auth), next)
  }

  // ----- packing: what a linker stores -----

  /** The fields of a slot without its `next`, reserved bits included. The addend of a PlainBind is
      signed. */
  datatype Payload =
    | Rebase64(target: nat, high8: nat, reserved: nat)
    | Bind64(ordinal: nat, addend8: nat, reserved: nat)
    | PlainRebase(target: nat, high8: nat)
    | AuthRebase(target: nat, auth: PtrAuth)
    | PlainBind(ordinal: nat, addend: int, reserved: nat)
    | AuthBind(ordinal: nat, auth: PtrAuth, reserved: nat)

  /** First value past an arm64e ordinal: 24 bits in the USERLAND24 format, 16 in the others. */
  function OrdinalEnd(format: PointerFormat): nat {
    if format.Arm64eUserland24? then 0x100_0000 else 0x1_0000
  }

  predicate OrdinalFits(format: PointerFormat, ordinal: nat, reserved: nat) {
    ordinal < OrdinalEnd(format) && reserved < if format.Arm64eUserland24? then 0x100 else 0x1_0000
  }

  /** Every field fits the width the format gives it. */
  predicate Fits(format: PointerFormat, p: Payload, next: nat) {
    && !format.Other?
    && (format.Ptr64? || format.Ptr64Offset? <==> p.Rebase64? || p.Bind64?)
    && next < (if format.Ptr64? || format.Ptr64Offset? then 0x1000 else 0x800)
    && match p
       case Rebase64(target, high8, reserved) => target < 0x10_0000_0000 && high8 < 0x100 && reserved < 0x80
       case Bind64(ordinal, addend8, reserved) => ordinal < 0x100_0000 && addend8 < 0x100 && reserved < 0x8_0000
       case PlainRebase(target, high8) => target < 0x800_0000_0000 && high8 < 0x100
       case AuthRebase(target, _) => target < 0x1_0000_0000
       case PlainBind(ordinal, addend, reserved) =>
         OrdinalFits(format, ordinal, reserved) && -0x4_0000 <= addend < 0x4_0000
       case AuthBind(ordinal, _, reserved) => OrdinalFits(format, ordinal, reserved)
  }

  function BitsOfKey(key: PacKey): nat {
    match key
    case IA => 0
    case IB => 1
    case DA => 2
    case DB => 3
  }

  /** Bits 32..51 of an authenticated slot. */
  function PackAuth(auth: PtrAuth): nat {
    auth.diversity + 0x1_0000 * (if auth.addrDiv then 1 else 0) + 0x2_0000 * BitsOfKey(auth.key)
  }

  function Pack(format: PointerFormat, p: Payload, next: nat): int {
    0x8_0000_0000_0000 * next + PackFields(format, p)
  }

  /** Bits 0..32 of an arm64e bind. */
  function PackOrdinal(format: PointerFormat, ordinal: nat, reserved: nat): nat {
    ordinal + reserved * OrdinalEnd(format)
  }

  /** Everything but `next`; the sign of an addend is its bit 18. */
  function PackFields(format: PointerFormat, p: Payload): int {
    match p
    case Rebase64(target, high8, reserved) => target + 0x10_0000_0000 * high8 + 0x1000_0000_0000 * reserved
    case Bind64(ordinal, addend8, reserved) =>
      ordinal + 0x100_0000 * addend8 + 0x1_0000_0000 * reserved + 0x8000_0000_0000_0000
    case PlainRebase(target, high8) => target + 0x800_0000_0000 * high8
    case AuthRebase(target, auth) => target + 0x1_0000_0000 * PackAuth(auth) + 0x8000_0000_0000_0000
    case PlainBind(ordinal, addend, reserved) =>
      PackOrdinal(format, ordinal, reserved)
      + 0x1_0000_0000 * (if addend < 0 then addend + 0x8_0000 else addend) + 0x4000_0000_0000_0000
    case AuthBind(ordinal, auth, reserved) =>
      PackOrdinal(format, ordinal, reserved) + 0x1_0000_0000 * PackAuth(auth) + 0xc000_0000_0000_0000
  }

  // ----- what a payload stands for -----

  /** x held within a u64. */
  function Clamped(x: nat): u64 {
    if x < 0x1_0000_0000_0000_0000 then x else 0xffff_ffff_ffff_ffff
  }

  /** x held within an i64. */
  function ClampedSigned(x: int): i64 {
    if x < -0x8000_0000_0000_0000 then -0x8000_0000_0000_0000
    else if x > 0x7fff_ffff_ffff_ffff then 0x7fff_ffff_ffff_ffff
    else x
  }

  /** Targets of these formats are absolute; all others, and authenticated ones, count from the image. */
  function TargetOf(p: Payload, format: PointerFormat, imageBase: u64): u64
    requires p.Rebase64? || p.PlainRebase? || p.AuthRebase?
  {
    if p.Rebase64? && format.Ptr64? then Clamped(p.target)
    else if p.PlainRebase? && format.Arm64e? then Clamped(p.target)
    else Clamped(imageBase + p.target)
  }

  /** The import an ordinal picks; one without name, dylib or addend when there is none. */
  function ImportAt(names: Names, ordinal: nat): Import {
    if ordinal < |names.imports| then names.imports[ordinal] else Import(NO_DYLIB, false, "", 0)
  }

  /** A library ordinal that names nothing. */
  const NO_DYLIB: int := -4

  /** The row a payload stands for, field by field: PAC-stripped target, image base added to
      image-relative targets, addends of slot and import summed; reserved bits are ignored. */
  function RowOf(p: Payload, format: PointerFormat, ctx: SlotCtx, slot: u64): Entry
    requires Fits(format, p, 0)
  {
    var auth := if p.AuthRebase? || p.AuthBind? then Some(p.auth) else None;
    if p.Rebase64? || p.PlainRebase? || p.AuthRebase? then
      RebaseEntry(Rebase(segIndex := ctx.segIndex, segmentOffset := ctx.segmentOffset, vmAddress := ctx.vmAddress,
                         target := TargetOf(p, format, ctx.imageBase), rawSlot := slot, auth := auth,
                         high8 := if p.AuthRebase? then None else Some(p.high8), format := format))
    else
      var stored := match p case Bind64(_, addend8, _) => addend8 case PlainBind(_, addend, _) => addend case _ => 0;
      var import_ := ImportAt(ctx.names, p.ordinal);
      BindEntry(Bind(segIndex := ctx.segIndex, segmentOffset := ctx.segmentOffset, vmAddress := ctx.vmAddress,
                     ordinal := p.ordinal, addend := ClampedSigned(stored + import_.addend), name := import_.name,
                     dylib := ResolveLibOrdinal(import_.libOrdinal, ctx.names.dylibs), isWeak := import_.weak,
                     auth := auth, format := format, rawSlot := slot))
  }

  // ----- round trip -----

  // Fields of a slot whose bits below 51 are `low`.

  lemma {:induction false} Ptr64Top(s: nat, low: nat, next: nat, bindBit: nat)
    requires low < 0x8_0000_0000_0000 && next < 0x1000 && bindBit < 2
    requires s == low + 0x8_0000_0000_0000 * next + 0x8000_0000_0000_0000 * bindBit
    ensures s < 0x1_0000_0000_0000_0000
    ensures s / 0x8_0000_0000_0000 % 0x1000 == next
    ensures s / 0x8000_0000_0000_0000 % 2 == bindBit
  {
    hide *;
    Cut(s, low, next, bindBit, 0x8_0000_0000_0000, 0x1000);
    Cut(s, low + 0x8_0000_0000_0000 * next, bindBit, 0, 0x8000_0000_0000_0000, 2);
  }

  lemma {:induction false} ArmTop(s: nat, low: nat, next: nat, bindBit: nat, authBit: nat)
    requires low < 0x8_0000_0000_0000 && next < 0x800 && bindBit < 2 && authBit < 2
    requires s == low + 0x8_0000_0000_0000 * next + 0x4000_0000_0000_0000 * bindBit + 0x8000_0000_0000_0000 * authBit
    ensures s < 0x1_0000_0000_0000_0000
    ensures s / 0x8_0000_0000_0000 % 0x800 == next
    ensures s / 0x4000_0000_0000_0000 % 2 == bindBit
    ensures s / 0x8000_0000_0000_0000 % 2 == authBit
  {
    hide *;
    var low62 := low + 0x8_0000_0000_0000 * next;
    Cut(s, low, next, bindBit + 2 * authBit, 0x8_0000_0000_0000, 0x800);
    Cut(s, low62, bindBit, authBit, 0x4000_0000_0000_0000, 2);
    Cut(s, low62 + 0x4000_0000_0000_0000 * bindBit, authBit, 0, 0x8000_0000_0000_0000, 2);
  }

  lemma {:induction false} AuthFields(s: nat, low: nat, auth: PtrAuth, rest: nat)
    requires low < 0x1_0000_0000
    requires s == low + 0x1_0000_0000 * (PackAuth(auth) + 0x8_0000 * rest)
    ensures s % 0x1_0000_0000 == low
    ensures s / 0x1_0000_0000 % 0x1_0000 == auth.diversity
    ensures (s / 0x1_0000_0000_0000 % 2 != 0) == auth.addrDiv
    ensures KeyOfBits(s / 0x2_0000_0000_0000 % 4) == auth.key
  {
    var div: nat, a: nat, k: nat := auth.diversity, if auth.addrDiv then 1 else 0, BitsOfKey(auth.key);
    var low48 := low + 0x1_0000_0000 * div;
    assert PackAuth(auth) == div + 0x1_0000 * a + 0x2_0000 * k && k < 4 && KeyOfBits(k) == auth.key;
    assert a != 0 <==> auth.addrDiv;
    hide *;
    Cut(s, low, div, a + 2 * k + 8 * rest, 0x1_0000_0000, 0x1_0000);
    Cut(s, low48, a, k + 4 * rest, 0x1_0000_0000_0000, 2);
    Cut(s, low48 + 0x1_0000_0000_0000 * a, k, rest, 0x2_0000_0000_0000, 4);
  }

  lemma {:induction false} PackAuthBound(auth: PtrAuth)
    ensures PackAuth(auth) < 0x8_0000
  {
  }

  lemma {:induction false} OrdinalField(s: nat, format: PointerFormat, ordinal: nat, reserved: nat, rest: nat)
    requires OrdinalFits(format, ordinal, reserved)
    requires s == PackOrdinal(format, ordinal, reserved) + 0x1_0000_0000 * rest
    ensures PackOrdinal(format, ordinal, reserved) < 0x1_0000_0000
    ensures (if format.Arm64eUserland24? then s % 0x100_0000 else s % 0x1_0000) == ordinal
  {
    if format.Arm64eUserland24? {
      Cut(s, ordinal, reserved, rest, 0x100_0000, 0x100);
    } else {
      Cut(s, ordinal, reserved, rest, 0x1_0000, 0x1_0000);
    }
  }

  lemma {:induction false} AddendField(s: u64, low: nat, addend: int, rest: nat)
    requires low < 0x1_0000_0000 && -0x4_0000 <= addend < 0x4_0000
    requires s == low + 0x1_0000_0000 * ((if addend < 0 then addend + 0x8_0000 else addend) + 0x8_0000 * rest)
    ensures ExtractSigned19(s) == addend
  {
    Cut(s, low, if addend < 0 then addend + 0x8_0000 else addend, rest, 0x1_0000_0000, 0x8_0000);
  }

  lemma {:induction false} MadeRebase(slot: u64, format: PointerFormat, ctx: SlotCtx, p: Payload, auth: Option<PtrAuth>,
                                      high8: Option<byte>, next: nat)
    requires Fits(format, p, next) && (p.Rebase64? || p.PlainRebase? || p.AuthRebase?)
    requires auth == (if p.AuthRebase? then Some(p.auth) else None)
    requires high8 == if p.AuthRebase? then None else Some(p.high8)
    ensures var target: u64 := if format.Ptr64? || (format.Arm64e? && !p.AuthRebase?) then p.target
                               else SatAdd(ctx.imageBase, p.target);
            MakeRebase(slot, format, ctx, target, auth, high8) == RowOf(p, format, ctx, slot)
  {
  }

  lemma {:induction false} MadeBind(slot: u64, format: PointerFormat, ctx: SlotCtx, p: Payload, stored: i64,
                                    auth: Option<PtrAuth>, next: nat)
    requires Fits(format, p, next) && (p.Bind64? || p.PlainBind? || p.AuthBind?)
    requires auth == (if p.AuthBind? then Some(p.auth) else None)
    requires stored == match p case Bind64(_, addend8, _) => addend8 case PlainBind(_, addend, _) => addend case _ => 0
    ensures MakeBind(slot, format, ctx, p.ordinal, stored, auth) == RowOf(p, format, ctx, slot)
  {
    OtherOrdinalsNameNothing(NO_DYLIB, ctx.names.dylibs);
    hide ResolveLibOrdinal;
  }

  lemma {:induction false} Ptr64SlotReadsBack(p: Payload, format: PointerFormat, ctx: SlotCtx, next: nat, s: int)
    requires Fits(format, p, next) && (p.Rebase64? || p.Bind64?) && s == Pack(format, p, next)
    ensures 0 <= s < U64 && DecodeChainEntry(s, format, ctx) == Some((RowOf(p, format, ctx, s), next))
  {
    hide MakeRebase, MakeBind, SatAdd, PackAuth, ExtractSigned19, KeyOfBits, RowOf, PackOrdinal;
    match p {
      case Rebase64(target, high8, reserved) =>
        Ptr64Top(s, PackFields(format, p), next, 0);
        Cut(s, target, high8, reserved + 0x80 * next, 0x10_0000_0000, 0x100);
        MadeRebase(s, format, ctx, p, None, Some(high8), next);
      case Bind64(ordinal, addend8, reserved) =>
        Ptr64Top(s, ordinal + 0x100_0000 * addend8 + 0x1_0000_0000 * reserved, next, 1);
        Cut(s, ordinal, addend8, reserved + 0x8_0000 * (next + 0x1000), 0x100_0000, 0x100);
        MadeBind(s, format, ctx, p, addend8, None, next);
    }
  }

  lemma {:induction false} ArmRebaseReadsBack(p: Payload, format: PointerFormat, ctx: SlotCtx, next: nat, s: int)
    requires Fits(format, p, next) && (p.PlainRebase? || p.AuthRebase?) && s == Pack(format, p, next)
    ensures 0 <= s < U64 && DecodeChainEntry(s, format, ctx) == Some((RowOf(p, format, ctx, s), next))
  {
    hide MakeRebase, MakeBind, SatAdd, PackAuth, ExtractSigned19, KeyOfBits, RowOf, PackOrdinal;
    match p {
      case PlainRebase(target, high8) =>
        ArmTop(s, PackFields(format, p), next, 0, 0);
        Cut(s, target, high8, next, 0x800_0000_0000, 0x100);
        MadeRebase(s, format, ctx, p, None, Some(high8), next);
      case AuthRebase(target, auth) =>
        PackAuthBound(auth);
        ArmTop(s, target + 0x1_0000_0000 * PackAuth(auth), next, 0, 1);
        AuthFields(s, target, auth, next + 0x1000);
        MadeRebase(s, format, ctx, p, Some(auth), None, next);
    }
  }

  lemma {:induction false} ArmBindReadsBack(p: Payload, format: PointerFormat, ctx: SlotCtx, next: nat, s: int)
    requires Fits(format, p, next) && (p.PlainBind? || p.AuthBind?) && s == Pack(format, p, next)
    ensures 0 <= s < U64 && DecodeChainEntry(s, format, ctx) == Some((RowOf(p, format, ctx, s), next))
  {
    hide MakeRebase, MakeBind, SatAdd, PackAuth, ExtractSigned19, KeyOfBits, RowOf, PackOrdinal;
    match p {
      case PlainBind(ordinal, addend, reserved) =>
        var bits := if addend < 0 then addend + 0x8_0000 else addend;
        OrdinalField(s, format, ordinal, reserved, bits + 0x8_0000 * (next + 0x800));
        ArmTop(s, PackOrdinal(format, ordinal, reserved) + 0x1_0000_0000 * bits, next, 1, 0);
        AddendField(s, PackOrdinal(format, ordinal, reserved), addend, next + 0x800);
        MadeBind(s, format, ctx, p, addend, None, next);
      case AuthBind(ordinal, auth, reserved) =>
        PackAuthBound(auth);
        OrdinalField(s, format, ordinal, reserved, PackAuth(auth) + 0x8_0000 * (next + 0x1800));
        ArmTop(s, PackOrdinal(format, ordinal, reserved) + 0x1_0000_0000 * PackAuth(auth), next, 1, 1);
        AuthFields(s, PackOrdinal(format, ordinal, reserved), auth, next + 0x1800);
        MadeBind(s, format, ctx, p, 0, Some(auth), next);
    }
  }

  /** Packing in-width fields, whatever the reserved bits, and decoding the slot gives back the
      payload's row and `next`. */
  lemma {:induction false} SlotRoundTrip(p: Payload, format: PointerFormat, ctx: SlotCtx, next: nat)
    requires Fits(format, p, next)
    ensures 0 <= Pack(format, p, next) < U64
    ensures DecodeChainEntry(Pack(format, p, next), format, ctx)
         == Some((RowOf(p, format, ctx, Pack(format, p, next)), next))
  {
    var s := Pack(format, p, next);
    hide Fits, Pack, RowOf, DecodeChainEntry;
    match p {
      case Rebase64(_, _, _) | Bind64(_, _, _) => Ptr64SlotReadsBack(p, format, ctx, next, s);
      case PlainRebase(_, _) | AuthRebase(_, _) => ArmRebaseReadsBack(p, format, ctx, next, s);
      case PlainBind(_, _, _) | AuthBind(_, _, _) => ArmBindReadsBack(p, format, ctx, next, s);
    }
  }

  // ----- every slot is packed from something -----

  lemma {:induction false} AuthOfBits(bits: nat) returns (auth: PtrAuth)
    requires bits < 0x8_0000
    ensures PackAuth(auth) == bits
  {
    var key := bits / 0x2_0000;
    DivModSum(bits, 0x1_0000);
    DivModSum(bits / 0x1_0000, 2);
    assert key == bits / 0x1_0000 / 2 && key < 4;
    auth := PtrAuth(bits % 0x1_0000, bits / 0x1_0000 % 2 != 0,
                    if key == 0 then IA else if key == 1 then IB else if key == 2 then DA else DB);
  }

  lemma {:induction false} OrdinalOfBits(format: PointerFormat, low: nat) returns (ordinal: nat, reserved: nat)
    requires low < 0x1_0000_0000
    ensures OrdinalFits(format, ordinal, reserved) && PackOrdinal(format, ordinal, reserved) == low
  {
    if format.Arm64eUserland24? {
      DivModSum(low, 0x100_0000);
      ordinal, reserved := low % 0x100_0000, low / 0x100_0000;
    } else {
      DivModSum(low, 0x1_0000);
      ordinal, reserved := low % 0x1_0000, low / 0x1_0000;
    }
  }

  /** Any 64-bit slot of a supported format is some in-width payload packed, so that the round trip
      above says what every slot decodes to. */
  lemma {:induction false} EverySlotIsPacked(slot: u64, format: PointerFormat) returns (p: Payload, next: nat)
    requires !format.Other?
    ensures Fits(format, p, next) && Pack(format, p, next) == slot
  {
    var low, top: nat := slot % 0x8_0000_0000_0000, slot / 0x8_0000_0000_0000;
    DivModSum(slot, 0x8_0000_0000_0000);
    if format.Ptr64? || format.Ptr64Offset? {
      p, next := Ptr64Packed(low, top);
    } else {
      p, next := ArmPacked(format, low, top);
    }
  }

  lemma {:induction false} Ptr64Packed(low: nat, top: nat) returns (p: Payload, next: nat)
    requires low < 0x8_0000_0000_0000 && top < 0x2000
    ensures forall format: PointerFormat :: format.Ptr64? || format.Ptr64Offset? ==>
              Fits(format, p, next) && Pack(format, p, next) == low + 0x8_0000_0000_0000 * top
  {
    if top < 0x1000 {
      DivModSum(low, 0x10_0000_0000);
      DivModSum(low / 0x10_0000_0000, 0x100);
      p, next := Rebase64(low % 0x10_0000_0000, low / 0x10_0000_0000 % 0x100, low / 0x10_0000_0000 / 0x100), top;
    } else {
      DivModSum(low, 0x100_0000);
      DivModSum(low / 0x100_0000, 0x100);
      p, next := Bind64(low % 0x100_0000, low / 0x100_0000 % 0x100, low / 0x100_0000 / 0x100), top - 0x1000;
    }
  }

  lemma {:induction false} ArmPacked(format: PointerFormat, low: nat, top: nat) returns (p: Payload, next: nat)
    requires low < 0x8_0000_0000_0000 && top < 0x2000
    requires !format.Other? && !format.Ptr64? && !format.Ptr64Offset?
    ensures Fits(format, p, next) && Pack(format, p, next) == low + 0x8_0000_0000_0000 * top
  {
    hide *;
    if top < 0x800 {
      p := PlainRebasePacked(format, low);
      next := top;
      PackSum(format, p, top, 0, low);
    } else if top < 0x1000 {
      p := PlainBindPacked(format, low);
      next := top - 0x800;
      PackSum(format, p, next, 0x800, low);
    } else if top < 0x1800 {
      p := AuthRebasePacked(format, low);
      next := top - 0x1000;
      PackSum(format, p, next, 0x1000, low);
    } else {
      p := AuthBindPacked(format, low);
      next := top - 0x1800;
      PackSum(format, p, next, 0x1800, low);
    }
  }

  lemma {:induction false} PackSum(format: PointerFormat, p: Payload, next: nat, kind: nat, low: nat)
    requires PackFields(format, p) == low + 0x8_0000_0000_0000 * kind && Fits(format, p, 0)
    requires next < 0x800 && !format.Ptr64? && !format.Ptr64Offset?
    ensures Fits(format, p, next) && Pack(format, p, next) == low + 0x8_0000_0000_0000 * (kind + next)
  {
    hide PackFields, OrdinalFits;
  }

  lemma {:induction false} PlainRebasePacked(format: PointerFormat, low: nat) returns (p: Payload)
    requires low < 0x8_0000_0000_0000 && !format.Other? && !format.Ptr64? && !format.Ptr64Offset?
    ensures Fits(format, p, 0) && PackFields(format, p) == low + 0x8_0000_0000_0000 * 0
  {
    DivModSum(low, 0x800_0000_0000);
    p := PlainRebase(low % 0x800_0000_0000, low / 0x800_0000_0000);
  }

  lemma {:induction false} PlainBindPacked(format: PointerFormat, low: nat) returns (p: Payload)
    requires low < 0x8_0000_0000_0000 && !format.Other? && !format.Ptr64? && !format.Ptr64Offset?
    ensures Fits(format, p, 0) && PackFields(format, p) == low + 0x8_0000_0000_0000 * 0x800
  {
    DivModSum(low, 0x1_0000_0000);
    var rest := low / 0x1_0000_0000;
    var ordinal, reserved := OrdinalOfBits(format, low % 0x1_0000_0000);
    hide PackOrdinal, OrdinalFits;
    p := PlainBind(ordinal, if rest < 0x4_0000 then rest else rest - 0x8_0000, reserved);
  }

  lemma {:induction false} AuthRebasePacked(format: PointerFormat, low: nat) returns (p: Payload)
    requires low < 0x8_0000_0000_0000 && !format.Other? && !format.Ptr64? && !format.Ptr64Offset?
    ensures Fits(format, p, 0) && PackFields(format, p) == low + 0x8_0000_0000_0000 * 0x1000
  {
    DivModSum(low, 0x1_0000_0000);
    var auth := AuthOfBits(low / 0x1_0000_0000);
    hide PackAuth;
    p := AuthRebase(low % 0x1_0000_0000, auth);
  }

  lemma {:induction false} AuthBindPacked(format: PointerFormat, low: nat) returns (p: Payload)
    requires low < 0x8_0000_0000_0000 && !format.Other? && !format.Ptr64? && !format.Ptr64Offset?
    ensures Fits(format, p, 0) && PackFields(format, p) == low + 0x8_0000_0000_0000 * 0x1800
  {
    DivModSum(low, 0x1_0000_0000);
    var auth := AuthOfBits(low / 0x1_0000_0000);
    var ordinal, reserved := OrdinalOfBits(format, low % 0x1_0000_0000);
    hide PackAuth, PackOrdinal, OrdinalFits;
    p := AuthBind(ordinal, auth, reserved);
  }

  // ----- what rows say -----

  /** The addend a bind slot stores: eight bits, or nineteen signed ones, or none when authenticated. */
  function StoredAddend(slot: u64, format: PointerFormat): i64 {
    if format.IsPtr64() then slot / 0x100_0000 % 0x100
    else if slot >= 0x8000_0000_0000_0000 then 0
    else ExtractSigned19(slot)
  }

  /** What a bind row says of its site and its import. */
  predicate IsBindOf(b: Bind, slot: u64, format: PointerFormat, ctx: SlotCtx, stored: i64) {
    var import_ := ImportAt(ctx.names, b.ordinal);
    var sum := stored + import_.addend;
    && (b.segIndex, b.segmentOffset, b.vmAddress) == (ctx.segIndex, ctx.segmentOffset, ctx.vmAddress)
    && (b.rawSlot, b.format) == (slot, format)
    && (b.name, b.isWeak) == (import_.name, import_.weak)
    && b.dylib == ResolveLibOrdinal(import_.libOrdinal, ctx.names.dylibs)
    && (-U63 <= sum < U63 ==> b.addend == sum)
    && (sum >= U63 ==> b.addend == U63 - 1)
    && (sum < -U63 ==> b.addend == -U63)
  }

  lemma {:induction false} BindFields(slot: u64, format: PointerFormat, ctx: SlotCtx, ordinal: u32, stored: i64,
                                    auth: Option<PtrAuth>)
    ensures var entry := MakeBind(slot, format, ctx, ordinal, stored, auth);
            entry.BindEntry? && IsBindOf(entry.bind, slot, format, ctx, stored)
  {
    assert ResolveLibOrdinal(NO_DYLIB, ctx.names.dylibs) == "";
    hide ResolveLibOrdinal;
  }

  /** In any slot of any format a bind takes name, weak flag and dylib from the import its ordinal
      picks, adds the import's addend to the slot's without leaving i64, and is at the slot's site. */
  lemma {:induction false} BindNamesItsImport(slot: u64, format: PointerFormat, ctx: SlotCtx)
    requires DecodeChainEntry(slot, format, ctx).Some? && DecodeChainEntry(slot, format, ctx).value.0.BindEntry?
    ensures IsBindOf(DecodeChainEntry(slot, format, ctx).value.0.bind, slot, format, ctx, StoredAddend(slot, format))
  {
    assert slot / 0x8000_0000_0000_0000 == if slot < 0x8000_0000_0000_0000 then 0 else 1;
    hide MakeBind, IsBindOf, ExtractSigned19, KeyOfBits, SatAdd;
    if format.IsPtr64() {
      BindFields(slot, format, ctx, slot % 0x100_0000, StoredAddend(slot, format), None);
    } else {
      var ordinal := if format.Arm64eUserland24? then slot % 0x100_0000 else slot % 0x1_0000;
      var auth := if slot < 0x8000_0000_0000_0000 then None else Some(SlotAuth(slot));
      BindFields(slot, format, ctx, ordinal, StoredAddend(slot, format), auth);
    }
  }

  /** A rebase's high8 is documented as present in the 64-bit formats only (src/fixup.rs:546-548).
      It is so if and only if the format is one of them or the slot is authenticated. */
  lemma {:induction false} High8AsDocumentedIff(slot: u64, format: PointerFormat, ctx: SlotCtx)
    requires DecodeChainEntry(slot, format, ctx).Some? && DecodeChainEntry(slot, format, ctx).value.0.RebaseEntry?
    ensures var high8 := DecodeChainEntry(slot, format, ctx).value.0.rebase.high8;
            (high8.Some? <==> format.IsPtr64()) <==> format.IsPtr64() || slot >= 0x8000_0000_0000_0000
  {
    hide SatAdd, KeyOfBits;
    if slot < 0x8000_0000_0000_0000 {
      assert slot / 0x8000_0000_0000_0000 == 0;
    } else {
      assert slot / 0x8000_0000_0000_0000 == 1;
    }
  }

  /** A plain arm64e slot, and its documented-as-absent high8. */
  lemma {:induction false} PlainArm64eHasHigh8(ctx: SlotCtx)
    ensures var entry := DecodeChainEntry(0x7f800_0000_0000, Arm64e, ctx).value.0;
            entry.RebaseEntry? && entry.rebase.high8 == Some(0xff)
  {
    Cut(0x7f800_0000_0000, 0, 0xff, 0, 0x800_0000_0000, 0x100);
  }
}
