/** The evaluator's work and framing: how far the cursor moves, how many calls are made, and what
    an encoded expression evaluates to. */
module RequirementLaws {
  import opened Bytes
  import opened Requirement

  // ----- on arbitrary bytes -----

  /** From an aligned position within three bytes of the end, reads keep the cursor there. */
  predicate Aligned(buf: seq<byte>, pos: nat) {
    pos % 4 == 0 && pos <= |buf| + 3
  }

  function Min(a: int, b: int): int {
    if a < b then a else b
  }

  /** Bytes of the buffer between two cursor positions. */
  function Span(buf: seq<byte>, from: nat, to: nat): nat {
    if Min(to, |buf|) > from then Min(to, |buf|) - from else 0
  }

  lemma {:induction false} DataMoves(buf: seq<byte>, pos: nat)
    requires Aligned(buf, pos)
    ensures Aligned(buf, ReadData(buf, pos).pos) && ReadData(buf, pos).pos >= pos
  {
  }

  lemma {:induction false} DatasMove(buf: seq<byte>, pos: nat, count: nat)
    requires Aligned(buf, pos) && count <= 2
    ensures Aligned(buf, ReadDatas(buf, pos, count).pos) && ReadDatas(buf, pos, count).pos >= pos
  {
    hide ReadData, Aligned;
    DataMoves(buf, pos);
    DataMoves(buf, ReadData(buf, pos).pos);
  }

  lemma {:induction false} MatchMoves(buf: seq<byte>, pos: nat)
    requires Aligned(buf, pos)
    ensures Aligned(buf, ReadMatch(buf, pos).pos) && ReadMatch(buf, pos).pos >= pos
  {
    hide ReadData;
    if ReadU32(buf, pos).value.Some? {
      DataMoves(buf, pos + 4);
    }
  }

  lemma {:induction false} SlotMoves(buf: seq<byte>, pos: nat)
    requires Aligned(buf, pos)
    ensures Aligned(buf, ReadSlot(buf, pos).pos) && ReadSlot(buf, pos).pos >= pos
  {
  }

  lemma {:induction false} FieldsMove(buf: seq<byte>, pos: nat, shape: Shape)
    requires Aligned(buf, pos) && shape.dataCount <= 2
    ensures Aligned(buf, ReadFields(buf, pos, shape).pos) && ReadFields(buf, pos, shape).pos >= pos
  {
    hide ReadDatas, ReadMatch, ReadSlot, Aligned;
    SlotMoves(buf, pos);
    var p := ReadSlotIf(buf, pos, shape.slot).pos;
    DatasMove(buf, p, shape.dataCount);
    MatchMoves(buf, ReadDatas(buf, p, shape.dataCount).pos);
  }

  /** Every call but the first is one of at most two made by a node that read an opcode, and the
      opcodes read are four distinct bytes each. */
  ghost predicate Bounded(buf: seq<byte>, pos: nat, end: nat, calls: nat, ops: nat) {
    && Aligned(buf, end) && end >= pos
    && calls <= 1 + 2 * ops
    && 4 * ops <= Span(buf, pos, end)
  }

  /** A node that read its opcode at `pos` and made one call, or two in sequence. */
  lemma {:induction false} NodeBounded(buf: seq<byte>, pos: nat, left: Outcome, right: Outcome)
    requires Aligned(buf, pos) && pos + 4 <= |buf|
    requires Bounded(buf, pos + 4, left.pos, left.calls, left.ops)
    requires Bounded(buf, left.pos, right.pos, right.calls, right.ops)
    ensures Bounded(buf, pos, left.pos, 1 + left.calls, 1 + left.ops)
    ensures Bounded(buf, pos, right.pos, 1 + left.calls + right.calls, 1 + left.ops + right.ops)
  {
  }

  lemma {:induction false} LeafBounded(buf: seq<byte>, pos: nat, end: nat)
    requires Aligned(buf, pos)
    ensures Bounded(buf, pos, pos, 1, 0)
    ensures Aligned(buf, end) && pos + 4 <= |buf| && pos + 4 <= end ==> Bounded(buf, pos, end, 1, 1)
  {
  }

  lemma {:induction false} OpMoves(buf: seq<byte>, pos: nat)
    requires Aligned(buf, pos)
    ensures var op := ReadU32(buf, pos);
            if op.value.None? then op.pos == pos else op.pos == pos + 4 <= |buf| && Aligned(buf, pos + 4)
  {
  }

  lemma {:induction false} PairBounded(buf: seq<byte>, pos: nat, level: Level, word: Token, paren: bool, depth: nat)
    requires Aligned(buf, pos) && pos + 4 <= |buf| && depth <= MAX_DEPTH
    requires var left := Eval(buf, pos + 4, level, depth + 1);
             var right := Eval(buf, left.pos, level, depth + 1);
             && Bounded(buf, pos + 4, left.pos, left.calls, left.ops)
             && Bounded(buf, left.pos, right.pos, right.calls, right.ops)
    ensures var o := EvalPair(buf, pos + 4, level, word, paren, depth); Bounded(buf, pos, o.pos, o.calls, o.ops)
  {
    var left := Eval(buf, pos + 4, level, depth + 1);
    NodeBounded(buf, pos, left, Eval(buf, left.pos, level, depth + 1));
    hide Bounded, Eval, Wrap, Aligned;
  }

  lemma {:induction false} EvalBounded(buf: seq<byte>, pos: nat, level: Level, depth: nat)
    requires Aligned(buf, pos)
    ensures var o := Eval(buf, pos, level, depth); Bounded(buf, pos, o.pos, o.calls, o.ops)
    decreases MAX_DEPTH + 1 - depth
  {
    hide Bounded, EvalPair, Wrap, ReadFields, ShapeOf, ReadU32, Aligned;
    OpMoves(buf, pos);
    LeafBounded(buf, pos, pos);
    var op := ReadU32(buf, pos);
    if depth <= MAX_DEPTH && op.value.Some? {
      var code := op.value.value;
      if code == OP_AND || code == OP_OR {
        var inner := if code == OP_AND then AndLevel else OrLevel;
        EvalBounded(buf, pos + 4, inner, depth + 1);
        var left := Eval(buf, pos + 4, inner, depth + 1);
        BoundedEnds(buf, pos + 4, left);
        EvalBounded(buf, left.pos, inner, depth + 1);
        PairBounded(buf, pos, inner, if code == OP_AND then AndWord else OrWord, level.Below(inner), depth);
      } else if code == OP_NOT {
        EvalBounded(buf, pos + 4, Primary, depth + 1);
        var only := Eval(buf, pos + 4, Primary, depth + 1);
        BoundedEnds(buf, pos + 4, only);
        LeafBounded(buf, only.pos, only.pos);
        NodeBounded(buf, pos, only, Outcome(None, only.pos, 1, 0));
      } else {
        FieldsMove(buf, pos + 4, ShapeOf(code));
        LeafBounded(buf, pos, ReadFields(buf, pos + 4, ShapeOf(code)).pos);
      }
    }
  }

  lemma {:induction false} BoundedEnds(buf: seq<byte>, pos: nat, o: Outcome)
    requires Bounded(buf, pos, o.pos, o.calls, o.ops)
    ensures Aligned(buf, o.pos)
  {
  }

  /** On arbitrary bytes: the cursor ends 4-aligned and at most three bytes past the end, after at
      most 1 + 2 * (length / 4) node calls. */
  lemma {:induction false} EvaluationIsLinear(buf: seq<byte>)
    ensures var o := Eval(buf, 0, Top, 0);
            && o.pos % 4 == 0 && o.pos <= |buf| + 3
            && o.calls <= 1 + 2 * (|buf| / 4)
  {
    hide Eval;
    EvalBounded(buf, 0, Top, 0);
  }

  // ----- encoding -----

  predicate ValidMatch(m: Match) {
    |m.operand| < U32 && (1 <= m.op <= 8 || m.operand == [])
  }

  predicate Encodable(ds: seq<seq<byte>>) {
    forall i :: 0 <= i < |ds| ==> |ds[i]| < U32
  }

  predicate ValidFields(shape: Shape, f: Fields) {
    && (shape.slot || f.slot == 0)
    && |f.data| == shape.dataCount <= 2
    && Encodable(f.data)
    && (if shape.match_ then ValidMatch(f.match_) else f.match_ == NO_MATCH)
  }

  /** Neither slot, nor data beyond `count` fields, nor match suffix. */
  predicate OnlyData(f: Fields, count: nat) {
    f.slot == 0 && |f.data| == count && f.match_ == Match(0, [])
  }

  /** The fields of each opcode, 6, 7 and 9 being the connectives. */
  predicate ValidLeaf(leaf: Leaf) {
    && leaf.Leaf? && Encodable(leaf.fields.data)
    && var f := leaf.fields;
       match leaf.op
       case 6 | 7 | 9 => false
       case 2 | 8 | 18 | 19 => OnlyData(f, 1)
       case 5 => OnlyData(f, 2)
       case 4 => |f.data| == 1 && f.match_ == Match(0, [])
       case 12 => f.data == [] && f.match_ == Match(0, [])
       case 10 | 16 => f.slot == 0 && |f.data| == 1 && ValidMatch(f.match_)
       case 11 | 14 | 17 => |f.data| == 1 && ValidMatch(f.match_)
       case _ => OnlyData(f, 0)
  }

  predicate ValidExpr(e: Expr) {
    match e
    case Atom(leaf) => ValidLeaf(leaf)
    case And(l, r) => ValidExpr(l) && ValidExpr(r)
    case Or(l, r) => ValidExpr(l) && ValidExpr(r)
    case Not(x) => ValidExpr(x)
  }

  function Height(e: Expr): nat {
    match e
    case Atom(_) => 0
    case And(l, r) => 1 + if Height(l) > Height(r) then Height(l) else Height(r)
    case Or(l, r) => 1 + if Height(l) > Height(r) then Height(l) else Height(r)
    case Not(x) => 1 + Height(x)
  }

  function Nodes(e: Expr): nat {
    match e
    case Atom(_) => 1
    case And(l, r) => 1 + Nodes(l) + Nodes(r)
    case Or(l, r) => 1 + Nodes(l) + Nodes(r)
    case Not(x) => 1 + Nodes(x)
  }

  function EncodeU32(v: u32): seq<byte> {
    BeBytes(v, 4)
  }

  function EncodeData(d: seq<byte>): seq<byte>
    requires |d| < U32
  {
    EncodeU32(|d|) + d + seq(RoundUp4(|d|) - |d|, _ => 0)
  }

  function EncodeDatas(ds: seq<seq<byte>>): seq<byte>
    requires Encodable(ds)
  {
    if ds == [] then [] else EncodeData(ds[0]) + EncodeDatas(ds[1..])
  }

  function EncodeMatch(m: Match): seq<byte>
    requires ValidMatch(m)
  {
    EncodeU32(m.op) + if 1 <= m.op <= 8 then EncodeData(m.operand) else []
  }

  function EncodeSlotIf(slot: i32, present: bool): seq<byte> {
    if present then EncodeU32(if slot < 0 then slot + U32 else slot) else []
  }

  function EncodeMatchIf(m: Match, present: bool): seq<byte>
    requires present ==> ValidMatch(m)
  {
    if present then EncodeMatch(m) else []
  }

  function EncodeFields(shape: Shape, f: Fields): seq<byte>
    requires ValidFields(shape, f)
  {
    EncodeSlotIf(f.slot, shape.slot) + EncodeDatas(f.data) + EncodeMatchIf(f.match_, shape.match_)
  }

  function EncodeSlot(slot: i32): seq<byte> {
    EncodeU32(if slot < 0 then slot + 0x1_0000_0000 else slot)
  }

  /** The bytes of each leaf, opcode by opcode. */
  function LeafBytes(leaf: Leaf): seq<byte>
    requires ValidLeaf(leaf)
  {
    var f := leaf.fields;
    EncodeU32(leaf.op) +
    match leaf.op
    case 2 | 8 | 18 | 19 => EncodeData(f.data[0])
    case 5 => EncodeData(f.data[0]) + EncodeData(f.data[1])
    case 4 => EncodeSlot(f.slot) + EncodeData(f.data[0])
    case 12 => EncodeSlot(f.slot)
    case 10 | 16 => EncodeData(f.data[0]) + EncodeMatch(f.match_)
    case 11 | 14 | 17 => EncodeSlot(f.slot) + EncodeData(f.data[0]) + EncodeMatch(f.match_)
    case _ => []
  }

  /** Prefix bytecode, as Security.framework stores it. */
  function Encode(e: Expr): seq<byte>
    requires ValidExpr(e)
  {
    match e
    case Atom(leaf) => LeafBytes(leaf)
    case And(l, r) => EncodeU32(6) + Encode(l) + Encode(r)
    case Or(l, r) => EncodeU32(7) + Encode(l) + Encode(r)
    case Not(x) => EncodeU32(9) + Encode(x)
  }

  lemma {:induction false} FewDatas(ds: seq<seq<byte>>)
    requires Encodable(ds) && |ds| <= 2
    ensures |ds| == 0 ==> EncodeDatas(ds) == []
    ensures |ds| == 1 ==> EncodeDatas(ds) == EncodeData(ds[0])
    ensures |ds| == 2 ==> EncodeDatas(ds) == EncodeData(ds[0]) + EncodeData(ds[1])
  {
    hide EncodeData;
    if |ds| == 2 {
      var last := [ds[1]];
      assert ds[1..] == last && last[1..] == [];
      assert EncodeDatas(last) == EncodeData(ds[1]) + EncodeDatas([]);
      assert EncodeData(ds[1]) + [] == EncodeData(ds[1]);
    }
  }

  /** The evaluator's field order is that of the leaf's bytes, for every opcode. */
  lemma {:induction false} LeafLayout(leaf: Leaf)
    requires ValidLeaf(leaf)
    ensures ValidFields(ShapeOf(leaf.op), leaf.fields)
    ensures LeafBytes(leaf) == EncodeU32(leaf.op) + EncodeFields(ShapeOf(leaf.op), leaf.fields)
  {
    hide EncodeData, EncodeDatas, EncodeMatch, EncodeU32, ValidMatch;
    FewDatas(leaf.fields.data);
  }

  /** The text of an expression: parentheses only where the level demands them. */
  function Emit(e: Expr, level: Level): Text {
    match e
    case Atom(leaf) => [LeafText(leaf)]
    case And(l, r) => Wrap(level.Below(AndLevel), Emit(l, AndLevel) + [AndWord] + Emit(r, AndLevel))
    case Or(l, r) => Wrap(level.Below(OrLevel), Emit(l, OrLevel) + [OrWord] + Emit(r, OrLevel))
    case Not(x) => [Bang] + Emit(x, Primary)
  }

  // ----- framing -----

  /** `piece` lies in the buffer at `pos`. */
  predicate At(buf: seq<byte>, pos: nat, piece: seq<byte>) {
    pos + |piece| <= |buf| && buf[pos..pos + |piece|] == piece
  }

  lemma {:induction false} AtSplit(buf: seq<byte>, pos: nat, a: seq<byte>, b: seq<byte>)
    requires At(buf, pos, a + b)
    ensures At(buf, pos, a) && At(buf, pos + |a|, b)
  {
    var piece := buf[pos..pos + |a + b|];
    assert piece[..|a|] == a && piece[|a|..] == b;
  }

  lemma {:induction false} AtSplit3(buf: seq<byte>, pos: nat, a: seq<byte>, b: seq<byte>, c: seq<byte>)
    requires At(buf, pos, a + b + c)
    ensures At(buf, pos, a) && At(buf, pos + |a|, b) && At(buf, pos + |a| + |b|, c)
    ensures |a + b + c| == |a| + |b| + |c|
  {
    hide At;
    AtSplit(buf, pos, a + b, c);
    AtSplit(buf, pos, a, b);
  }

  lemma {:induction false} U32At(buf: seq<byte>, pos: nat, v: u32)
    requires At(buf, pos, EncodeU32(v))
    ensures ReadU32(buf, pos) == Read(Some(v), pos + 4)
  {
    Pow2Is(32);
    BeRoundTrip(v, 4);
  }

  lemma {:induction false} DataAt(buf: seq<byte>, pos: nat, d: seq<byte>)
    requires |d| < U32 && At(buf, pos, EncodeData(d))
    ensures ReadData(buf, pos) == Read(Some(d), pos + |EncodeData(d)|)
  {
    var padding := seq(RoundUp4(|d|) - |d|, _ => 0);
    AtSplit(buf, pos, EncodeU32(|d|) + d, padding);
    AtSplit(buf, pos, EncodeU32(|d|), d);
    U32At(buf, pos, |d|);
  }

  lemma {:induction false} DatasAt(buf: seq<byte>, pos: nat, ds: seq<seq<byte>>)
    requires |ds| <= 2 && Encodable(ds) && At(buf, pos, EncodeDatas(ds))
    ensures ReadDatas(buf, pos, |ds|) == Read(Some(ds), pos + |EncodeDatas(ds)|)
  {
    hide ReadData, EncodeData;
    if |ds| >= 1 {
      AtSplit(buf, pos, EncodeData(ds[0]), EncodeDatas(ds[1..]));
      DataAt(buf, pos, ds[0]);
      if |ds| == 1 {
        assert ds == [ds[0]] && ds[1..] == [];
      } else {
        var next := pos + |EncodeData(ds[0])|;
        assert ds == [ds[0], ds[1]] && ds[1..] == [ds[1]];
        assert EncodeDatas(ds[1..]) == EncodeData(ds[1]) + [];
        DataAt(buf, next, ds[1]);
      }
    }
  }

  lemma {:induction false} MatchAt(buf: seq<byte>, pos: nat, m: Match)
    requires ValidMatch(m) && At(buf, pos, EncodeMatch(m))
    ensures ReadMatch(buf, pos) == Read(Some(m), pos + |EncodeMatch(m)|)
  {
    hide ReadData, EncodeData;
    AtSplit(buf, pos, EncodeU32(m.op), if 1 <= m.op <= 8 then EncodeData(m.operand) else []);
    U32At(buf, pos, m.op);
    if 1 <= m.op <= 8 {
      DataAt(buf, pos + 4, m.operand);
    }
  }

  lemma {:induction false} SlotAt(buf: seq<byte>, pos: nat, slot: i32, present: bool)
    requires At(buf, pos, EncodeSlotIf(slot, present)) && (present || slot == 0)
    ensures ReadSlotIf(buf, pos, present) == Read(Some(slot), pos + |EncodeSlotIf(slot, present)|)
  {
    if present {
      U32At(buf, pos, if slot < 0 then slot + U32 else slot);
      hide ReadU32;
    }
  }

  lemma {:induction false} MatchIfAt(buf: seq<byte>, pos: nat, m: Match, present: bool)
    requires (if present then ValidMatch(m) else m == NO_MATCH) && At(buf, pos, EncodeMatchIf(m, present))
    ensures ReadMatchIf(buf, pos, present) == Read(Some(m), pos + |EncodeMatchIf(m, present)|)
  {
    if present {
      MatchAt(buf, pos, m);
    }
  }

  lemma {:induction false} JoinFields(buf: seq<byte>, pos: nat, shape: Shape, f: Fields, p: nat, q: nat, end: nat)
    requires shape.dataCount <= 2
    requires ReadSlotIf(buf, pos, shape.slot) == Read(Some(f.slot), p)
    requires ReadDatas(buf, p, shape.dataCount) == Read(Some(f.data), q)
    requires ReadMatchIf(buf, q, shape.match_) == Read(Some(f.match_), end)
    ensures ReadFields(buf, pos, shape) == Read(Some(f), end)
  {
    hide ReadDatas, ReadMatchIf, ReadSlotIf;
  }

  lemma {:induction false} FieldsParts(shape: Shape, f: Fields)
    requires ValidFields(shape, f)
    ensures |f.data| == shape.dataCount <= 2 && Encodable(f.data)
    ensures (shape.slot || f.slot == 0) && (if shape.match_ then ValidMatch(f.match_) else f.match_ == NO_MATCH)
    ensures EncodeFields(shape, f)
         == EncodeSlotIf(f.slot, shape.slot) + EncodeDatas(f.data) + EncodeMatchIf(f.match_, shape.match_)
  {
    hide EncodeSlotIf, EncodeDatas, EncodeMatchIf, Encodable, ValidMatch;
  }

  lemma {:induction false} PartsAt(buf: seq<byte>, pos: nat, shape: Shape, f: Fields,
                                   slot: seq<byte>, data: seq<byte>, suffix: seq<byte>)
    requires |f.data| == shape.dataCount <= 2 && Encodable(f.data)
    requires (shape.slot || f.slot == 0) && (if shape.match_ then ValidMatch(f.match_) else f.match_ == NO_MATCH)
    requires slot == EncodeSlotIf(f.slot, shape.slot) && data == EncodeDatas(f.data)
    requires suffix == EncodeMatchIf(f.match_, shape.match_)
    requires At(buf, pos, slot + data + suffix)
    ensures ReadFields(buf, pos, shape) == Read(Some(f), pos + |slot + data + suffix|)
  {
    hide *;
    AtSplit3(buf, pos, slot, data, suffix);
    SlotAt(buf, pos, f.slot, shape.slot);
    DatasAt(buf, pos + |slot|, f.data);
    MatchIfAt(buf, pos + |slot| + |data|, f.match_, shape.match_);
    JoinFields(buf, pos, shape, f, pos + |slot|, pos + |slot| + |data|, pos + |slot| + |data| + |suffix|);
  }

  lemma {:induction false} FieldsAt(buf: seq<byte>, pos: nat, shape: Shape, f: Fields)
    requires ValidFields(shape, f) && At(buf, pos, EncodeFields(shape, f))
    ensures ReadFields(buf, pos, shape) == Read(Some(f), pos + |EncodeFields(shape, f)|)
  {
    FieldsParts(shape, f);
    hide *;
    PartsAt(buf, pos, shape, f, EncodeSlotIf(f.slot, shape.slot), EncodeDatas(f.data),
            EncodeMatchIf(f.match_, shape.match_));
  }

  lemma {:induction false} U32Length(v: u32)
    ensures |EncodeU32(v)| == 4
  {
  }

  /** What a node whose opcode can be read evaluates. */
  lemma {:induction false} EvalOp(buf: seq<byte>, pos: nat, op: u32, level: Level, depth: nat)
    requires depth <= MAX_DEPTH && ReadU32(buf, pos) == Read(Some(op), pos + 4)
    ensures var o := Eval(buf, pos, level, depth);
            if op == OP_AND then o == EvalPair(buf, pos + 4, AndLevel, AndWord, level.Below(AndLevel), depth)
            else if op == OP_OR then o == EvalPair(buf, pos + 4, OrLevel, OrWord, level.Below(OrLevel), depth)
            else if op == OP_NOT then
              var inner := Eval(buf, pos + 4, Primary, depth + 1);
              o == Outcome(if inner.text.Some? then Some([Bang] + inner.text.value) else None,
                           inner.pos, 1 + inner.calls, 1 + inner.ops)
            else
              var fields := ReadFields(buf, pos + 4, ShapeOf(op));
              o == Outcome(if fields.value.Some? then Some([LeafText(Leaf(op, fields.value.value))]) else None,
                           fields.pos, 1, 1)
  {
    hide ReadU32, ReadFields, ShapeOf, EvalPair;
  }

  /** An encoded expression no deeper than the cap evaluates to its text, consuming exactly its
      encoding in one call per node. */
  lemma {:induction false} EvalEncoded(buf: seq<byte>, pos: nat, e: Expr, level: Level, depth: nat)
    requires ValidExpr(e) && Height(e) + depth <= 64 && At(buf, pos, Encode(e))
    ensures Eval(buf, pos, level, depth)
         == Outcome(Some(Emit(e, level)), pos + |Encode(e)|, Nodes(e), Nodes(e))
    decreases e
  {
    hide Eval, ReadFields, ShapeOf, EncodeU32, LeafBytes, ReadU32, At, Wrap, ValidLeaf, EvalPair;
    match e {
      case Atom(leaf) =>
        AtomAt(buf, pos, leaf);
        EvalOp(buf, pos, leaf.op, level, depth);
      case And(l, r) =>
        PairAt(buf, pos, 6, l, r);
        EvalOp(buf, pos, 6, level, depth);
        EvalEncoded(buf, pos + 4, l, AndLevel, depth + 1);
        EvalEncoded(buf, pos + 4 + |Encode(l)|, r, AndLevel, depth + 1);
        PairOutcome(buf, pos + 4, AndLevel, AndWord, level.Below(AndLevel), depth);
      case Or(l, r) =>
        PairAt(buf, pos, 7, l, r);
        EvalOp(buf, pos, 7, level, depth);
        EvalEncoded(buf, pos + 4, l, OrLevel, depth + 1);
        EvalEncoded(buf, pos + 4 + |Encode(l)|, r, OrLevel, depth + 1);
        PairOutcome(buf, pos + 4, OrLevel, OrWord, level.Below(OrLevel), depth);
      case Not(x) =>
        AtSplit(buf, pos, EncodeU32(9), Encode(x));
        U32At(buf, pos, 9);
        U32Length(9);
        EvalOp(buf, pos, 9, level, depth);
        EvalEncoded(buf, pos + 4, x, Primary, depth + 1);
    }
  }

  lemma {:induction false} PairOutcome(buf: seq<byte>, pos: nat, level: Level, word: Token, paren: bool, depth: nat)
    requires depth <= 64
    ensures var left := Eval(buf, pos, level, depth + 1);
            var right, pair := Eval(buf, left.pos, level, depth + 1), EvalPair(buf, pos, level, word, paren, depth);
            && (left.text.None? ==> pair.text.None?)
            && (left.text.Some? && right.text.None? ==> pair.text.None?)
            && (left.text.Some? && right.text.Some? ==>
                  pair == Outcome(Some(Wrap(paren, left.text.value + [word] + right.text.value)), right.pos,
                                  1 + left.calls + right.calls, 1 + left.ops + right.ops))
  {
    hide Eval, Wrap;
  }

  lemma {:induction false} AtomAt(buf: seq<byte>, pos: nat, leaf: Leaf)
    requires ValidLeaf(leaf) && At(buf, pos, LeafBytes(leaf))
    ensures ReadU32(buf, pos) == Read(Some(leaf.op), pos + 4)
    ensures ReadFields(buf, pos + 4, ShapeOf(leaf.op)) == Read(Some(leaf.fields), pos + |LeafBytes(leaf)|)
    ensures leaf == Leaf(leaf.op, leaf.fields) && leaf.op != 6 && leaf.op != 7 && leaf.op != 9
  {
    LeafLayout(leaf);
    hide ReadFields, ShapeOf, ReadU32, EncodeFields, ValidFields, At, LeafBytes;
    AtSplit(buf, pos, EncodeU32(leaf.op), EncodeFields(ShapeOf(leaf.op), leaf.fields));
    U32At(buf, pos, leaf.op);
    U32Length(leaf.op);
    FieldsAt(buf, pos + 4, ShapeOf(leaf.op), leaf.fields);
  }

  lemma {:induction false} PairAt(buf: seq<byte>, pos: nat, op: u32, l: Expr, r: Expr)
    requires ValidExpr(l) && ValidExpr(r) && At(buf, pos, EncodeU32(op) + Encode(l) + Encode(r))
    ensures |EncodeU32(op)| == 4 && ReadU32(buf, pos) == Read(Some(op), pos + 4)
    ensures At(buf, pos + 4, Encode(l)) && At(buf, pos + 4 + |Encode(l)|, Encode(r))
  {
    hide Encode, ReadU32;
    AtSplit(buf, pos, EncodeU32(op) + Encode(l), Encode(r));
    AtSplit(buf, pos, EncodeU32(op), Encode(l));
    U32At(buf, pos, op);
    U32Length(op);
  }

  // ----- past the depth cap -----

  lemma {:induction false} WrapKeeps(paren: bool, text: Text, leaf: Leaf)
    ensures LeafText(leaf) in Wrap(paren, text) <==> LeafText(leaf) in text
  {
    var token := LeafText(leaf);
    if token in text {
      var i :| 0 <= i < |text| && text[i] == token;
      assert ([LParen] + text + [RParen])[i + 1] == token;
    }
  }

  lemma {:induction false} EmitIsComplete(e: Expr, level: Level)
    requires ValidExpr(e)
    ensures LeafText(TooDeep) !in Emit(e, level)
  {
    match e {
      case Atom(_) =>
      case And(l, r) =>
        EmitIsComplete(l, AndLevel);
        EmitIsComplete(r, AndLevel);
        WrapKeeps(level.Below(AndLevel), Emit(l, AndLevel) + [AndWord] + Emit(r, AndLevel), TooDeep);
      case Or(l, r) =>
        EmitIsComplete(l, OrLevel);
        EmitIsComplete(r, OrLevel);
        WrapKeeps(level.Below(OrLevel), Emit(l, OrLevel) + [OrWord] + Emit(r, OrLevel), TooDeep);
      case Not(x) =>
        EmitIsComplete(x, Primary);
    }
  }

  predicate Cut(o: Outcome) {
    o.text.Some? ==> LeafText(TooDeep) in o.text.value
  }

  /** A pair one of whose sides is cut is cut. */
  lemma {:induction false} PairCut(buf: seq<byte>, pos: nat, level: Level, word: Token, paren: bool, depth: nat)
    requires depth <= 64
    requires var left := Eval(buf, pos, level, depth + 1);
             Cut(left) || Cut(Eval(buf, left.pos, level, depth + 1))
    ensures Cut(EvalPair(buf, pos, level, word, paren, depth))
  {
    var left := Eval(buf, pos, level, depth + 1);
    var right := Eval(buf, left.pos, level, depth + 1);
    PairOutcome(buf, pos, level, word, paren, depth);
    hide Eval, EvalPair, Wrap;
    if left.text.Some? && right.text.Some? {
      WrapKeeps(paren, left.text.value + [word] + right.text.value, TooDeep);
    }
  }

  lemma {:induction false} DeepIsCut(buf: seq<byte>, pos: nat, e: Expr, level: Level, depth: nat)
    requires ValidExpr(e) && depth <= 64 + 1 < Height(e) + depth + 1 && At(buf, pos, Encode(e))
    ensures Cut(Eval(buf, pos, level, depth))
    decreases e, 0
  {
    hide EncodeU32, ReadU32, At, Wrap, EvalPair;
    if depth <= 64 {
      match e {
        case Atom(_) => assert false;
        case And(l, r) =>
          PairAt(buf, pos, 6, l, r);
          DeepPair(buf, pos + 4, l, r, AndLevel, AndWord, level.Below(AndLevel), depth);
        case Or(l, r) =>
          PairAt(buf, pos, 7, l, r);
          DeepPair(buf, pos + 4, l, r, OrLevel, OrWord, level.Below(OrLevel), depth);
        case Not(x) =>
          AtSplit(buf, pos, EncodeU32(9), Encode(x));
          U32At(buf, pos, 9);
          U32Length(9);
          DeepIsCut(buf, pos + 4, x, Primary, depth + 1);
      }
    }
  }

  lemma {:induction false} DeepPair(buf: seq<byte>, pos: nat, l: Expr, r: Expr, level: Level, word: Token,
                                    paren: bool, depth: nat)
    requires ValidExpr(l) && ValidExpr(r) && At(buf, pos, Encode(l)) && At(buf, pos + |Encode(l)|, Encode(r))
    requires depth <= 64 && (Height(l) + depth >= 64 || Height(r) + depth >= 64)
    ensures Cut(EvalPair(buf, pos, level, word, paren, depth))
    decreases if Height(l) + depth >= 64 then l else r, 1
  {
    hide Eval, EvalPair, Encode, At, Cut;
    if Height(l) + depth >= 64 {
      DeepIsCut(buf, pos, l, level, depth + 1);
    } else {
      EvalEncoded(buf, pos, l, level, depth + 1);
      DeepIsCut(buf, pos + |Encode(l)|, r, level, depth + 1);
    }
    PairCut(buf, pos, level, word, paren, depth);
  }

  /** The cap, exactly: an encoded expression comes out as its own text if and only if its height
      is at most 64. */
  lemma {:induction false} FaithfulIffShallow(e: Expr)
    requires ValidExpr(e)
    ensures Eval(Encode(e), 0, Top, 0).text == Some(Emit(e, Top)) <==> Height(e) <= 64
  {
    hide Eval, Encode, Emit, Height, ValidExpr;
    assert At(Encode(e), 0, Encode(e));
    if Height(e) <= 64 {
      EvalEncoded(Encode(e), 0, e, Top, 0);
    } else {
      DeepIsCut(Encode(e), 0, e, Top, 0);
      EmitIsComplete(e, Top);
    }
  }

  // ----- requirement blobs -----

  function DecodeBlob(vector: seq<byte>, off: nat): Option<Text> {
    var magic :- ReadU32Be(vector, off);
    if magic != MAGIC then None
    else
      var length :- ReadU32Be(vector, off + 4);
      if off + 12 > off + length || off + length > |vector| then None
      else Eval(vector[off + 12..off + length], 0, Top, 0).text
  }

  method DecodeRequirementBlob(vector: seq<byte>, off: nat) returns (text: Option<Text>)
    ensures text == DecodeBlob(vector, off)
  {
    hide ReadU32Be, Eval;
    var magic := ReadU32Be(vector, off);
    if magic.None? || magic.value != MAGIC {
      return None;
    }
    var length := ReadU32Be(vector, off + 4);
    if length.None? || off + 12 > off + length.value || off + length.value > |vector| {
      return None;
    }
    var cursor := new ReqCursor(vector[off + 12..off + length.value]);
    ghost var calls;
    text, calls := EvalExpression(cursor, Top, 0);
  }

  function EncodeBlob(e: Expr, kind: u32): seq<byte>
    requires ValidExpr(e) && 12 + |Encode(e)| < U32
  {
    EncodeU32(0xfade_0c00) + EncodeU32(12 + |Encode(e)|) + EncodeU32(kind) + Encode(e)
  }

  lemma {:induction false} BlobFields(vector: seq<byte>, off: nat, length: u32, kind: u32, code: seq<byte>)
    requires At(vector, off, EncodeU32(0xfade_0c00) + EncodeU32(length) + EncodeU32(kind) + code)
    requires length == 12 + |code|
    ensures ReadU32Be(vector, off) == Some(0xfade_0c00) && ReadU32Be(vector, off + 4) == Some(length)
    ensures off + length <= |vector| && vector[off + 12..off + length] == code
  {
    U32Length(0xfade_0c00);
    U32Length(length);
    U32Length(kind);
    var header := EncodeU32(0xfade_0c00) + EncodeU32(length) + EncodeU32(kind);
    hide EncodeU32, ReadU32Be;
    AtSplit(vector, off, header, code);
    AtSplit3(vector, off, EncodeU32(0xfade_0c00), EncodeU32(length), EncodeU32(kind));
    U32At(vector, off, 0xfade_0c00);
    U32At(vector, off + 4, length);
    assert |header| == 12;
  }

  /** A blob anywhere in a requirements vector decodes to its expression's text. */
  lemma {:induction false} BlobRoundTrip(vector: seq<byte>, off: nat, e: Expr, kind: u32)
    requires ValidExpr(e) && Height(e) <= 64 && 12 + |Encode(e)| < U32
    requires At(vector, off, EncodeBlob(e, kind))
    ensures DecodeBlob(vector, off) == Some(Emit(e, Top))
  {
    hide Eval, Encode, Emit, ReadU32Be, EncodeU32, Height, ValidExpr;
    BlobFields(vector, off, 12 + |Encode(e)|, kind, Encode(e));
    assert At(Encode(e), 0, Encode(e));
    EvalEncoded(Encode(e), 0, e, Top, 0);
  }

  /** Nothing else decodes: a blob that does has the magic word, and a length that covers its header
      and stays inside the vector. */
  lemma {:induction false} OtherBlobsRefused(vector: seq<byte>, off: nat)
    requires DecodeBlob(vector, off).Some?
    ensures ReadU32Be(vector, off) == Some(0xfade_0c00)
    ensures var length := ReadU32Be(vector, off + 4);
            length.Some? && 12 <= length.value && off + length.value <= |vector|
  {
    hide ReadU32Be, Eval;
  }
}
