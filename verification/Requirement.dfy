/** The code-requirement evaluator (src/codesign.rs): bytecode to text with minimal parentheses.
    A leaf's text is one token, determined by its opcode and decoded fields. */
module Requirement {
  import opened Bytes

  const MAX_DEPTH: nat := 64
  const MAGIC: u32 := 0xfade_0c00

  const OP_AND: u32 := 6
  const OP_OR: u32 := 7
  const OP_NOT: u32 := 9

  // ----- expressions and text -----

  /** A match suffix; operators 1 to 8 have an operand. */
  datatype Match = Match(op: u32, operand: seq<byte>)

  datatype Fields = Fields(slot: i32, data: seq<seq<byte>>, match_: Match)

  datatype Leaf = Leaf(op: u32, fields: Fields) | TooDeep

  datatype Expr = Atom(leaf: Leaf) | And(left: Expr, right: Expr) | Or(left: Expr, right: Expr) | Not(inner: Expr)

  datatype Token = LParen | RParen | AndWord | OrWord | Bang | LeafText(leaf: Leaf)

  type Text = seq<Token>

  /** Syntax levels, tightest first. */
  datatype Level = Primary | AndLevel | OrLevel | Top {
    function Rank(): nat {
      match this
      case Primary => 0
      case AndLevel => 1
      case OrLevel => 2
      case Top => 3
    }

    predicate Below(other: Level) {
      Rank() < other.Rank()
    }
  }

  function Wrap(paren: bool, text: Text): Text {
    if paren then [LParen] + text + [RParen] else text
  }

  // ----- reading fields -----

  /** What a read yields and where it leaves the cursor. */
  datatype Read<+T> = Read(value: Option<T>, pos: nat)

  function ReadU32(buf: seq<byte>, pos: nat): Read<u32> {
    var v := ReadU32Be(buf, pos);
    Read(v, if v.Some? then pos + 4 else pos)
  }

  /** A length-prefixed field; its padding is skipped, whether or not it is there. */
  function ReadData(buf: seq<byte>, pos: nat): Read<seq<byte>> {
    var len := ReadU32(buf, pos);
    if len.value.None? then Read(None, len.pos)
    else
      var end := len.pos + len.value.value;
      if end > |buf| then Read(None, len.pos)
      else Read(Some(buf[len.pos..end]), len.pos + RoundUp4(len.value.value))
  }

  function AsI32(v: u32): i32 {
    if v < 0x8000_0000 then v else v - 0x1_0000_0000
  }

  function ReadSlot(buf: seq<byte>, pos: nat): Read<i32> {
    var v := ReadU32(buf, pos);
    Read(if v.value.Some? then Some(AsI32(v.value.value)) else None, v.pos)
  }

  function ReadMatch(buf: seq<byte>, pos: nat): Read<Match> {
    var op := ReadU32(buf, pos);
    if op.value.None? then Read(None, op.pos)
    else if 1 <= op.value.value <= 8 then
      var operand := ReadData(buf, op.pos);
      Read(if operand.value.Some? then Some(Match(op.value.value, operand.value.value)) else None, operand.pos)
    else Read(Some(Match(op.value.value, [])), op.pos)
  }

  /** What follows an opcode, in order: a certificate slot, data fields, a match suffix. */
  datatype Shape = Shape(slot: bool, dataCount: nat, match_: bool)

  function ShapeOf(op: u32): (s: Shape)
    ensures s.dataCount <= 2
  {
    match op
    case 2 => Shape(false, 1, false)   // identifier
    case 4 => Shape(true, 1, false)    // certificate hash
    case 5 => Shape(false, 2, false)   // info key = value
    case 8 => Shape(false, 1, false)   // cdhash
    case 10 => Shape(false, 1, true)   // info key field
    case 11 => Shape(true, 1, true)    // certificate field
    case 12 => Shape(true, 0, false)   // certificate trusted
    case 14 => Shape(true, 1, true)    // certificate field OID
    case 16 => Shape(false, 1, true)   // entitlement field
    case 17 => Shape(true, 1, true)    // certificate policy OID
    case 18 => Shape(false, 1, false)  // named anchor
    case 19 => Shape(false, 1, false)  // named code
    case _ => Shape(false, 0, false)   // constants, and opcodes it does not know
  }

  function ReadDatas(buf: seq<byte>, pos: nat, count: nat): Read<seq<seq<byte>>>
    requires count <= 2
  {
    if count == 0 then Read(Some([]), pos)
    else
      var first := ReadData(buf, pos);
      if first.value.None? then Read(None, first.pos)
      else if count == 1 then Read(Some([first.value.value]), first.pos)
      else
        var second := ReadData(buf, first.pos);
        Read(if second.value.Some? then Some([first.value.value, second.value.value]) else None, second.pos)
  }

  const NO_MATCH := Match(0, [])

  function ReadSlotIf(buf: seq<byte>, pos: nat, present: bool): Read<i32> {
    if present then ReadSlot(buf, pos) else Read(Some(0), pos)
  }

  function ReadMatchIf(buf: seq<byte>, pos: nat, present: bool): Read<Match> {
    if present then ReadMatch(buf, pos) else Read(Some(NO_MATCH), pos)
  }

  function ReadFields(buf: seq<byte>, pos: nat, shape: Shape): Read<Fields>
    requires shape.dataCount <= 2
  {
    var slot := ReadSlotIf(buf, pos, shape.slot);
    if slot.value.None? then Read(None, slot.pos)
    else
      var data := ReadDatas(buf, slot.pos, shape.dataCount);
      if data.value.None? then Read(None, data.pos)
      else
        var suffix := ReadMatchIf(buf, data.pos, shape.match_);
        Read(if suffix.value.Some? then Some(Fields(slot.value.value, data.value.value, suffix.value.value)) else None,
             suffix.pos)
  }

  // ----- evaluation -----

  /** Text and final position of evaluating a node, with the number of node calls made and of
      opcodes read. */
  datatype Outcome = Outcome(text: Option<Text>, pos: nat, calls: nat, ops: nat)

  function Eval(buf: seq<byte>, pos: nat, level: Level, depth: nat): Outcome
    decreases MAX_DEPTH + 1 - depth, 1
  {
    if depth > MAX_DEPTH then Outcome(Some([LeafText(TooDeep)]), pos, 1, 0)
    else
      var op := ReadU32(buf, pos);
      if op.value.None? then Outcome(None, op.pos, 1, 0)
      else if op.value.value == OP_AND then
        EvalPair(buf, op.pos, AndLevel, AndWord, level.Below(AndLevel), depth)
      else if op.value.value == OP_OR then
        EvalPair(buf, op.pos, OrLevel, OrWord, level.Below(OrLevel), depth)
      else if op.value.value == OP_NOT then
        var inner := Eval(buf, op.pos, Primary, depth + 1);
        Outcome(if inner.text.Some? then Some([Bang] + inner.text.value) else None,
                inner.pos, 1 + inner.calls, 1 + inner.ops)
      else
        var fields := ReadFields(buf, op.pos, ShapeOf(op.value.value));
        Outcome(if fields.value.Some? then Some([LeafText(Leaf(op.value.value, fields.value.value))]) else None,
                fields.pos, 1, 1)
  }

  function EvalPair(buf: seq<byte>, pos: nat, level: Level, word: Token, paren: bool, depth: nat): Outcome
    requires depth <= MAX_DEPTH
    decreases MAX_DEPTH + 1 - depth, 0
  {
    var left := Eval(buf, pos, level, depth + 1);
    if left.text.None? then Outcome(None, left.pos, 1 + left.calls, 1 + left.ops)
    else
      var right := Eval(buf, left.pos, level, depth + 1);
      Outcome(if right.text.Some? then Some(Wrap(paren, left.text.value + [word] + right.text.value)) else None,
              right.pos, 1 + left.calls + right.calls, 1 + left.ops + right.ops)
  }

  /** Forward big-endian cursor over requirement-expression bytes. */
  class ReqCursor {
    const buf: seq<byte>
    var pos: nat

    constructor (buf: seq<byte>)
      ensures this.buf == buf && pos == 0
    {
      this.buf := buf;
      pos := 0;
    }

    method U32() returns (v: Option<u32>)
      modifies this
      ensures Read(v, pos) == ReadU32(buf, old(pos))
    {
      v := ReadU32Be(buf, pos);
      if v.Some? {
        pos := pos + 4;
      }
    }

    method Data() returns (d: Option<seq<byte>>)
      modifies this
      ensures Read(d, pos) == ReadData(buf, old(pos))
    {
      var len := U32();
      if len.None? {
        return None;
      }
      var end := pos + len.value;
      if end > |buf| {
        return None;
      }
      d := Some(buf[pos..end]);
      pos := pos + RoundUp4(len.value);
    }

    method GetCertSlot() returns (slot: Option<i32>)
      modifies this
      ensures Read(slot, pos) == ReadSlot(buf, old(pos))
    {
      var v := U32();
      slot := if v.Some? then Some(AsI32(v.value)) else None;
    }

    method GetMatch() returns (m: Option<Match>)
      modifies this
      ensures Read(m, pos) == ReadMatch(buf, old(pos))
    {
      var op := U32();
      if op.None? {
        return None;
      }
      if 1 <= op.value <= 8 {
        var operand := Data();
        return if operand.Some? then Some(Match(op.value, operand.value)) else None;
      }
      return Some(Match(op.value, []));
    }

    method GetFields(shape: Shape) returns (f: Option<Fields>)
      requires shape.dataCount <= 2
      modifies this
      ensures Read(f, pos) == ReadFields(buf, old(pos), shape)
    {
      var slot: Option<i32> := Some(0);
      if shape.slot {
        slot := GetCertSlot();
        if slot.None? {
          return None;
        }
      }
      var data: seq<seq<byte>> := [];
      if shape.dataCount >= 1 {
        var first := Data();
        if first.None? {
          return None;
        }
        data := [first.value];
        if shape.dataCount == 2 {
          var second := Data();
          if second.None? {
            return None;
          }
          data := [first.value, second.value];
        }
      }
      var suffix: Option<Match> := Some(NO_MATCH);
      if shape.match_ {
        suffix := GetMatch();
        if suffix.None? {
          return None;
        }
      }
      return Some(Fields(slot.value, data, suffix.value));
    }
  }

  /** Evaluates one node. `calls` counts this call and the calls it makes. */
  method EvalExpression(cursor: ReqCursor, level: Level, depth: nat) returns (text: Option<Text>, ghost calls: nat)
    modifies cursor
    ensures var o := Eval(cursor.buf, old(cursor.pos), level, depth);
            text == o.text && cursor.pos == o.pos && calls == o.calls
    decreases MAX_DEPTH + 1 - depth
  {
    hide ReadFields, ReadU32, ShapeOf;
    if depth > MAX_DEPTH {
      return Some([LeafText(TooDeep)]), 1;
    }
    calls := 1;
    var op := cursor.U32();
    if op.None? {
      return None, 1;
    }
    if op.value == OP_AND || op.value == OP_OR {
      var inner := if op.value == OP_AND then AndLevel else OrLevel;
      var word := if op.value == OP_AND then AndWord else OrWord;
      var left, leftCalls := EvalExpression(cursor, inner, depth + 1);
      if left.None? {
        return None, 1 + leftCalls;
      }
      var right, rightCalls := EvalExpression(cursor, inner, depth + 1);
      if right.None? {
        return None, 1 + leftCalls + rightCalls;
      }
      return Some(Wrap(level.Below(inner), left.value + [word] + right.value)), 1 + leftCalls + rightCalls;
    }
    if op.value == OP_NOT {
      var inner, innerCalls := EvalExpression(cursor, Primary, depth + 1);
      return if inner.Some? then Some([Bang] + inner.value) else None, 1 + innerCalls;
    }
    var fields := cursor.GetFields(ShapeOf(op.value));
    return if fields.Some? then Some([LeafText(Leaf(op.value, fields.value))]) else None, 1;
  }
}
