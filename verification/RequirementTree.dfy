/** The expression that any bytecode stands for, whatever its syntax level, and the text the
    evaluator makes of it. */
module RequirementTree {
  import opened Bytes
  import opened Requirement
  import opened RequirementLaws

  /** The expression read at `pos`, a cut leaf where the depth cap is passed, and where it ends. */
  function Tree(buf: seq<byte>, pos: nat, depth: nat): Read<Expr>
    decreases MAX_DEPTH + 1 - depth
  {
    if depth > MAX_DEPTH then Read(Some(Atom(TooDeep)), pos)
    else
      var op := ReadU32(buf, pos);
      if op.value.None? then Read(None, op.pos)
      else if op.value.value == OP_AND || op.value.value == OP_OR then
        var l := Tree(buf, op.pos, depth + 1);
        if l.value.None? then Read(None, l.pos)
        else
          var r := Tree(buf, l.pos, depth + 1);
          Read(if r.value.None? then None else Some(Pair(op.value.value, l.value.value, r.value.value)), r.pos)
      else if op.value.value == OP_NOT then
        var x := Tree(buf, op.pos, depth + 1);
        Read(if x.value.None? then None else Some(Not(x.value.value)), x.pos)
      else
        var fields := ReadFields(buf, op.pos, ShapeOf(op.value.value));
        Read(if fields.value.None? then None else Some(Atom(Leaf(op.value.value, fields.value.value))), fields.pos)
  }

  function Pair(op: u32, l: Expr, r: Expr): Expr {
    if op == OP_AND then And(l, r) else Or(l, r)
  }

  /** The outcome prints the tree, and ends where it does. */
  predicate Prints(o: Outcome, t: Read<Expr>, level: Level) {
    && o.pos == t.pos
    && o.text == if t.value.Some? then Some(Emit(t.value.value, level)) else None
  }

  /** The tree of a pair whose left side starts at `pos`. */
  function PairTree(buf: seq<byte>, pos: nat, op: u32, depth: nat): Read<Expr> {
    var l := Tree(buf, pos, depth + 1);
    if l.value.None? then l
    else
      var r := Tree(buf, l.pos, depth + 1);
      Read(if r.value.None? then None else Some(Pair(op, l.value.value, r.value.value)), r.pos)
  }

  lemma {:induction false} PairPrints(buf: seq<byte>, pos: nat, op: u32, level: Level, depth: nat)
    requires depth <= MAX_DEPTH && (op == OP_AND || op == OP_OR)
    requires var inner := if op == OP_AND then AndLevel else OrLevel;
             && Prints(Eval(buf, pos, inner, depth + 1), Tree(buf, pos, depth + 1), inner)
             && var l := Tree(buf, pos, depth + 1);
                Prints(Eval(buf, l.pos, inner, depth + 1), Tree(buf, l.pos, depth + 1), inner)
    ensures var inner := if op == OP_AND then AndLevel else OrLevel;
            var o := EvalPair(buf, pos, inner, if op == OP_AND then AndWord else OrWord, level.Below(inner), depth);
            Prints(o, PairTree(buf, pos, op, depth), level)
  {
    hide Eval, Tree, Wrap;
  }

  /** What a node whose opcode can be read stands for. */
  lemma {:induction false} TreeOp(buf: seq<byte>, pos: nat, op: u32, depth: nat)
    requires depth <= MAX_DEPTH && ReadU32(buf, pos) == Read(Some(op), pos + 4)
    ensures var t := Tree(buf, pos, depth);
            if op == OP_AND || op == OP_OR then t == PairTree(buf, pos + 4, op, depth)
            else if op == OP_NOT then
              var x := Tree(buf, pos + 4, depth + 1);
              t == Read(if x.value.None? then None else Some(Not(x.value.value)), x.pos)
            else
              var fields := ReadFields(buf, pos + 4, ShapeOf(op));
              t == Read(if fields.value.None? then None else Some(Atom(Leaf(op, fields.value.value))), fields.pos)
  {
    hide ReadU32, ReadFields, ShapeOf, Pair;
  }

  lemma {:induction false} NoOp(buf: seq<byte>, pos: nat, level: Level, depth: nat)
    requires depth > MAX_DEPTH || ReadU32(buf, pos).value.None?
    ensures Prints(Eval(buf, pos, level, depth), Tree(buf, pos, depth), level)
  {
    hide ReadU32, ReadFields, ShapeOf, EvalPair;
  }

  lemma {:induction false} NotPrints(inner: Outcome, x: Read<Expr>, o: Outcome, t: Read<Expr>, level: Level)
    requires Prints(inner, x, Primary) && o.pos == inner.pos && t.pos == x.pos
    requires o.text == if inner.text.Some? then Some([Bang] + inner.text.value) else None
    requires t.value == if x.value.None? then None else Some(Not(x.value.value))
    ensures Prints(o, t, level)
  {
  }

  lemma {:induction false} LeafPrints(op: u32, fields: Read<Fields>, o: Outcome, t: Read<Expr>, level: Level)
    requires o.pos == t.pos
    requires o.text == if fields.value.Some? then Some([LeafText(Leaf(op, fields.value.value))]) else None
    requires t.value == if fields.value.None? then None else Some(Atom(Leaf(op, fields.value.value)))
    ensures Prints(o, t, level)
  {
  }

  /** On arbitrary bytes the evaluator's text, when there is one, is that of the tree the bytes stand
      for; the syntax level decides on parentheses and nothing else. */
  lemma {:induction false} EvalPrintsTree(buf: seq<byte>, pos: nat, level: Level, depth: nat)
    ensures Prints(Eval(buf, pos, level, depth), Tree(buf, pos, depth), level)
    decreases MAX_DEPTH + 1 - depth
  {
    hide Eval, EvalPair, Tree, PairTree, Prints, Emit, ReadU32, ReadFields, ShapeOf;
    if depth > MAX_DEPTH || ReadU32(buf, pos).value.None? {
      NoOp(buf, pos, level, depth);
    } else {
      OpAdvances(buf, pos);
      var op := ReadU32(buf, pos).value.value;
      EvalOp(buf, pos, op, level, depth);
      TreeOp(buf, pos, op, depth);
      var o, t := Eval(buf, pos, level, depth), Tree(buf, pos, depth);
      if op == OP_AND || op == OP_OR {
        var inner := if op == OP_AND then AndLevel else OrLevel;
        EvalPrintsTree(buf, pos + 4, inner, depth + 1);
        EvalPrintsTree(buf, Tree(buf, pos + 4, depth + 1).pos, inner, depth + 1);
        PairPrints(buf, pos + 4, op, level, depth);
      } else if op == OP_NOT {
        EvalPrintsTree(buf, pos + 4, Primary, depth + 1);
        NotPrints(Eval(buf, pos + 4, Primary, depth + 1), Tree(buf, pos + 4, depth + 1), o, t, level);
      } else {
        LeafPrints(op, ReadFields(buf, pos + 4, ShapeOf(op)), o, t, level);
      }
    }
  }

  lemma {:induction false} OpAdvances(buf: seq<byte>, pos: nat)
    requires ReadU32(buf, pos).value.Some?
    ensures ReadU32(buf, pos).pos == pos + 4
  {
  }
}
