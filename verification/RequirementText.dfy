/** Reading requirement text back: the emitted text, read under the precedence `!` over `and` over
    `or`, means what the expression means. */
module RequirementText {
  import opened Bytes
  import opened Requirement
  import opened RequirementLaws
  import opened RequirementTree

  // ----- meaning -----

  function Truth(e: Expr, v: Leaf -> bool): bool {
    match e
    case Atom(leaf) => v(leaf)
    case And(l, r) => Truth(l, v) && Truth(r, v)
    case Or(l, r) => Truth(l, v) || Truth(r, v)
    case Not(x) => !Truth(x, v)
  }

  // ----- a reader of requirement text -----

  datatype Parsed = Parsed(e: Expr, rest: Text)

  predicate Starts(text: Text, word: Token) {
    text != [] && text[0] == word
  }

  /** A leaf, a negation or a parenthesized expression. */
  function ParsePrimary(text: Text): (r: Option<Parsed>)
    ensures r.Some? ==> |r.value.rest| < |text|
    decreases |text|, 0
  {
    if text == [] then None
    else
      match text[0]
      case LeafText(leaf) => Some(Parsed(Atom(leaf), text[1..]))
      case Bang =>
        var p :- ParsePrimary(text[1..]);
        Some(Parsed(Not(p.e), p.rest))
      case LParen =>
        var p :- ParseOr(None, text[1..]);
        if Starts(p.rest, RParen) then Some(Parsed(p.e, p.rest[1..])) else None
      case _ => None
  }

  /** Primaries joined by `and`, to the right of `acc`. */
  function ParseAnd(acc: Option<Expr>, text: Text): (r: Option<Parsed>)
    ensures r.Some? ==> |r.value.rest| < |text|
    decreases |text|, 1
  {
    var p :- ParsePrimary(text);
    var e := JoinAnd(acc, p.e);
    if Starts(p.rest, AndWord) then ParseAnd(Some(e), p.rest[1..]) else Some(Parsed(e, p.rest))
  }

  /** Conjunctions joined by `or`, to the right of `acc`. */
  function ParseOr(acc: Option<Expr>, text: Text): (r: Option<Parsed>)
    ensures r.Some? ==> |r.value.rest| < |text|
    decreases |text|, 2
  {
    var p :- ParseAnd(None, text);
    var e := JoinOr(acc, p.e);
    if Starts(p.rest, OrWord) then ParseOr(Some(e), p.rest[1..]) else Some(Parsed(e, p.rest))
  }

  function ReadText(text: Text): Option<Expr> {
    var p :- ParseOr(None, text);
    if p.rest == [] then Some(p.e) else None
  }

  // ----- the emitted text reads back -----

  ghost predicate SameTruth(a: Expr, b: Expr) {
    forall v: Leaf -> bool :: Truth(a, v) == Truth(b, v)
  }

  predicate SameText(a: Expr, b: Expr) {
    forall level: Level :: Emit(a, level) == Emit(b, level)
  }

  /** Regroupings of the same expression: true of the same valuations, with the same text. */
  ghost predicate Same(a: Expr, b: Expr) {
    SameTruth(a, b) && SameText(a, b)
  }

  function JoinAnd(acc: Option<Expr>, e: Expr): Expr {
    if acc.Some? then And(acc.value, e) else e
  }

  function JoinOr(acc: Option<Expr>, e: Expr): Expr {
    if acc.Some? then Or(acc.value, e) else e
  }

  lemma {:induction false} SameTextTrans(a: Expr, b: Expr, c: Expr)
    requires SameText(a, b) && SameText(b, c)
    ensures SameText(a, c)
  {
    hide Emit;
  }

  lemma {:induction false} AndTextSame(l: Expr, r: Expr, l': Expr, r': Expr)
    requires SameText(l, l') && SameText(r, r')
    ensures SameText(And(l, r), And(l', r')) && SameText(Or(l, r), Or(l', r'))
  {
    hide Wrap;
    forall level: Level
      ensures Emit(And(l, r), level) == Emit(And(l', r'), level)
      ensures Emit(Or(l, r), level) == Emit(Or(l', r'), level)
    {
      assert Emit(l, AndLevel) == Emit(l', AndLevel) && Emit(r, AndLevel) == Emit(r', AndLevel);
      assert Emit(l, OrLevel) == Emit(l', OrLevel) && Emit(r, OrLevel) == Emit(r', OrLevel);
    }
  }

  /** Grouping a chain to the left or to the right makes the same text. */
  lemma {:induction false} GroupText(a: Expr, b: Expr, c: Expr)
    ensures SameText(And(And(a, b), c), And(a, And(b, c)))
    ensures SameText(Or(Or(a, b), c), Or(a, Or(b, c)))
  {
    hide Wrap;
    forall level: Level
      ensures Emit(And(And(a, b), c), level) == Emit(And(a, And(b, c)), level)
      ensures Emit(Or(Or(a, b), c), level) == Emit(Or(a, Or(b, c)), level)
    {
      ChainText(Emit(a, AndLevel), Emit(b, AndLevel), Emit(c, AndLevel), AndWord);
      ChainText(Emit(a, OrLevel), Emit(b, OrLevel), Emit(c, OrLevel), OrWord);
      NoParens(a, b);
      NoParens(b, c);
    }
  }

  lemma {:induction false} NoParens(a: Expr, b: Expr)
    ensures Emit(And(a, b), AndLevel) == Emit(a, AndLevel) + [AndWord] + Emit(b, AndLevel)
    ensures Emit(Or(a, b), OrLevel) == Emit(a, OrLevel) + [OrWord] + Emit(b, OrLevel)
  {
  }

  lemma {:induction false} ChainText(a: Text, b: Text, c: Text, word: Token)
    ensures (a + [word] + b) + [word] + c == a + [word] + (b + [word] + c)
  {
  }

  /** Reading a nested pair from left to right regroups it. */
  lemma {:induction false} RegroupAnd(acc: Option<Expr>, l: Expr, r: Expr, left: Expr, all: Expr)
    requires Same(left, JoinAnd(acc, l)) && Same(all, And(left, r))
    ensures Same(all, JoinAnd(acc, And(l, r)))
  {
    hide SameText;
    forall v: Leaf -> bool
      ensures Truth(all, v) == Truth(JoinAnd(acc, And(l, r)), v)
    {
      assert Truth(left, v) == Truth(JoinAnd(acc, l), v);
    }
    SelfSame(r);
    AndTextSame(left, r, JoinAnd(acc, l), r);
    SameTextTrans(all, And(left, r), And(JoinAnd(acc, l), r));
    if acc.Some? {
      GroupText(acc.value, l, r);
      SameTextTrans(all, And(And(acc.value, l), r), And(acc.value, And(l, r)));
    }
  }

  lemma {:induction false} RegroupOr(acc: Option<Expr>, l: Expr, r: Expr, left: Expr, all: Expr)
    requires Same(left, JoinOr(acc, l)) && Same(all, Or(left, r))
    ensures Same(all, JoinOr(acc, Or(l, r)))
  {
    hide SameText;
    forall v: Leaf -> bool
      ensures Truth(all, v) == Truth(JoinOr(acc, Or(l, r)), v)
    {
      assert Truth(left, v) == Truth(JoinOr(acc, l), v);
    }
    SelfSame(r);
    AndTextSame(left, r, JoinOr(acc, l), r);
    SameTextTrans(all, Or(left, r), Or(JoinOr(acc, l), r));
    if acc.Some? {
      GroupText(acc.value, l, r);
      SameTextTrans(all, Or(Or(acc.value, l), r), Or(acc.value, Or(l, r)));
    }
  }

  lemma {:induction false} JoinSame(acc: Option<Expr>, a: Expr, b: Expr)
    requires Same(a, b)
    ensures Same(JoinAnd(acc, a), JoinAnd(acc, b)) && Same(JoinOr(acc, a), JoinOr(acc, b))
  {
    hide SameText;
    if acc.Some? {
      SelfSame(acc.value);
      AndTextSame(acc.value, a, acc.value, b);
      forall v: Leaf -> bool
        ensures Truth(And(acc.value, a), v) == Truth(And(acc.value, b), v)
        ensures Truth(Or(acc.value, a), v) == Truth(Or(acc.value, b), v)
      {
        assert Truth(a, v) == Truth(b, v);
      }
    }
  }

  lemma {:induction false} NotSame(a: Expr, b: Expr)
    requires Same(a, b)
    ensures Same(Not(a), Not(b))
  {
    forall level: Level
      ensures Emit(Not(a), level) == Emit(Not(b), level)
    {
      assert Emit(a, Primary) == Emit(b, Primary);
    }
  }

  lemma {:induction false} SelfSame(e: Expr)
    ensures Same(e, e)
  {
  }

  /** Order of the three mutually recursive lemmas on one expression. */
  function Turn(e: Expr, level: Level): nat {
    match e
    case And(_, _) => if level.Primary? then 3 else if level.OrLevel? then 2 else 1
    case Or(_, _) => if level.AndLevel? then 3 else if level.Primary? then 2 else 1
    case _ => if level.OrLevel? then 3 else if level.AndLevel? then 2 else 1
  }

  lemma {:induction false} LeafReads(leaf: Leaf, rest: Text)
    ensures ParsePrimary([LeafText(leaf)] + rest) == Some(Parsed(Atom(leaf), rest))
  {
    assert ([LeafText(leaf)] + rest)[1..] == rest;
  }

  lemma {:induction false} BangReads(after: Text, x: Expr, rest: Text)
    requires ParsePrimary(after) == Some(Parsed(x, rest))
    ensures ParsePrimary([Bang] + after) == Some(Parsed(Not(x), rest))
  {
    assert ([Bang] + after)[1..] == after;
  }

  lemma {:induction false} ParensRead(after: Text, x: Expr, rest: Text)
    requires ParseOr(None, after) == Some(Parsed(x, [RParen] + rest))
    ensures ParsePrimary([LParen] + after) == Some(Parsed(x, rest))
  {
    hide ParseOr;
    assert ([LParen] + after)[1..] == after && ([RParen] + rest)[1..] == rest;
  }

  lemma {:induction false} PrimaryReads(e: Expr, rest: Text) returns (r: Expr)
    ensures ParsePrimary(Emit(e, Primary) + rest) == Some(Parsed(r, rest))
    ensures Same(r, e)
    decreases e, Turn(e, Primary)
  {
    hide Same, ParseAnd, ParseOr, ParsePrimary;
    match e {
      case Atom(leaf) =>
        r := e;
        SelfSame(e);
        LeafReads(leaf, rest);
      case Not(x) =>
        var x' := PrimaryReads(x, rest);
        r := Not(x');
        NotSame(x', x);
        BangReads(Emit(x, Primary) + rest, x', rest);
        assert Emit(e, Primary) + rest == [Bang] + (Emit(x, Primary) + rest);
      case _ =>
        r := OrReads(None, e, [RParen] + rest);
        ParensRead(Emit(e, OrLevel) + ([RParen] + rest), r, rest);
        assert Emit(e, Primary) + rest == [LParen] + (Emit(e, OrLevel) + ([RParen] + rest));
    }
  }

  lemma {:induction false} AndReads(acc: Option<Expr>, e: Expr, rest: Text) returns (r: Expr)
    ensures ParseAnd(acc, Emit(e, AndLevel) + rest)
         == if Starts(rest, AndWord) then ParseAnd(Some(r), rest[1..]) else Some(Parsed(r, rest))
    ensures Same(r, JoinAnd(acc, e))
    decreases e, Turn(e, AndLevel)
  {
    hide Same, ParsePrimary;
    if e.And? {
      var right := Emit(e.right, AndLevel) + rest;
      var l := AndReads(acc, e.left, [AndWord] + right);
      r := AndReads(Some(l), e.right, rest);
      RegroupAnd(acc, e.left, e.right, l, r);
      assert Emit(e, AndLevel) + rest == Emit(e.left, AndLevel) + ([AndWord] + right);
      assert ([AndWord] + right)[1..] == right;
    } else {
      assert Emit(e, AndLevel) == Emit(e, Primary);
      var p := PrimaryReads(e, rest);
      r := JoinAnd(acc, p);
      JoinSame(acc, p, e);
    }
  }

  lemma {:induction false} OrReads(acc: Option<Expr>, e: Expr, rest: Text) returns (r: Expr)
    requires !Starts(rest, AndWord)
    ensures ParseOr(acc, Emit(e, OrLevel) + rest)
         == if Starts(rest, OrWord) then ParseOr(Some(r), rest[1..]) else Some(Parsed(r, rest))
    ensures Same(r, JoinOr(acc, e))
    decreases e, Turn(e, OrLevel)
  {
    hide Same, ParseAnd;
    if e.Or? {
      var right := Emit(e.right, OrLevel) + rest;
      var l := OrReads(acc, e.left, [OrWord] + right);
      r := OrReads(Some(l), e.right, rest);
      RegroupOr(acc, e.left, e.right, l, r);
      assert Emit(e, OrLevel) + rest == Emit(e.left, OrLevel) + ([OrWord] + right);
      assert ([OrWord] + right)[1..] == right;
    } else {
      assert Emit(e, OrLevel) == Emit(e, AndLevel);
      var c := AndReads(None, e, rest);
      r := JoinOr(acc, c);
      JoinSame(acc, c, e);
    }
  }

  /** The text of any expression reads back, as an expression true of the same valuations. */
  lemma {:induction false} TextKeepsMeaning(e: Expr)
    ensures var back := ReadText(Emit(e, Top));
            back.Some? && forall v: Leaf -> bool :: Truth(back.value, v) == Truth(e, v)
  {
    assert Emit(e, Top) == Emit(e, OrLevel);
    assert Emit(e, OrLevel) + [] == Emit(e, OrLevel);
    var r := OrReads(None, e, []);
  }

  /** From bytecode to meaning: what the evaluator prints for an encoded expression of height at
      most 64 reads back as an expression with the same truth value under every valuation. */
  lemma {:induction false} EvaluatedTextKeepsMeaning(e: Expr)
    requires ValidExpr(e) && Height(e) <= 64
    ensures var o := Eval(Encode(e), 0, Top, 0);
            && o.text.Some? && o.pos == |Encode(e)|
            && var back := ReadText(o.text.value);
               back.Some? && forall v: Leaf -> bool :: Truth(back.value, v) == Truth(e, v)
  {
    hide Eval, Encode, Emit, ReadText, Truth, Height, ValidExpr;
    assert At(Encode(e), 0, Encode(e));
    EvalEncoded(Encode(e), 0, e, Top, 0);
    TextKeepsMeaning(e);
  }

  /** So on arbitrary bytes: whatever text the evaluator returns, at any depth and any position, reads
      back, as an expression true of the same valuations as the tree the bytes stand for. */
  lemma {:induction false} AnyTextKeepsMeaning(buf: seq<byte>, pos: nat, depth: nat)
    requires Eval(buf, pos, Top, depth).text.Some?
    ensures var tree, back := Tree(buf, pos, depth).value, ReadText(Eval(buf, pos, Top, depth).text.value);
            tree.Some? && back.Some? && forall v: Leaf -> bool :: Truth(back.value, v) == Truth(tree.value, v)
  {
    EvalPrintsTree(buf, pos, Top, depth);
    hide Eval, Tree, Emit, ReadText, Truth;
    TextKeepsMeaning(Tree(buf, pos, depth).value.value);
  }

  // ----- no pair of parentheses can be dropped -----

  /** The tree read back has the very text it was read from. */
  lemma {:induction false} ReadBackPrintsSame(e: Expr)
    ensures ReadText(Emit(e, Top)).Some? && Emit(ReadText(Emit(e, Top)).value, Top) == Emit(e, Top)
  {
    assert Emit(e, Top) == Emit(e, OrLevel);
    assert Emit(e, OrLevel) + [] == Emit(e, OrLevel);
    var r := OrReads(None, e, []);
    hide Emit;
  }

  /** Parentheses cost two tokens, and looser levels none. */
  lemma {:induction false} LevelLength(e: Expr)
    ensures |Emit(e, AndLevel)| <= |Emit(e, Primary)| <= |Emit(e, OrLevel)| + 2
    ensures |Emit(e, OrLevel)| <= |Emit(e, AndLevel)|
  {
  }

  /** Length of what is already read, with the word after it. */
  function AccLength(acc: Option<Expr>, level: Level): nat {
    if acc.Some? then |Emit(acc.value, level)| + 1 else 0
  }

  lemma {:induction false} JoinLength(acc: Option<Expr>, e: Expr)
    ensures |Emit(JoinAnd(acc, e), AndLevel)| == AccLength(acc, AndLevel) + |Emit(e, AndLevel)|
    ensures |Emit(JoinOr(acc, e), OrLevel)| == AccLength(acc, OrLevel) + |Emit(e, OrLevel)|
  {
    if acc.Some? {
      NoParens(acc.value, e);
    }
    hide Emit;
  }

  lemma {:induction false} PrimaryLength(text: Text)
    ensures var p := ParsePrimary(text);
            p.Some? ==> |Emit(p.value.e, Primary)| + |p.value.rest| <= |text|
    decreases |text|, 0
  {
    if text != [] {
      match text[0] {
        case Bang =>
          PrimaryLength(text[1..]);
        case LParen =>
          OrLength(None, text[1..]);
          hide ParseOr, ParseAnd;
          var p := ParseOr(None, text[1..]);
          if p.Some? {
            LevelLength(p.value.e);
          }
        case _ =>
      }
    }
  }

  lemma {:induction false} AndLength(acc: Option<Expr>, text: Text)
    ensures var p := ParseAnd(acc, text);
            p.Some? ==> |Emit(p.value.e, AndLevel)| + |p.value.rest| <= |text| + AccLength(acc, AndLevel)
    decreases |text|, 1
  {
    PrimaryLength(text);
    hide ParsePrimary, Emit;
    var p := ParsePrimary(text);
    if p.Some? {
      LevelLength(p.value.e);
      JoinLength(acc, p.value.e);
      if Starts(p.value.rest, AndWord) {
        AndLength(Some(JoinAnd(acc, p.value.e)), p.value.rest[1..]);
      }
    }
  }

  lemma {:induction false} OrLength(acc: Option<Expr>, text: Text)
    ensures var p := ParseOr(acc, text);
            p.Some? ==> |Emit(p.value.e, OrLevel)| + |p.value.rest| <= |text| + AccLength(acc, OrLevel)
    decreases |text|, 2
  {
    AndLength(None, text);
    hide ParseAnd, Emit;
    var p := ParseAnd(None, text);
    if p.Some? {
      LevelLength(p.value.e);
      JoinLength(acc, p.value.e);
      if Starts(p.value.rest, OrWord) {
        OrLength(Some(JoinOr(acc, p.value.e)), p.value.rest[1..]);
      }
    }
  }

  /** The emitted text is the shortest: no text that reads back as the same tree has fewer tokens, so
      none has fewer parentheses. */
  lemma {:induction false} EmittedIsShortest(e: Expr, text: Text)
    requires ReadText(text) == ReadText(Emit(e, Top))
    ensures |Emit(e, Top)| <= |text|
  {
    ReadBackPrintsSame(e);
    OrLength(None, text);
    var back := ReadText(Emit(e, Top)).value;
    assert Emit(back, Top) == Emit(back, OrLevel);
    hide Emit, ParseOr;
  }

  /** In particular, dropping any two tokens of it, such as a pair of parentheses, changes how it
      reads back. */
  lemma {:induction false} NoPairCanBeDropped(e: Expr, i: nat, j: nat)
    requires i < j < |Emit(e, Top)|
    ensures var text := Emit(e, Top);
            ReadText(text[..i] + text[i + 1..j] + text[j + 1..]) != ReadText(text)
  {
    var text := Emit(e, Top);
    var dropped := text[..i] + text[i + 1..j] + text[j + 1..];
    hide Emit, ReadText;
    if ReadText(dropped) == ReadText(text) {
      EmittedIsShortest(e, dropped);
    }
  }
}
