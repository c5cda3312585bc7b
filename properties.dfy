/** Consequences of the parser's definition for concrete token shapes: how operator chains
    group, how declarations read, and where parsing fails. */
module Properties {
  import opened Outcomes
  import opened Ast
  import opened Tokens
  import opened Cursor
  import opened Grouping
  import opened Grammar

  /** The expression the atom parser makes of the atom token at `k`. */
  function AtomAt(toks: seq<Token>, k: nat): (e: Expression)
    requires LexemesOk(toks) && k < |toks| && IsAtomKind(toks[k].kind)
    ensures ParseAtomAt(toks, k) == Done(e, k + 1)
  {
    ParseAtomAt(toks, k).value
  }

  /** The identifier expression the atom parser makes of the identifier token at `k`. */
  function IdentAt(toks: seq<Token>, k: nat): Expression
    requires k < |toks|
  {
    Expression(Identifier(toks[k].lexeme), PositionAt(toks, k))
  }

  /** Two operators: the second binds to the right unless its precedence is strictly lower. */
  lemma GroupOfTwoOperators(x: Expression, first: (Operator, nat), y: Expression, item: Item, endPos: Position)
    ensures Group(x, first, y, [item], endPos)
            == if item.prec < first.1
               then Combine(Combine(x, first.0, y, item.at), item.op, item.atom, endPos)
               else Combine(x, first.0, Combine(y, item.op, item.atom, endPos), endPos)
  {
    if item.prec < first.1 {
      LowerSecondNestsLeft(x, first, y, item, endPos);
    } else {
      HigherSecondNestsRight(x, first, y, item, endPos);
    }
  }

  lemma LowerSecondNestsLeft(x: Expression, first: (Operator, nat), y: Expression, item: Item, endPos: Position)
    requires item.prec < first.1
    ensures Group(x, first, y, [item], endPos) == Combine(Combine(x, first.0, y, item.at), item.op, item.atom, endPos)
  {
    assert StrictlyDecreasingFrom(first.1, [item]) by {
      assert [item][1..] == [];
    }
    StrictlyDecreasingChainNestsLeft(x, first, y, [item], endPos);
    assert [item][1..] == [];
  }

  lemma HigherSecondNestsRight(x: Expression, first: (Operator, nat), y: Expression, item: Item, endPos: Position)
    requires first.1 <= item.prec
    ensures Group(x, first, y, [item], endPos) == Combine(x, first.0, Combine(y, item.op, item.atom, endPos), endPos)
  {
    assert NonDecreasingFrom(first.1, [item]) by {
      assert [item][1..] == [];
    }
    NonDecreasingChainNestsRight(x, first, y, [item], endPos);
    assert Atoms([item]) == [item.atom] && Ops([item]) == [(item.op, item.prec)];
    var full := Stacks([x, y, item.atom], [first, (item.op, item.prec)]);
    var tail := Stacks([y, item.atom], [(item.op, item.prec)]);
    assert Stacks(full.es[1..], full.os[1..]) == tail;
    assert Stacks(tail.es[1..], tail.os[1..]) == Stacks([item.atom], []);
    assert [x, y] + Atoms([item]) == full.es && [first] + Ops([item]) == full.os;
    assert RightNested(tail, endPos) == Combine(y, item.op, item.atom, endPos);
  }

  /** An expression that starts `x o1 y`: the chain is grouped from the scan after y, and
      the result spans from x to where the scan stopped. */
  lemma ChainStart(toks: seq<Token>, ops: map<Operator, nat>, i: nat)
    requires WellFormed(toks, ops) && i + 3 <= |toks|
    requires IsAtomKind(toks[i].kind) && toks[i + 1].kind == OperatorTok && IsAtomKind(toks[i + 2].kind)
    ensures toks[i + 1].lexeme in ops
    ensures var o1 := toks[i + 1].lexeme;
            var x := AtomAt(toks, i);
            ParseExpressionAt(toks, ops, i)
            == match ScanAt(toks, ops, i + 3, ops[o1])
               case Fail(e, at) => Fail(e, at)
               case Done(items, m) =>
                 Done(Expression(Group(x, (o1, ops[o1]), AtomAt(toks, i + 2), items, PositionAt(toks, m)).node,
                                 SpanFrom(toks, m, x.pos)), m)
  {
    assert toks[i + 1] in toks;
    var o1 := toks[i + 1].lexeme;
    assert EatAt(toks, i + 1) == Done(o1, i + 2);
    assert ParseExpressionAt(toks, ops, i) == ParseBinaryAt(toks, ops, i + 1, AtomAt(toks, i));
  }

  /** After `x o1 y`, a second operator and atom followed by no further operator are
      scanned as one item, and the chain ends two tokens later. */
  lemma ScanSecondOperator(toks: seq<Token>, ops: map<Operator, nat>, i: nat, st: Stacks)
    requires WellFormed(toks, ops) && i + 2 <= |toks|
    requires toks[i].kind == OperatorTok && IsAtomKind(toks[i + 1].kind)
    requires i + 2 == |toks| || toks[i + 2].kind != OperatorTok
    requires Balanced(st) && |st.os| > 0
    ensures toks[i].lexeme in ops
    ensures FinishBinaryAt(toks, ops, i, st)
            == Done(ReduceAll(ShiftAll(st, [Item(toks[i].lexeme, ops[toks[i].lexeme], AtomAt(toks, i + 1), PositionAt(toks, i + 1))]),
                              PositionAt(toks, i + 2)), i + 2)
  {
    assert toks[i] in toks;
    var o := toks[i].lexeme;
    var item := Item(o, ops[o], AtomAt(toks, i + 1), PositionAt(toks, i + 1));
    assert ParseAtomAt(toks, i + 1) == Done(AtomAt(toks, i + 1), i + 2);
    assert CurrentAt(toks, i + 2).kind != OperatorTok;
    assert ScanAt(toks, ops, i + 2, ops[o]) == Done([], i + 2);
    assert EatAt(toks, i) == Done(o, i + 1);
    assert RemainingAt(toks, i + 1) > 0;
    assert CurrentAt(toks, i).kind == OperatorTok;
    assert [item] + [] == [item];
    assert ScanAt(toks, ops, i, TopPrec(st)) == Done([item], i + 2);
  }

  /** `x o1 y o2 z`: when o2 binds strictly less tightly than o1 the result is (x o1 y) o2 z;
      otherwise, equal precedences included, it is x o1 (y o2 z). With o1 = o2 = + this is
      a + (b + c); with * then + it is (a * b) + c; with + then * it is a + (b * c). */
  lemma ThreeOperandGrouping(toks: seq<Token>, ops: map<Operator, nat>, i: nat)
    requires WellFormed(toks, ops) && i + 5 <= |toks|
    requires IsAtomKind(toks[i].kind) && IsAtomKind(toks[i + 2].kind) && IsAtomKind(toks[i + 4].kind)
    requires toks[i + 1].kind == OperatorTok && toks[i + 3].kind == OperatorTok
    requires i + 5 == |toks| || toks[i + 5].kind != OperatorTok
    ensures toks[i + 1].lexeme in ops && toks[i + 3].lexeme in ops
    ensures var o1, o2 := toks[i + 1].lexeme, toks[i + 3].lexeme;
            var x, y, z := AtomAt(toks, i), AtomAt(toks, i + 2), AtomAt(toks, i + 4);
            var span := SpanFrom(toks, i + 5, x.pos);
            ParseExpressionAt(toks, ops, i)
            == if ops[o2] < ops[o1]
               then Done(Expression(Binary(Combine(x, o1, y, PositionAt(toks, i + 4)), o2, z), span), i + 5)
               else Done(Expression(Binary(x, o1, Combine(y, o2, z, PositionAt(toks, i + 5))), span), i + 5)
  {
    assert toks[i + 1] in toks && toks[i + 3] in toks;
    var o1, o2 := toks[i + 1].lexeme, toks[i + 3].lexeme;
    var x, y, z := AtomAt(toks, i), AtomAt(toks, i + 2), AtomAt(toks, i + 4);
    var first := (o1, ops[o1]);
    var item := Item(o2, ops[o2], z, PositionAt(toks, i + 4));
    var endPos := PositionAt(toks, i + 5);
    assert ParseAtomAt(toks, i) == Done(x, i + 1);
    assert ParseAtomAt(toks, i + 2) == Done(y, i + 3);
    assert EatAt(toks, i + 1) == Done(o1, i + 2);
    ScanSecondOperator(toks, ops, i + 3, Stacks([x, y], [first]));
    GroupOfTwoOperators(x, first, y, item, endPos);
    assert ParseExpressionAt(toks, ops, i) == ParseBinaryAt(toks, ops, i + 1, x);
  }

  /** An operator followed by an atom token is read as one item, and the scan goes on two
      tokens later with that operator's precedence. */
  lemma ScanOnePair(toks: seq<Token>, ops: map<Operator, nat>, i: nat, prev: nat)
    requires WellFormed(toks, ops) && i + 2 <= |toks|
    requires toks[i].kind == OperatorTok && IsAtomKind(toks[i + 1].kind)
    ensures toks[i].lexeme in ops
    ensures var o := toks[i].lexeme;
            var item := Item(o, ops[o], AtomAt(toks, i + 1), PositionAt(toks, i + 1));
            ScanAt(toks, ops, i, prev)
            == match ScanAt(toks, ops, i + 2, ops[o])
               case Fail(e, at) => Fail(e, at)
               case Done(rest, m) => Done([item] + rest, m)
  {
    assert toks[i] in toks;
    var o := toks[i].lexeme;
    assert CurrentAt(toks, i).kind == OperatorTok;
    assert EatAt(toks, i) == Done(o, i + 1);
    assert RemainingAt(toks, i + 1) > 0;
    assert ParseAtomAt(toks, i + 1) == Done(AtomAt(toks, i + 1), i + 2);
  }

  /** The scan after `x o1 y` in `x o1 y o2 z o3 w`: two items, ending at the token after w. */
  lemma ScanTwoPairs(toks: seq<Token>, ops: map<Operator, nat>, i: nat, prev: nat)
    requires WellFormed(toks, ops) && i + 4 <= |toks|
    requires IsAtomKind(toks[i + 1].kind) && IsAtomKind(toks[i + 3].kind)
    requires toks[i].kind == OperatorTok && toks[i + 2].kind == OperatorTok
    requires i + 4 == |toks| || toks[i + 4].kind != OperatorTok
    requires toks[i].lexeme in ops && toks[i + 2].lexeme in ops
    ensures var o2, o3 := toks[i].lexeme, toks[i + 2].lexeme;
            ScanAt(toks, ops, i, prev)
            == Done([Item(o2, ops[o2], AtomAt(toks, i + 1), PositionAt(toks, i + 1)),
                     Item(o3, ops[o3], AtomAt(toks, i + 3), PositionAt(toks, i + 3))], i + 4)
  {
    var o2, o3 := toks[i].lexeme, toks[i + 2].lexeme;
    var item2 := Item(o2, ops[o2], AtomAt(toks, i + 1), PositionAt(toks, i + 1));
    var item3 := Item(o3, ops[o3], AtomAt(toks, i + 3), PositionAt(toks, i + 3));
    assert CurrentAt(toks, i + 4).kind != OperatorTok;
    assert ScanAt(toks, ops, i + 4, ops[o3]) == Done([], i + 4);
    ScanOnePair(toks, ops, i + 2, ops[o2]);
    assert [item3] + [] == [item3];
    assert ScanAt(toks, ops, i + 2, ops[o2]) == Done([item3], i + 4);
    ScanOnePair(toks, ops, i, prev);
    assert [item2] + [item3] == [item2, item3];
  }

  /** `a * b ^ c + d` on tokens: with prec(o1) <= prec(o2) and prec(o3) < prec(o2), the drop
      at o3 reduces only `b o2 c`, and o1 takes the whole rest as its right operand:
      `x o1 ((y o2 z) o3 w)`. */
  lemma DropOnTokensReducesOnlyTop(toks: seq<Token>, ops: map<Operator, nat>, i: nat)
    requires WellFormed(toks, ops) && i + 7 <= |toks|
    requires IsAtomKind(toks[i].kind) && IsAtomKind(toks[i + 2].kind)
    requires IsAtomKind(toks[i + 4].kind) && IsAtomKind(toks[i + 6].kind)
    requires toks[i + 1].kind == OperatorTok && toks[i + 3].kind == OperatorTok && toks[i + 5].kind == OperatorTok
    requires i + 7 == |toks| || toks[i + 7].kind != OperatorTok
    requires toks[i + 1].lexeme in ops && toks[i + 3].lexeme in ops && toks[i + 5].lexeme in ops
    requires ops[toks[i + 1].lexeme] <= ops[toks[i + 3].lexeme]
    requires ops[toks[i + 5].lexeme] < ops[toks[i + 3].lexeme]
    ensures var o1, o2, o3 := toks[i + 1].lexeme, toks[i + 3].lexeme, toks[i + 5].lexeme;
            var x, y, z, w := AtomAt(toks, i), AtomAt(toks, i + 2), AtomAt(toks, i + 4), AtomAt(toks, i + 6);
            ParseExpressionAt(toks, ops, i)
            == Done(Expression(Binary(x, o1, Combine(Combine(y, o2, z, PositionAt(toks, i + 6)), o3, w, PositionAt(toks, i + 7))),
                               SpanFrom(toks, i + 7, x.pos)), i + 7)
  {
    var o1, o2, o3 := toks[i + 1].lexeme, toks[i + 3].lexeme, toks[i + 5].lexeme;
    var x, y, z, w := AtomAt(toks, i), AtomAt(toks, i + 2), AtomAt(toks, i + 4), AtomAt(toks, i + 6);
    var item2 := Item(o2, ops[o2], z, PositionAt(toks, i + 4));
    var item3 := Item(o3, ops[o3], w, PositionAt(toks, i + 6));
    var endPos := PositionAt(toks, i + 7);
    var first := (o1, ops[o1]);
    ScanTwoPairs(toks, ops, i + 3, ops[o1]);
    DropReducesOnlyTopOperator(x, y, z, w, first, item2, item3, endPos);
    ChainStart(toks, ops, i);
  }

  /** `x o1 y o2` with o2 last and not binding less tightly than o1: the scan reads two
      `EOF` atoms past the end and then fails with "moving outside token stack", not with
      "reached EOF in operation". */
  lemma TrailingOperatorRunsOutside(toks: seq<Token>, ops: map<Operator, nat>, i: nat)
    requires WellFormed(toks, ops) && i + 4 == |toks|
    requires IsAtomKind(toks[i].kind) && IsAtomKind(toks[i + 2].kind)
    requires toks[i + 1].kind == OperatorTok && toks[i + 3].kind == OperatorTok
    requires toks[i + 1].lexeme in ops && toks[i + 3].lexeme in ops
    requires ops[toks[i + 1].lexeme] <= ops[toks[i + 3].lexeme]
    ensures ParseExpressionAt(toks, ops, i) == Fail(OutsideTokenStack, i + 5)
  {
    var o2 := toks[i + 3].lexeme;
    assert ScanAt(toks, ops, i + 5, ops[o2]) == Fail(OutsideTokenStack, i + 5);
    assert ScanAt(toks, ops, i + 4, ops[o2]) == Fail(OutsideTokenStack, i + 5);
    assert ScanAt(toks, ops, i + 3, ops[toks[i + 1].lexeme]) == Fail(OutsideTokenStack, i + 5);
    assert ParseAtomAt(toks, i) == Done(AtomAt(toks, i), i + 1);
    assert ParseAtomAt(toks, i + 2) == Done(AtomAt(toks, i + 2), i + 3);
  }

  /** An operator of strictly lower precedence than the pending one as the last token:
      `x o1 y o2` ends in the "reached EOF in operation" error, after o2 is consumed. */
  lemma TrailingLowerOperatorFails(toks: seq<Token>, ops: map<Operator, nat>, i: nat)
    requires WellFormed(toks, ops) && i + 4 == |toks|
    requires IsAtomKind(toks[i].kind) && IsAtomKind(toks[i + 2].kind)
    requires toks[i + 1].kind == OperatorTok && toks[i + 3].kind == OperatorTok
    requires toks[i + 1].lexeme in ops && toks[i + 3].lexeme in ops
    requires ops[toks[i + 3].lexeme] < ops[toks[i + 1].lexeme]
    ensures ParseExpressionAt(toks, ops, i) == Fail(EofInOperation, i + 4)
  {
    assert ParseAtomAt(toks, i) == Done(AtomAt(toks, i), i + 1);
    assert ParseAtomAt(toks, i + 2) == Done(AtomAt(toks, i + 2), i + 3);
    assert ScanAt(toks, ops, i + 3, ops[toks[i + 1].lexeme]) == Fail(EofInOperation, i + 4);
  }

  /** An identifier followed by a symbol: with `:` the statement is the declaration that
      follows, with any other symbol it is an error at that symbol. */
  lemma IdentifierThenSymbol(toks: seq<Token>, ops: map<Operator, nat>, i: nat)
    requires WellFormed(toks, ops) && i + 2 <= |toks|
    requires toks[i].kind == IdentifierTok && toks[i + 1].kind == SymbolTok
    ensures ParseStatementAt(toks, ops, i)
            == if toks[i + 1].lexeme == ":" then ParseDeclarationAt(toks, ops, i + 1, IdentAt(toks, i))
               else Fail(UnexpectedSymbol, i + 1)
  {
    var x := IdentAt(toks, i);
    assert SkipEolAt(toks, i) == i;
    assert ParseAtomAt(toks, i) == Done(x, i + 1);
    assert ParseExpressionAt(toks, ops, i) == Done(x, i + 1);
  }

  /** `: = e` after a name declares it with no declared type (`Nil`) and initializer e,
      placed at the name. */
  lemma InferredDeclaration(toks: seq<Token>, ops: map<Operator, nat>, i: nat, left: Expression)
    requires WellFormed(toks, ops) && i + 2 <= |toks|
    requires toks[i].lexeme == ":" && toks[i + 1].lexeme == "="
    ensures ParseDeclarationAt(toks, ops, i, left)
            == match ParseExpressionAt(toks, ops, i + 2)
               case Fail(e, at) => Fail(e, at)
               case Done(init, m) => Done(Statement(Variable(Nil, left, Some(init)), left.pos), m)
  {
    assert NextAt(toks, i) == Done((), i + 1);
    assert NextAt(toks, i + 1) == Done((), i + 2);
  }

  /** `: T = e` after a name declares it with the type T names and initializer e, placed at
      the name. */
  lemma TypedDeclarationWithInit(toks: seq<Token>, ops: map<Operator, nat>, i: nat, left: Expression)
    requires WellFormed(toks, ops) && i + 3 <= |toks|
    requires toks[i].lexeme == ":"
    requires toks[i + 1].kind == IdentifierTok && toks[i + 1].lexeme != "="
    requires toks[i + 2].lexeme == "="
    ensures ParseDeclarationAt(toks, ops, i, left)
            == match ParseExpressionAt(toks, ops, i + 3)
               case Fail(e, at) => Fail(e, at)
               case Done(init, m) => Done(Statement(Variable(TypeNamed(toks[i + 1].lexeme), left, Some(init)), left.pos), m)
  {
    assert NextAt(toks, i) == Done((), i + 1);
    assert ParseTypeAt(toks, i + 1) == Done(TypeNamed(toks[i + 1].lexeme), i + 2);
    assert NextAt(toks, i + 2) == Done((), i + 3);
  }

  /** `: T` after a name, not followed by `=`, declares it with the type T names and no
      initializer. */
  lemma TypedDeclarationWithoutInit(toks: seq<Token>, ops: map<Operator, nat>, i: nat, left: Expression)
    requires WellFormed(toks, ops) && i + 2 <= |toks|
    requires toks[i].lexeme == ":"
    requires toks[i + 1].kind == IdentifierTok && toks[i + 1].lexeme != "="
    requires CurrentAt(toks, i + 2).lexeme != "="
    ensures ParseDeclarationAt(toks, ops, i, left)
            == Done(Statement(Variable(TypeNamed(toks[i + 1].lexeme), left, None), left.pos), i + 2)
  {
    assert NextAt(toks, i) == Done((), i + 1);
    assert ParseTypeAt(toks, i + 1) == Done(TypeNamed(toks[i + 1].lexeme), i + 2);
  }

  /** `: 5`: a type annotation that is neither `=` nor an identifier fails, at the annotation. */
  lemma DeclarationNeedsTypeName(toks: seq<Token>, ops: map<Operator, nat>, i: nat, left: Expression)
    requires WellFormed(toks, ops) && i + 2 <= |toks|
    requires toks[i].lexeme == ":"
    requires toks[i + 1].kind != IdentifierTok && toks[i + 1].lexeme != "="
    ensures ParseDeclarationAt(toks, ops, i, left) == Fail(ExpectedType, i + 1)
  {
    assert NextAt(toks, i) == Done((), i + 1);
  }

  /** Only end-of-line tokens left: they are skipped and the statement is the `EOF`
      expression, placed at the last token. */
  lemma TrailingEndOfLinesGiveEof(toks: seq<Token>, ops: map<Operator, nat>, i: nat)
    requires WellFormed(toks, ops) && i < |toks|
    requires forall k | i <= k < |toks| :: toks[k].kind == EolTok
    ensures var eof := Expression(EOF, PositionAt(toks, |toks|));
            ParseStatementAt(toks, ops, i) == Done(Statement(ExpressionStatement(eof), eof.pos), |toks|)
  {
  }

  /** Every type except `Nil` is written by exactly one annotation, and reading that
      annotation gives the type back. */
  lemma TypeSpellingRoundTrip(t: Type)
    requires t != Nil && (t.Id? ==> !IsPrimitiveName(t.name))
    ensures TypeNamed(TypeSpelling(t)) == t
  {
  }
}
