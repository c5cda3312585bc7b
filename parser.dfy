/** The parser object: a cursor over a fixed token sequence, moved by its methods. Each
    method returns what the matching function of `Grammar` computes from the cursor it
    started at, and leaves the cursor where that function says. */
module Parsing {
  import opened Outcomes
  import opened Ast
  import opened Tokens
  import opened Cursor
  import opened Grouping
  import opened Grammar

  class Parser {
    const tokens: seq<Token>
    const ops: map<Operator, nat>   // the operator table: operator lexeme to precedence
    var index: nat

    /** The cursor never passes one position beyond the last token. */
    ghost predicate Valid()
      reads this
    {
      WellFormed(tokens, ops) && index <= |tokens| + 1
    }

    constructor (tokens: seq<Token>, ops: map<Operator, nat>)
      requires WellFormed(tokens, ops)
      ensures Valid() && this.tokens == tokens && this.ops == ops && index == 0
    {
      this.tokens := tokens;
      this.ops := ops;
      index := 0;
    }

    method Next() returns (r: Result<()>)
      requires Valid()
      modifies this
      ensures Valid()
      ensures var s := NextAt(tokens, old(index)); r == s.ToResult() && index == s.Cursor()
    {
      if index <= |tokens| {
        index := index + 1;
        r := Ok(());
      } else {
        r := Err(OutsideTokenStack);
      }
    }

    method Eat() returns (r: Result<string>)
      requires Valid() && |tokens| > 0
      modifies this
      ensures Valid()
      ensures var s := EatAt(tokens, old(index)); r == s.ToResult() && index == s.Cursor()
    {
      var lexeme := CurrentAt(tokens, index).lexeme;
      var moved :- Next();
      r := Ok(lexeme);
    }

    /** Consumes the current token if its lexeme is `lexeme`. */
    method EatLexeme(lexeme: string) returns (r: Result<string>)
      requires Valid() && |tokens| > 0
      modifies this
      ensures Valid()
      ensures CurrentAt(tokens, old(index)).lexeme != lexeme ==> r == Err(ExpectedToken) && index == old(index)
      ensures CurrentAt(tokens, old(index)).lexeme == lexeme ==>
                var s := EatAt(tokens, old(index)); r == s.ToResult() && index == s.Cursor()
    {
      if CurrentAt(tokens, index).lexeme == lexeme {
        var found := CurrentAt(tokens, index).lexeme;
        var moved :- Next();
        r := Ok(found);
      } else {
        r := Err(ExpectedToken);
      }
    }

    /** Consumes the current token if it is of kind `kind`. */
    method EatKind(kind: TokenKind) returns (r: Result<string>)
      requires Valid() && |tokens| > 0
      modifies this
      ensures Valid()
      ensures CurrentAt(tokens, old(index)).kind != kind ==> r == Err(ExpectedToken) && index == old(index)
      ensures CurrentAt(tokens, old(index)).kind == kind ==>
                var s := EatAt(tokens, old(index)); r == s.ToResult() && index == s.Cursor()
    {
      if CurrentAt(tokens, index).kind == kind {
        var found := CurrentAt(tokens, index).lexeme;
        var moved :- Next();
        r := Ok(found);
      } else {
        r := Err(ExpectedToken);
      }
    }

    method ParseAtom() returns (r: Result<Expression>)
      requires Valid() && |tokens| > 0
      modifies this
      ensures Valid()
      ensures var s := ParseAtomAt(tokens, old(index)); r == s.ToResult() && index == s.Cursor()
    {
      if RemainingAt(tokens, index) == 0 {
        return Ok(Expression(EOF, PositionAt(tokens, index)));
      }
      var kind := CurrentAt(tokens, index).kind;
      var position := PositionAt(tokens, index);
      if !IsAtomKind(kind) {
        return Err(Unimplemented);
      }
      // The cursor is before the end, so eating cannot fail here.
      var eaten := Eat();
      var lexeme := eaten.value;
      var node;
      match kind {
        case IntTok => node := IntLiteral(DecimalValue(lexeme));
        case FloatTok => node := FloatLiteral(lexeme);
        case CharTok => node := CharLiteral(lexeme[|lexeme| - 1]);
        case StringTok => node := StringLiteral(lexeme);
        case IdentifierTok => node := Identifier(lexeme);
        case BoolTok => node := BoolLiteral(lexeme == "true");
      }
      r := Ok(Expression(node, position));
    }

    method ParseExpression() returns (r: Result<Expression>)
      requires Valid() && |tokens| > 0
      modifies this
      ensures Valid()
      ensures var s := ParseExpressionAt(tokens, ops, old(index)); r == s.ToResult() && index == s.Cursor()
    {
      var atom :- ParseAtom();
      if CurrentAt(tokens, index).kind == OperatorTok {
        r := ParseBinary(atom);
      } else {
        r := Ok(atom);
      }
    }

    /** Pops the two top operands and the top operator and pushes their combination,
        stamped with the current position. */
    method Reduce(es: seq<Expression>, os: seq<(Operator, nat)>) returns (es': seq<Expression>, os': seq<(Operator, nat)>)
      requires |tokens| > 0 && Balanced(Stacks(es, os)) && |os| > 0
      ensures Stacks(es', os') == ReduceTop(Stacks(es, os), PositionAt(tokens, index))
    {
      var right := es[|es| - 1];
      var left := es[|es| - 2];
      var op := os[|os| - 1].0;
      es' := es[..|es| - 2] + [Expression(Binary(left, op, right), PositionAt(tokens, index))];
      os' := os[..|os| - 1];
    }

    /** Explicit-stack precedence climbing. An incoming operator of strictly lower
        precedence than the top one reduces that single top operator before it is pushed;
        any other incoming operator is pushed at once; when no operator follows, the
        stacks are reduced from the top down. */
    method ParseBinary(left: Expression) returns (r: Result<Expression>)
      requires Valid() && |tokens| > 0 && CurrentAt(tokens, index).kind == OperatorTok
      modifies this
      ensures Valid()
      ensures var s := ParseBinaryAt(tokens, ops, old(index), left); r == s.ToResult() && index == s.Cursor()
    {
      var leftPosition := left.pos;
      ghost var start := index;
      var lexeme :- Eat();
      var es := [left];
      var os := [(lexeme, ops[lexeme])];
      ghost var afterOperator := index;
      var atom :- ParseAtom();
      es := es + [atom];
      assert EatAt(tokens, start) == Done(lexeme, afterOperator);
      assert ParseAtomAt(tokens, afterOperator) == Done(atom, index);
      assert es == [left, atom];

      ghost var target := FinishBinaryAt(tokens, ops, index, Stacks(es, os));
      assert ParseBinaryAt(tokens, ops, old(index), left)
          == match target
             case Fail(e, at) => Fail(e, at)
             case Done(tree, m) => Done(Expression(tree.node, SpanFrom(tokens, m, leftPosition)), m);

      while |os| > 0
        invariant Valid()
        invariant |es| == |os| + 1
        invariant |os| > 0 ==> FinishBinaryAt(tokens, ops, index, Stacks(es, os)) == target
        invariant |os| == 0 ==> target == Done(es[0], index)
        decreases |tokens| + 1 - index, |os|
      {
        ghost var outerIndex, outerOps := index, |os|;
        while CurrentAt(tokens, index).kind == OperatorTok
          invariant Valid()
          invariant |es| == |os| + 1 && |os| > 0
          invariant FinishBinaryAt(tokens, ops, index, Stacks(es, os)) == target
          invariant outerIndex <= index && (index == outerIndex ==> |os| == outerOps)
          decreases |tokens| + 1 - index
        {
          FinishStep(tokens, ops, index, Stacks(es, os));
          var shifted :- ShiftOperator(es, os);
          es, os := shifted.es, shifted.os;
        }
        es, os := Reduce(es, os);
      }
      r := Ok(Expression(es[0].node, SpanFrom(tokens, index, leftPosition)));
    }

    /** One pass of parse_binary's inner loop: consumes the operator under the cursor and
        the atom after it and pushes both; when the operator binds strictly less tightly
        than the top one, that single top operator is reduced first, and the input must
        not end right after the operator. */
    method ShiftOperator(es: seq<Expression>, os: seq<(Operator, nat)>) returns (r: Result<Stacks>)
      requires Valid() && |tokens| > 0 && Balanced(Stacks(es, os)) && |os| > 0
      requires CurrentAt(tokens, index).kind == OperatorTok
      modifies this
      ensures Valid()
      ensures var s := ShiftStepAt(tokens, ops, old(index), Stacks(es, os)); r == s.ToResult() && index == s.Cursor()
    {
      var incoming :- Eat();
      var precedence := ops[incoming];
      ghost var afterOperator := index;
      var es', os' := es, os;
      if precedence < os[|os| - 1].1 {
        es', os' := Reduce(es, os);
        if RemainingAt(tokens, index) == 0 {
          return Err(EofInOperation);
        }
      }
      var next :- ParseAtom();
      r := Ok(Stacks(es' + [next], os' + [(incoming, precedence)]));
      assert r.value == Shift(Stacks(es, os), Item(incoming, precedence, next, PositionAt(tokens, afterOperator)));
    }

    method ParseType() returns (r: Result<Type>)
      requires Valid() && |tokens| > 0
      modifies this
      ensures Valid()
      ensures var s := ParseTypeAt(tokens, old(index)); r == s.ToResult() && index == s.Cursor()
    {
      if CurrentAt(tokens, index).kind == IdentifierTok {
        var name :- Eat();
        r := Ok(TypeNamed(name));
      } else {
        r := Err(ExpectedType);
      }
    }

    method ParseDeclaration(left: Expression) returns (r: Result<Statement>)
      requires Valid() && |tokens| > 0
      modifies this
      ensures Valid()
      ensures var s := ParseDeclarationAt(tokens, ops, old(index), left); r == s.ToResult() && index == s.Cursor()
    {
      if CurrentAt(tokens, index).lexeme == ":" {
        var moved :- Next();
        var position := left.pos;
        if CurrentAt(tokens, index).lexeme == "=" {
          moved :- Next();
          var right :- ParseExpression();
          r := Ok(Statement(Variable(Nil, left, Some(right)), left.pos));
        } else {
          var t :- ParseType();
          if CurrentAt(tokens, index).lexeme == "=" {
            moved :- Next();
            var right :- ParseExpression();
            r := Ok(Statement(Variable(t, left, Some(right)), left.pos));
          } else {
            r := Ok(Statement(Variable(t, left, None), position));
          }
        }
      } else {
        r := Err(MissingColon);
      }
    }

    method ParseStatement() returns (r: Result<Statement>)
      requires Valid() && |tokens| > 0
      modifies this
      ensures Valid()
      ensures var s := ParseStatementAt(tokens, ops, old(index)); r == s.ToResult() && index == s.Cursor()
    {
      while CurrentAt(tokens, index).kind == EolTok && RemainingAt(tokens, index) != 0
        invariant Valid()
        invariant SkipEolAt(tokens, index) == SkipEolAt(tokens, old(index))
        decreases |tokens| - index
      {
        // The cursor is before the end, so moving cannot fail here.
        var moved := Next();
      }
      var expression :- ParseExpression();
      match expression.node {
        case Identifier(_) =>
          if RemainingAt(tokens, index) > 0 {
            if CurrentAt(tokens, index).kind == SymbolTok {
              if CurrentAt(tokens, index).lexeme == ":" {
                r := ParseDeclaration(expression);
              } else {
                r := Err(UnexpectedSymbol);
              }
            } else {
              r := Ok(Statement(ExpressionStatement(expression), expression.pos));
            }
          } else {
            r := Ok(Statement(ExpressionStatement(expression), expression.pos));
          }
        case _ =>
          r := Ok(Statement(ExpressionStatement(expression), expression.pos));
      }
    }

    method Parse() returns (r: Result<seq<Statement>>)
      requires Valid()
      modifies this
      ensures Valid()
      ensures var s := ParseAllAt(tokens, ops, old(index)); r == s.ToResult() && index == s.Cursor()
    {
      var ast := [];
      ghost var all := ParseAllAt(tokens, ops, index);
      if all.Done? {
        assert [] + all.value == all.value;
      }
      while RemainingAt(tokens, index) > 0
        invariant Valid()
        invariant ParseAllAt(tokens, ops, old(index)) == Prefixed(ast, ParseAllAt(tokens, ops, index))
        decreases |tokens| + 1 - index
      {
        ghost var before := index;
        var statement :- ParseStatement();
        assert ParseAllAt(tokens, ops, before) == Prefixed([statement], ParseAllAt(tokens, ops, index));
        PrefixedTwice(ast, [statement], ParseAllAt(tokens, ops, index));
        ast := ast + [statement];
      }
      assert ast + [] == ast;
      r := Ok(ast);
    }
  }
}
