/** The parser's behaviour as functions of the token sequence, the precedence table and
    the cursor: each returns what the corresponding parser method returns together with
    the cursor it leaves behind. */
module Grammar {
  import opened Outcomes
  import opened Ast
  import opened Tokens
  import opened Cursor
  import opened Grouping

  /** Token kinds that form an atom on their own. */
  predicate IsAtomKind(k: TokenKind) {
    k == IntTok || k == FloatTok || k == CharTok || k == StringTok || k == IdentifierTok || k == BoolTok
  }

  /** One literal or identifier. An exhausted cursor yields `EOF` without consuming; an atom
      token is consumed; any other token is an error and is not consumed. */
  function ParseAtomAt(toks: seq<Token>, i: nat): (r: Step<Expression>)
    requires LexemesOk(toks) && |toks| > 0 && i <= |toks| + 1
    ensures i <= r.Cursor() <= |toks| + 1
    ensures RemainingAt(toks, i) == 0 ==> r == Done(Expression(EOF, PositionAt(toks, i)), i)
    ensures RemainingAt(toks, i) > 0 ==> (r.Done? <==> IsAtomKind(toks[i].kind))
    ensures RemainingAt(toks, i) > 0 && r.Fail? ==> r == Fail(Unimplemented, i)
    ensures RemainingAt(toks, i) > 0 && r.Done? ==>
              && r.next == i + 1
              && r.value.pos == PositionAt(toks, i)
              && (toks[i].kind == BoolTok ==> r.value.node.BoolLiteral? && (r.value.node.b <==> toks[i].lexeme == "true"))
              && (toks[i].kind == CharTok ==> r.value.node == CharLiteral(toks[i].lexeme[|toks[i].lexeme| - 1]))
              && (toks[i].kind == IntTok ==> r.value.node == IntLiteral(DecimalValue(toks[i].lexeme)) && r.value.node.value < U128Limit)
              && (toks[i].kind == FloatTok ==> r.value.node == FloatLiteral(toks[i].lexeme))
              && (toks[i].kind == StringTok ==> r.value.node == StringLiteral(toks[i].lexeme))
              && (toks[i].kind == IdentifierTok ==> r.value.node == Identifier(toks[i].lexeme))
  {
    if RemainingAt(toks, i) == 0 then
      Done(Expression(EOF, PositionAt(toks, i)), i)
    else
      var kind := CurrentAt(toks, i).kind;
      var position := PositionAt(toks, i);
      if !IsAtomKind(kind) then
        Fail(Unimplemented, i)
      else
        match EatAt(toks, i)
        case Fail(e, at) => Fail(e, at)
        case Done(lexeme, j) =>
          var node := match kind
            case IntTok => IntLiteral(DecimalValue(lexeme))
            case FloatTok => FloatLiteral(lexeme)
            case CharTok => CharLiteral(lexeme[|lexeme| - 1])
            case StringTok => StringLiteral(lexeme)
            case IdentifierTok => Identifier(lexeme)
            case BoolTok => BoolLiteral(lexeme == "true");
          Done(Expression(node, position), j)
  }

  /** `items` were read as operator/atom token pairs from cursor `i`: the k-th item is the
      operator token at `i + 2k` with its precedence and the atom parsed from the token after it,
      stamped with that token's position. */
  predicate ScannedPairs(toks: seq<Token>, ops: map<Operator, nat>, i: nat, items: seq<Item>)
    requires LexemesOk(toks) && |toks| > 0
  {
    forall k | 0 <= k < |items| ::
      && i + 2 * k + 1 < |toks|
      && toks[i + 2 * k].kind == OperatorTok
      && items[k].op == toks[i + 2 * k].lexeme
      && items[k].op in ops && items[k].prec == ops[items[k].op]
      && ParseAtomAt(toks, i + 2 * k + 1) == Done(items[k].atom, i + 2 * k + 2)
      && items[k].at == PositionAt(toks, i + 2 * k + 1)
  }

  lemma ScannedPairsCons(toks: seq<Token>, ops: map<Operator, nat>, i: nat, item: Item, rest: seq<Item>)
    requires LexemesOk(toks) && |toks| > 0 && i + 1 < |toks|
    requires toks[i].kind == OperatorTok && item.op == toks[i].lexeme && item.op in ops && item.prec == ops[item.op]
    requires ParseAtomAt(toks, i + 1) == Done(item.atom, i + 2)
    requires item.at == PositionAt(toks, i + 1)
    requires ScannedPairs(toks, ops, i + 2, rest)
    ensures ScannedPairs(toks, ops, i, [item] + rest)
  {
    var items := [item] + rest;
    forall k | 0 <= k < |items|
      ensures i + 2 * k + 1 < |toks| && toks[i + 2 * k].kind == OperatorTok && items[k].op == toks[i + 2 * k].lexeme
      ensures items[k].op in ops && items[k].prec == ops[items[k].op]
      ensures ParseAtomAt(toks, i + 2 * k + 1) == Done(items[k].atom, i + 2 * k + 2)
      ensures items[k].at == PositionAt(toks, i + 2 * k + 1)
    {
      if k > 0 {
        assert items[k] == rest[k - 1];
        assert i + 2 + 2 * (k - 1) == i + 2 * k;
      }
    }
  }

  /** Reads the operator under the cursor and the atom after it. `prev` is the precedence
      of the operator read before; an operator of strictly lower precedence that is the last
      token fails with `EofInOperation` just after it. The item is stamped with the position
      of the token after the operator, where the reduction it triggers is placed. */
  function OperatorPairAt(toks: seq<Token>, ops: map<Operator, nat>, i: nat, prev: nat): (r: Step<Item>)
    requires WellFormed(toks, ops) && |toks| > 0 && i <= |toks| + 1
    requires CurrentAt(toks, i).kind == OperatorTok
    ensures i <= r.Cursor() <= |toks| + 1
    ensures r.Done? ==> i < r.next
    ensures r.Done? ==>
              && r.value.op == CurrentAt(toks, i).lexeme
              && r.value.op in ops && r.value.prec == ops[r.value.op]
              && r.value.at == PositionAt(toks, i + 1)
    ensures r.Done? ==> i <= |toks| && ParseAtomAt(toks, i + 1) == Done(r.value.atom, r.next)
    ensures r.Done? && i + 1 < |toks| ==> r.next == i + 2
    ensures r.Done? && |toks| <= i + 1 ==> toks[|toks| - 1].kind == OperatorTok
  {
    match EatAt(toks, i)
    case Fail(e, at) => Fail(e, at)
    case Done(lexeme, j) =>
      assert CurrentAt(toks, i) in toks;
      assert |toks| <= j ==> toks[|toks| - 1] == CurrentAt(toks, i);
      var prec := ops[lexeme];
      if prec < prev && RemainingAt(toks, j) == 0 then
        Fail(EofInOperation, j)
      else
        match ParseAtomAt(toks, j)
        case Fail(e, at) => Fail(e, at)
        case Done(atom, k) => Done(Item(lexeme, prec, atom, PositionAt(toks, j)), k)
  }

  /** A pair read at `i` followed by a scan that stopped on a non-operator: the scan did not
      stop past the end, where the current token is an operator, so the pair was two real
      tokens and the items together are the pairs read from `i`. */
  lemma PairThenPairs(toks: seq<Token>, ops: map<Operator, nat>, i: nat, item: Item, k: nat, rest: seq<Item>, m: nat)
    requires LexemesOk(toks) && |toks| > 0 && i < k
    requires CurrentAt(toks, i).kind == OperatorTok && item.op == CurrentAt(toks, i).lexeme && item.op in ops && item.prec == ops[item.op]
    requires i <= |toks| && ParseAtomAt(toks, i + 1) == Done(item.atom, k)
    requires item.at == PositionAt(toks, i + 1)
    requires i + 1 < |toks| ==> k == i + 2
    requires |toks| <= i + 1 ==> toks[|toks| - 1].kind == OperatorTok
    requires CurrentAt(toks, m).kind != OperatorTok && m == k + 2 * |rest|
    requires ScannedPairs(toks, ops, k, rest)
    ensures m == i + 2 * |[item] + rest| && ScannedPairs(toks, ops, i, [item] + rest)
  {
    assert |toks| <= m ==> CurrentAt(toks, m) == toks[|toks| - 1];
    ScannedPairsCons(toks, ops, i, item, rest);
  }

  /** Reads operator/atom pairs while the current token is an operator, each operator's
      precedence compared with the one before it. A successful scan reads whole token pairs:
      the k-th item is the operator at `i + 2k` with its precedence. */
  function ScanAt(toks: seq<Token>, ops: map<Operator, nat>, i: nat, prev: nat): (r: Step<seq<Item>>)
    requires WellFormed(toks, ops) && |toks| > 0 && i <= |toks| + 1
    ensures i <= r.Cursor() <= |toks| + 1
    ensures r.Done? ==> CurrentAt(toks, r.next).kind != OperatorTok && r.next == i + 2 * |r.value|
    ensures r.Done? ==> ScannedPairs(toks, ops, i, r.value)
    decreases |toks| + 1 - i
  {
    if CurrentAt(toks, i).kind != OperatorTok then
      Done([], i)
    else
      match OperatorPairAt(toks, ops, i, prev)
      case Fail(e, at) => Fail(e, at)
      case Done(item, k) =>
        match ScanAt(toks, ops, k, item.prec)
        case Fail(e, at) => Fail(e, at)
        case Done(rest, m) =>
          PairThenPairs(toks, ops, i, item, k, rest, m);
          Done([item] + rest, m)
  }

  /** Finishes a binary expression from cursor `i` with the stacks `st`: scans the rest of
      the operator chain, then reduces everything at the position where the scan stopped. */
  function FinishBinaryAt(toks: seq<Token>, ops: map<Operator, nat>, i: nat, st: Stacks): (r: Step<Expression>)
    requires WellFormed(toks, ops) && |toks| > 0 && i <= |toks| + 1
    requires Balanced(st) && |st.os| > 0
    ensures i <= r.Cursor() <= |toks| + 1
    ensures r.Done? ==> CurrentAt(toks, r.next).kind != OperatorTok && r.value.node.Binary?
  {
    match ScanAt(toks, ops, i, TopPrec(st))
    case Fail(e, at) => Fail(e, at)
    case Done(items, j) => Done(ReduceAll(ShiftAll(st, items), PositionAt(toks, j)), j)
  }

  /** An operator as the last token whose precedence is strictly below the previous one
      ends the scan with "reached EOF in operation", just after that operator. */
  lemma ScanFailsOnTrailingLowerOperator(toks: seq<Token>, ops: map<Operator, nat>, i: nat, prev: nat)
    requires WellFormed(toks, ops) && i + 1 == |toks|
    requires toks[i].kind == OperatorTok
    ensures toks[i].lexeme in ops
    ensures ops[toks[i].lexeme] < prev <==> ScanAt(toks, ops, i, prev) == Fail(EofInOperation, i + 1)
  {
    assert toks[i] in toks;
    assert EatAt(toks, i) == Done(toks[i].lexeme, i + 1);
  }

  /** One pass of the operator loop: reads the operator under the cursor and the atom
      after it onto the stacks. An operator of strictly lower precedence than the top one
      first reduces that single top operator, and must not be the last token. */
  function ShiftStepAt(toks: seq<Token>, ops: map<Operator, nat>, i: nat, st: Stacks): (r: Step<Stacks>)
    requires WellFormed(toks, ops) && |toks| > 0 && i <= |toks| + 1
    requires Balanced(st) && |st.os| > 0 && CurrentAt(toks, i).kind == OperatorTok
    ensures i <= r.Cursor() <= |toks| + 1
    ensures r.Done? ==> i < r.next && Balanced(r.value) && |r.value.os| > 0
    ensures r.Done? ==> r.value.os[|r.value.os| - 1].0 == CurrentAt(toks, i).lexeme
    ensures r.Done? && i + 1 < |toks| ==> r.next == i + 2
  {
    match OperatorPairAt(toks, ops, i, TopPrec(st))
    case Fail(e, at) => Fail(e, at)
    case Done(item, k) => Done(Shift(st, item), k)
  }

  /** Finishing a binary expression with an operator under the cursor is one pass of the
      operator loop followed by finishing from the cursor it leaves. */
  lemma FinishStep(toks: seq<Token>, ops: map<Operator, nat>, i: nat, st: Stacks)
    requires WellFormed(toks, ops) && |toks| > 0 && i <= |toks| + 1
    requires Balanced(st) && |st.os| > 0 && CurrentAt(toks, i).kind == OperatorTok
    ensures FinishBinaryAt(toks, ops, i, st)
            == match ShiftStepAt(toks, ops, i, st)
               case Fail(e, at) => Fail(e, at)
               case Done(st', k) => FinishBinaryAt(toks, ops, k, st')
  {
    match OperatorPairAt(toks, ops, i, TopPrec(st))
    case Fail(e, at) =>
    case Done(item, k) =>
      assert TopPrec(Shift(st, item)) == item.prec;
      match ScanAt(toks, ops, k, item.prec)
      case Fail(e, at) =>
      case Done(rest, m) =>
        assert ([item] + rest)[1..] == rest;
  }

  /** A binary expression whose left operand is already parsed; the cursor is on an operator.
      The result is stamped with the span from the left operand to where parsing stopped. */
  function ParseBinaryAt(toks: seq<Token>, ops: map<Operator, nat>, i: nat, left: Expression): (r: Step<Expression>)
    requires WellFormed(toks, ops) && |toks| > 0 && i <= |toks| + 1
    requires CurrentAt(toks, i).kind == OperatorTok
    ensures i <= r.Cursor() <= |toks| + 1
    ensures r.Done? ==> i < r.next && CurrentAt(toks, r.next).kind != OperatorTok
    ensures r.Done? ==> r.value.node.Binary? && r.value.pos == SpanFrom(toks, r.next, left.pos)
  {
    match EatAt(toks, i)
    case Fail(e, at) => Fail(e, at)
    case Done(lexeme, j) =>
      var first := (lexeme, ops[lexeme]);
      match ParseAtomAt(toks, j)
      case Fail(e, at) => Fail(e, at)
      case Done(atom, k) =>
        match FinishBinaryAt(toks, ops, k, Stacks([left, atom], [first]))
        case Fail(e, at) => Fail(e, at)
        case Done(tree, m) => Done(Expression(tree.node, SpanFrom(toks, m, left.pos)), m)
  }

  /** An atom, extended to a binary expression when an operator follows it. */
  function ParseExpressionAt(toks: seq<Token>, ops: map<Operator, nat>, i: nat): (r: Step<Expression>)
    requires WellFormed(toks, ops) && |toks| > 0 && i <= |toks| + 1
    ensures i <= r.Cursor() <= |toks| + 1
    ensures r.Done? ==> CurrentAt(toks, r.next).kind != OperatorTok
    ensures r.Done? && RemainingAt(toks, i) > 0 ==> i < r.next
  {
    match ParseAtomAt(toks, i)
    case Fail(e, at) => Fail(e, at)
    case Done(atom, j) =>
      if CurrentAt(toks, j).kind == OperatorTok then ParseBinaryAt(toks, ops, j, atom) else Done(atom, j)
  }

  /** The reserved type names. */
  predicate IsPrimitiveName(name: string) {
    name == "str" || name == "int" || name == "float" || name == "bool" || name == "char"
  }

  /** The type a type name denotes: a reserved name gives its primitive type, any other
      name a named type; no name denotes `Nil`. */
  function TypeNamed(name: string): (t: Type)
    ensures t != Nil
    ensures t.Id? <==> !IsPrimitiveName(name)
    ensures t.Id? ==> t.name == name
  {
    match name
    case "str" => String
    case "int" => Int
    case "float" => Float
    case "bool" => Bool
    case "char" => Char
    case _ => Id(name)
  }

  /** The spelling of a type annotation, for every type but `Nil`. */
  function TypeSpelling(t: Type): string
    requires t != Nil
  {
    match t
    case String => "str"
    case Int => "int"
    case Float => "float"
    case Bool => "bool"
    case Char => "char"
    case Id(name) => name
  }

  /** A type annotation: the current token must be an identifier, which is consumed. */
  function ParseTypeAt(toks: seq<Token>, i: nat): (r: Step<Type>)
    requires |toks| > 0 && i <= |toks| + 1
    ensures i <= r.Cursor() <= |toks| + 1
    ensures CurrentAt(toks, i).kind != IdentifierTok ==> r == Fail(ExpectedType, i)
    ensures CurrentAt(toks, i).kind == IdentifierTok && i <= |toks| ==>
              r == Done(TypeNamed(CurrentAt(toks, i).lexeme), i + 1)
  {
    if CurrentAt(toks, i).kind == IdentifierTok then
      match EatAt(toks, i)
      case Fail(e, at) => Fail(e, at)
      case Done(lexeme, j) => Done(TypeNamed(lexeme), j)
    else
      Fail(ExpectedType, i)
  }

  /** The rest of a declaration after its name `left`: `: = e`, `: T = e` or `: T`. */
  function ParseDeclarationAt(toks: seq<Token>, ops: map<Operator, nat>, i: nat, left: Expression): (r: Step<Statement>)
    requires WellFormed(toks, ops) && |toks| > 0 && i <= |toks| + 1
    ensures i <= r.Cursor() <= |toks| + 1
    ensures CurrentAt(toks, i).lexeme != ":" ==> r == Fail(MissingColon, i)
    ensures r.Done? ==> i < r.next && r.value.pos == left.pos
    ensures r.Done? ==> r.value.node.Variable? && r.value.node.name == left
  {
    if CurrentAt(toks, i).lexeme != ":" then
      Fail(MissingColon, i)
    else
      match NextAt(toks, i)
      case Fail(e, at) => Fail(e, at)
      case Done(_, j) =>
        if CurrentAt(toks, j).lexeme == "=" then
          match NextAt(toks, j)
          case Fail(e, at) => Fail(e, at)
          case Done(_, k) =>
            match ParseExpressionAt(toks, ops, k)
            case Fail(e, at) => Fail(e, at)
            case Done(right, m) => Done(Statement(Variable(Nil, left, Some(right)), left.pos), m)
        else
          match ParseTypeAt(toks, j)
          case Fail(e, at) => Fail(e, at)
          case Done(t, k) =>
            if CurrentAt(toks, k).lexeme == "=" then
              match NextAt(toks, k)
              case Fail(e, at) => Fail(e, at)
              case Done(_, m) =>
                match ParseExpressionAt(toks, ops, m)
                case Fail(e, at) => Fail(e, at)
                case Done(right, n) => Done(Statement(Variable(t, left, Some(right)), left.pos), n)
            else
              Done(Statement(Variable(t, left, None), left.pos), k)
  }

  /** The cursor after the end-of-line tokens in front of it. */
  function SkipEolAt(toks: seq<Token>, i: nat): (j: nat)
    requires |toks| > 0 && i <= |toks| + 1
    ensures i <= j <= |toks| + 1
    ensures RemainingAt(toks, j) == 0 || CurrentAt(toks, j).kind != EolTok
    ensures j <= |toks| || j == i
    ensures forall k | i <= k < j :: toks[k].kind == EolTok
    decreases |toks| + 1 - i
  {
    if CurrentAt(toks, i).kind == EolTok && RemainingAt(toks, i) != 0 then
      assert toks[i] == CurrentAt(toks, i);
      var j := SkipEolAt(toks, i + 1);
      j
    else
      i
  }

  /** One statement: leading end-of-line tokens are skipped; an identifier followed by `:`
      starts a declaration; an identifier followed by another symbol is an error; anything
      else is an expression statement placed at its expression. */
  function ParseStatementAt(toks: seq<Token>, ops: map<Operator, nat>, i: nat): (r: Step<Statement>)
    requires WellFormed(toks, ops) && |toks| > 0 && i <= |toks| + 1
    ensures i <= r.Cursor() <= |toks| + 1
    ensures r.Done? && RemainingAt(toks, i) > 0 ==> i < r.next
    ensures r.Done? && r.value.node.ExpressionStatement? ==> r.value.pos == r.value.node.expr.pos
    ensures r.Done? && r.value.node.Variable? ==>
              r.value.node.name.node.Identifier? && r.value.pos == r.value.node.name.pos
  {
    var j := SkipEolAt(toks, i);
    match ParseExpressionAt(toks, ops, j)
    case Fail(e, at) => Fail(e, at)
    case Done(expression, k) =>
      if expression.node.Identifier? && RemainingAt(toks, k) > 0 && CurrentAt(toks, k).kind == SymbolTok then
        if CurrentAt(toks, k).lexeme == ":" then ParseDeclarationAt(toks, ops, k, expression)
        else Fail(UnexpectedSymbol, k)
      else
        Done(Statement(ExpressionStatement(expression), expression.pos), k)
  }

  /** Puts `prefix` in front of the statements of a successful step. */
  function Prefixed(prefix: seq<Statement>, s: Step<seq<Statement>>): (r: Step<seq<Statement>>)
    ensures r.Cursor() == s.Cursor()
  {
    match s
    case Fail(e, at) => Fail(e, at)
    case Done(rest, j) => Done(prefix + rest, j)
  }

  /** Prefixing twice is prefixing once with the concatenation. */
  lemma PrefixedTwice(a: seq<Statement>, b: seq<Statement>, s: Step<seq<Statement>>)
    ensures Prefixed(a, Prefixed(b, s)) == Prefixed(a + b, s)
  {
    if s.Done? {
      assert a + (b + s.value) == (a + b) + s.value;
    }
  }

  /** Statements until the tokens are exhausted; success leaves nothing remaining. */
  function ParseAllAt(toks: seq<Token>, ops: map<Operator, nat>, i: nat): (r: Step<seq<Statement>>)
    requires WellFormed(toks, ops) && i <= |toks| + 1
    ensures i <= r.Cursor() <= |toks| + 1
    ensures r.Done? ==> RemainingAt(toks, r.next) == 0
    ensures r.Done? ==> |r.value| <= r.next - i
    decreases |toks| + 1 - i
  {
    if RemainingAt(toks, i) == 0 then
      Done([], i)
    else
      match ParseStatementAt(toks, ops, i)
      case Fail(e, at) => Fail(e, at)
      case Done(statement, j) => Prefixed([statement], ParseAllAt(toks, ops, j))
  }
}
