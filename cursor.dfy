/** The parser's cursor: reads of the token sequence at an index, and moving the index. */
module Cursor {
  import opened Outcomes
  import opened Ast
  import opened Tokens

  /** Tokens left after the cursor; the subtraction saturates at zero. */
  function RemainingAt(toks: seq<Token>, i: nat): (r: nat)
    ensures r == 0 <==> |toks| <= i
    ensures r > 0 ==> i + r == |toks|
  {
    if i <= |toks| then |toks| - i else 0
  }

  /** Advancing succeeds up to one position beyond the last token and fails after that. */
  function NextAt(toks: seq<Token>, i: nat): (r: Step<()>)
    ensures r.Done? <==> i <= |toks|
    ensures r.Done? ==> r.next == i + 1 && r.next <= |toks| + 1
    ensures r.Fail? ==> r.error == OutsideTokenStack && r.at == i
  {
    if i <= |toks| then Done((), i + 1) else Fail(OutsideTokenStack, i)
  }

  /** The token under the cursor, or the last token once the cursor is past the end. */
  function CurrentAt(toks: seq<Token>, i: nat): (t: Token)
    requires |toks| > 0
    ensures t in toks
    ensures i < |toks| ==> t == toks[i]
    ensures RemainingAt(toks, i) == 0 ==> t == toks[|toks| - 1]
  {
    if i > |toks| - 1 then toks[|toks| - 1] else toks[i]
  }

  /** The position of the token under the cursor: always resolved, the token's own line
      and slice inside the sequence, and the last token's once the cursor is past the end. */
  function PositionAt(toks: seq<Token>, i: nat): (p: Position)
    requires |toks| > 0
    ensures p.Pos?
    ensures i < |toks| ==> p == Pos(toks[i].line, toks[i].lineLen, toks[i].start, toks[i].end)
    ensures |toks| <= i ==> p == PositionAt(toks, |toks| - 1)
  {
    var t := CurrentAt(toks, i);
    Pos(t.line, t.lineLen, t.start, t.end)
  }

  /** The span from a left position to the token under the cursor: it keeps the left
      position's line and start and ends at the current token's end, clamped to that line. */
  function SpanFrom(toks: seq<Token>, i: nat, left: Position): (p: Position)
    requires |toks| > 0
    ensures !left.Pos? ==> p == left
    ensures left.Pos? ==> p.Pos? && p.line == left.line && p.lineLen == left.lineLen && p.start == left.start
    ensures left.Pos? ==> p.end <= left.lineLen && p.end <= CurrentAt(toks, i).end
    ensures left.Pos? ==> p.end == left.lineLen || p.end == CurrentAt(toks, i).end
  {
    match left
    case Pos(line, lineLen, start, _) =>
      var current := PositionAt(toks, i);
      Pos(line, lineLen, start, if current.end < lineLen then current.end else lineLen)
    case Unresolved => left
  }

  /** Takes the current lexeme and advances past it. */
  function EatAt(toks: seq<Token>, i: nat): (r: Step<string>)
    requires |toks| > 0
    ensures r.Done? <==> i <= |toks|
    ensures r.Done? ==> r.value == CurrentAt(toks, i).lexeme && r.next == i + 1
    ensures r.Fail? ==> r == Fail(OutsideTokenStack, i)
  {
    var lexeme := CurrentAt(toks, i).lexeme;
    match NextAt(toks, i)
    case Fail(e, at) => Fail(e, at)
    case Done(_, j) => Done(lexeme, j)
  }

  /** Checks the kind of the current token without moving. */
  function ExpectKindAt(toks: seq<Token>, i: nat, kind: TokenKind): (r: Result<()>)
    requires |toks| > 0
    ensures r.Ok? <==> CurrentAt(toks, i).kind == kind
    ensures r.Err? ==> r.error == ExpectedToken
  {
    if CurrentAt(toks, i).kind == kind then Ok(()) else Err(ExpectedToken)
  }
}
