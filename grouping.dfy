/** The two-stack machine of the binary-expression parser, separated from token reading.
    An operand stack and an operator stack (operator, precedence) grow together; an
    incoming operator whose precedence is strictly lower than the top one first reduces
    that single top operator; at the end the stacks are reduced from the top down. */
module Grouping {
  import opened Ast

  /** An operator read after the first one, the atom that follows it, and the position a
      reduction triggered by it is stamped with (the cursor just after the operator). */
  datatype Item = Item(op: Operator, prec: nat, atom: Expression, at: Position)

  /** The operand and operator stacks; the top of each is its last element. */
  datatype Stacks = Stacks(es: seq<Expression>, os: seq<(Operator, nat)>)

  /** The parser's stack invariant: one more operand than operators. */
  predicate Balanced(st: Stacks) {
    |st.es| == |st.os| + 1
  }

  function TopPrec(st: Stacks): nat
    requires |st.os| > 0
  {
    st.os[|st.os| - 1].1
  }

  function Combine(left: Expression, op: Operator, right: Expression, pos: Position): Expression {
    Expression(Binary(left, op, right), pos)
  }

  /** Pops two operands and the top operator and pushes their combination. */
  function ReduceTop(st: Stacks, pos: Position): (r: Stacks)
    requires Balanced(st) && |st.os| > 0
    ensures Balanced(r) && |r.os| == |st.os| - 1
    ensures |st.os| >= 2 ==> r.es[0] == st.es[0] && r.os[0] == st.os[0]
  {
    var n, m := |st.es|, |st.os|;
    Stacks(st.es[..n - 2] + [Combine(st.es[n - 2], st.os[m - 1].0, st.es[n - 1], pos)], st.os[..m - 1])
  }

  /** Handles one incoming operator and its atom. */
  function Shift(st: Stacks, item: Item): (r: Stacks)
    requires Balanced(st) && |st.os| > 0
    ensures Balanced(r) && |r.os| > 0
    ensures r.os[|r.os| - 1] == (item.op, item.prec) && r.es[|r.es| - 1] == item.atom
    ensures item.prec < TopPrec(st) ==>
              && r.os == st.os[..|st.os| - 1] + [(item.op, item.prec)]
              && r.es[..|r.es| - 2] == st.es[..|st.es| - 2]
              && r.es[|r.es| - 2] == Combine(st.es[|st.es| - 2], st.os[|st.os| - 1].0, st.es[|st.es| - 1], item.at)
    ensures item.prec >= TopPrec(st) ==> r == Stacks(st.es + [item.atom], st.os + [(item.op, item.prec)])
  {
    var base := if item.prec < TopPrec(st) then ReduceTop(st, item.at) else st;
    Stacks(base.es + [item.atom], base.os + [(item.op, item.prec)])
  }

  function ShiftAll(st: Stacks, items: seq<Item>): (r: Stacks)
    requires Balanced(st) && |st.os| > 0
    ensures Balanced(r) && 0 < |r.os| <= |st.os| + |items|
    decreases |items|
  {
    if items == [] then st else ShiftAll(Shift(st, items[0]), items[1..])
  }

  /** Reduces the stacks from the top down, stamping every new node with `pos`. The root is
      the bottom operator, with the bottom operand as its left child. */
  function ReduceAll(st: Stacks, pos: Position): (r: Expression)
    requires Balanced(st)
    ensures |st.os| == 0 ==> r == st.es[0]
    ensures |st.os| > 0 ==> r.pos == pos && r.node.Binary? && r.node.left == st.es[0] && r.node.op == st.os[0].0
    decreases |st.os|
  {
    if |st.os| == 0 then st.es[0] else ReduceAll(ReduceTop(st, pos), pos)
  }

  /** The tree the binary parser builds: left operand, first operator and its atom, then
      the items read after them, closed at `endPos`. */
  function Group(left: Expression, first: (Operator, nat), firstAtom: Expression, items: seq<Item>, endPos: Position): Expression {
    ReduceAll(ShiftAll(Stacks([left, firstAtom], [first]), items), endPos)
  }

  // ---------------------------------------------------------------------------------
  // Reference shapes

  /** The operands nested to the right: e0 o0 (e1 o1 (e2 ...)). */
  function RightNested(st: Stacks, pos: Position): Expression
    requires Balanced(st)
    decreases |st.os|
  {
    if |st.os| == 0 then st.es[0]
    else Combine(st.es[0], st.os[0].0, RightNested(Stacks(st.es[1..], st.os[1..]), pos), pos)
  }

  /** The operands nested to the left: ((acc op right) o1 a1) o2 a2 ..., each inner node
      stamped with the position of the item that closed it. */
  function LeftNested(acc: Expression, op: (Operator, nat), right: Expression, items: seq<Item>, endPos: Position): Expression
    decreases |items|
  {
    if items == [] then Combine(acc, op.0, right, endPos)
    else LeftNested(Combine(acc, op.0, right, items[0].at), (items[0].op, items[0].prec), items[0].atom, items[1..], endPos)
  }

  function Atoms(items: seq<Item>): (r: seq<Expression>)
    ensures |r| == |items|
  {
    if items == [] then [] else [items[0].atom] + Atoms(items[1..])
  }

  function Ops(items: seq<Item>): (r: seq<(Operator, nat)>)
    ensures |r| == |items|
  {
    if items == [] then [] else [(items[0].op, items[0].prec)] + Ops(items[1..])
  }

  /** Each precedence is at least the one before it, starting from `prec`. */
  predicate NonDecreasingFrom(prec: nat, items: seq<Item>)
    decreases |items|
  {
    items == [] || (prec <= items[0].prec && NonDecreasingFrom(items[0].prec, items[1..]))
  }

  /** Each precedence is strictly below the one before it, starting from `prec`. */
  predicate StrictlyDecreasingFrom(prec: nat, items: seq<Item>)
    decreases |items|
  {
    items == [] || (items[0].prec < prec && StrictlyDecreasingFrom(items[0].prec, items[1..]))
  }

  // ---------------------------------------------------------------------------------
  // Lemmas

  /** Reducing the top pair does not change the right-nested reading of the stacks. */
  lemma {:induction false} ReduceTopKeepsRightNested(st: Stacks, pos: Position)
    requires Balanced(st) && |st.os| > 0
    ensures RightNested(ReduceTop(st, pos), pos) == RightNested(st, pos)
    decreases |st.os|
  {
    var n, m := |st.es|, |st.os|;
    if m >= 2 {
      var tail := Stacks(st.es[1..], st.os[1..]);
      var r := ReduceTop(st, pos);
      assert Stacks(r.es[1..], r.os[1..]) == ReduceTop(tail, pos) by {
        assert r.es[1..] == st.es[1..][..n - 3] + [Combine(st.es[n - 2], st.os[m - 1].0, st.es[n - 1], pos)];
        assert r.os[1..] == st.os[1..][..m - 2];
      }
      ReduceTopKeepsRightNested(tail, pos);
    }
  }

  /** Final reduction from the top down yields the right-nested tree of the stacks. */
  lemma {:induction false} ReduceAllNestsRight(st: Stacks, pos: Position)
    requires Balanced(st)
    ensures ReduceAll(st, pos) == RightNested(st, pos)
    decreases |st.os|
  {
    if |st.os| > 0 {
      ReduceAllNestsRight(ReduceTop(st, pos), pos);
      ReduceTopKeepsRightNested(st, pos);
    }
  }

  /** With non-decreasing precedences nothing is reduced while reading: every operand and
      operator is only pushed. */
  lemma {:induction false} NonDecreasingOnlyPushes(st: Stacks, items: seq<Item>)
    requires Balanced(st) && |st.os| > 0 && NonDecreasingFrom(TopPrec(st), items)
    ensures ShiftAll(st, items) == Stacks(st.es + Atoms(items), st.os + Ops(items))
    decreases |items|
  {
    if items != [] {
      var item := items[0];
      var st' := Stacks(st.es + [item.atom], st.os + [(item.op, item.prec)]);
      assert Shift(st, item) == st';
      assert TopPrec(st') == item.prec;
      NonDecreasingOnlyPushes(st', items[1..]);
      assert Atoms(items) == [item.atom] + Atoms(items[1..]);
      assert Ops(items) == [(item.op, item.prec)] + Ops(items[1..]);
      assert st.es + Atoms(items) == st'.es + Atoms(items[1..]);
      assert st.os + Ops(items) == st'.os + Ops(items[1..]);
    }
  }

  /** Grouping rule, non-decreasing case: a chain whose precedences never drop (in
      particular a chain of equal precedences) nests to the right, a o1 (b o2 (c ...)). */
  lemma NonDecreasingChainNestsRight(left: Expression, first: (Operator, nat), firstAtom: Expression, items: seq<Item>, endPos: Position)
    requires NonDecreasingFrom(first.1, items)
    ensures Group(left, first, firstAtom, items, endPos)
         == RightNested(Stacks([left, firstAtom] + Atoms(items), [first] + Ops(items)), endPos)
  {
    var st := Stacks([left, firstAtom], [first]);
    NonDecreasingOnlyPushes(st, items);
    ReduceAllNestsRight(ShiftAll(st, items), endPos);
  }

  /** Grouping rule, strictly decreasing case: every incoming operator reduces the pending
      one, so the chain nests to the left, ((a o1 b) o2 c) .... */
  lemma {:induction false} StrictlyDecreasingChainNestsLeft(left: Expression, first: (Operator, nat), firstAtom: Expression, items: seq<Item>, endPos: Position)
    requires StrictlyDecreasingFrom(first.1, items)
    ensures Group(left, first, firstAtom, items, endPos) == LeftNested(left, first, firstAtom, items, endPos)
    decreases |items|
  {
    if items != [] {
      var st := Stacks([left, firstAtom], [first]);
      var acc := Combine(left, first.0, firstAtom, items[0].at);
      assert Shift(st, items[0]) == Stacks([acc, items[0].atom], [(items[0].op, items[0].prec)]);
      StrictlyDecreasingChainNestsLeft(acc, (items[0].op, items[0].prec), items[0].atom, items[1..], endPos);
    }
  }

  /** A drop in precedence reduces only the single top operator: with o1 below o2 and o3
      below both (as in a * b ^ c + d), the result is a o1 ((b o2 c) o3 d), so the earlier
      o1 still takes the whole rest as its right operand. */
  lemma DropReducesOnlyTopOperator(a: Expression, b: Expression, c: Expression, d: Expression,
                                   o1: (Operator, nat), o2: Item, o3: Item, endPos: Position)
    requires o2.atom == c && o3.atom == d
    requires o1.1 <= o2.prec && o3.prec < o2.prec
    ensures Group(a, o1, b, [o2, o3], endPos)
         == Combine(a, o1.0, Combine(Combine(b, o2.op, c, o3.at), o3.op, d, endPos), endPos)
  {
    var st0 := Stacks([a, b], [o1]);
    var st1 := Shift(st0, o2);
    assert st1 == Stacks([a, b, c], [o1, (o2.op, o2.prec)]);
    var st2 := Shift(st1, o3);
    assert st2 == Stacks([a, Combine(b, o2.op, c, o3.at), d], [o1, (o3.op, o3.prec)]);
    assert ShiftAll(st1, [o3]) == st2 by { assert [o3][1..] == []; }
    assert ShiftAll(st0, [o2, o3]) == ShiftAll(st1, [o3]) by { assert [o2, o3][1..] == [o3]; }
    var inner := Combine(Combine(b, o2.op, c, o3.at), o3.op, d, endPos);
    assert ReduceTop(st2, endPos) == Stacks([a, inner], [o1]);
    assert ReduceTop(Stacks([a, inner], [o1]), endPos) == Stacks([Combine(a, o1.0, inner, endPos)], []);
    assert ReduceAll(Stacks([a, inner], [o1]), endPos) == Combine(a, o1.0, inner, endPos);
    assert ReduceAll(st2, endPos) == ReduceAll(Stacks([a, inner], [o1]), endPos);
  }
}
