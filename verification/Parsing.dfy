/** Every range the evaluator accepts derives from the grammar, and `expr`'s retyping of `*` and `-`. */
module Parsing {
  import Bits
  import opened ExprTokens
  import opened Evaluator
  import opened Grammar
  import opened WordTypes

  /** No unary operator follows an operand. */
  ghost predicate WellTyped(ts: seq<Token>) {
    forall i :: 0 < i < |ts| && IsUnary(ts[i]) ==> !EndsOperand(ts[i - 1])
  }

  /** So a unary main operator is the first token of its range. */
  lemma UnaryFirst(ts: seq<Token>)
    requires Nested(ts) && WellTyped(ts) && Best(ts, |ts|) >= 0 && IsUnary(ts[Best(ts, |ts|)])
    ensures Best(ts, |ts|) == 0
  {
    DepthBefore(ts, Best(ts, |ts|));
    BestIsMain(ts, |ts|);
  }

  lemma DepthBefore(ts: seq<Token>, r: nat)
    requires Nested(ts) && r < |ts|
    ensures r > 0 ==> Depth(ts, r - 1) >= 0 && Depth(ts, r) == Depth(ts, r - 1) + Delta(ts[r - 1])
    ensures r > 0 && Depth(ts, r - 1) == 0 && (ts[r - 1].Binary? || IsUnary(ts[r - 1])) ==> AtTop(ts, r - 1)
  {
  }

  /** An expression is no looser than the operators outside its parentheses. */
  lemma RankBounded(e: Expr, bound: nat)
    requires Derivation(e)
    requires forall i :: 0 <= i < |Yield(e)| && AtTop(Yield(e), i) && Yield(e)[i].Binary? ==>
      Level(Yield(e)[i].op) <= bound
    ensures Rank(e) <= bound
  {
    if e.Infix? {
      InfixTop(e, |Yield(e.left)|);
      assert AtTop(Yield(e), |Yield(e.left)|);
    }
  }

  lemma TopOfParts(ts: seq<Token>, r: nat, i: nat)
    requires r < |ts| && AtTop(ts, r) && i < |ts|
    ensures i < r ==> ts[..r][i] == ts[i] && Depth(ts[..r], i) == Depth(ts, i)
    ensures i > r ==> ts[r + 1..][i - r - 1] == ts[i] && Depth(ts[r + 1..], i - r - 1) == Depth(ts, i)
  {
    if i < r {
      DepthSlice(ts, 0, r, i);
      assert ts[0..r] == ts[..r];
    } else if i > r {
      assert Depth(ts, r + 1) == 0;
      DepthSlice(ts, r + 1, |ts|, i - r - 1);
      assert ts[r + 1..|ts|] == ts[r + 1..];
    }
  }

  /** Soundness: what the evaluator gives a value to is an expression of the grammar with that value. */
  lemma {:induction false} Parse(ts: seq<Token>, memory: Word -> Word) returns (e: Expr)
    requires WellTyped(ts) && Eval(ts, memory).Value?
    ensures Derivation(e) && Yield(e) == ts && Meaning(e, memory) == Eval(ts, memory)
    decreases |ts|
  {
    hide Depth, Best, Compute, ComputeUnary, ParenOf, IsMain, Nested, Eval, AtTop, WellTyped;
    Steps(ts, memory);
    if |ts| == 1 {
      e := Leaf(ts[0].value);
    } else if ParenOf(ts) == Match {
      WellTypedSlice(ts, 1, |ts| - 1);
      var inner := Parse(ts[1..|ts| - 1], memory);
      e := Group(inner);
      MatchParts(ts);
    } else {
      var r := Best(ts, |ts|);
      BestIsMain(ts, |ts|);
      WellTypedParts(ts, r);
      var right := Parse(ts[r + 1..], memory);
      if IsUnary(ts[r]) {
        UnaryFirst(ts);
        e := Prefix(ts[0], right);
        assert ts == [ts[0]] + ts[1..];
        UnaryRank(ts, right);
      } else {
        var left := Parse(ts[..r], memory);
        e := Infix(ts[r].op, left, right);
        assert ts == ts[..r] + [ts[r]] + ts[r + 1..];
        BinaryRanks(ts, r, left, right);
      }
    }
  }

  lemma WellTypedSlice(ts: seq<Token>, p: nat, q: nat)
    requires WellTyped(ts) && p <= q <= |ts|
    ensures WellTyped(ts[p..q])
  {
    hide IsUnary, EndsOperand;
    var us := ts[p..q];
    forall i | 0 < i < |us| && IsUnary(us[i])
      ensures !EndsOperand(us[i - 1])
    {
      assert us[i] == ts[p + i] && us[i - 1] == ts[p + i - 1];
    }
  }

  lemma WellTypedParts(ts: seq<Token>, r: nat)
    requires WellTyped(ts) && r < |ts|
    ensures WellTyped(ts[..r]) && WellTyped(ts[r + 1..])
  {
    hide *;
    SliceEnds(ts, r);
    WellTypedSlice(ts, 0, r);
    WellTypedSlice(ts, r + 1, |ts|);
  }

  /** Where the value of a range comes from. */
  lemma Steps(ts: seq<Token>, memory: Word -> Word)
    requires Eval(ts, memory).Value?
    ensures |ts| > 0 && (|ts| == 1 ==> ts[0].Operand? && Eval(ts, memory) == Value(ts[0].value))
    ensures |ts| > 1 && ParenOf(ts) == Match ==> Eval(ts, memory) == Eval(ts[1..|ts| - 1], memory)
    ensures |ts| > 1 && ParenOf(ts) != Match ==>
      var r := Best(ts, |ts|);
      && Nested(ts) && r >= 0 && Eval(ts[r + 1..], memory).Value?
      && (IsUnary(ts[r]) ==> Eval(ts, memory) == ComputeUnary(ts[r], Eval(ts[r + 1..], memory).value, memory))
      && (!IsUnary(ts[r]) ==>
            ts[r].Binary? && Eval(ts[..r], memory).Value? &&
            Eval(ts, memory) == Compute(ts[r].op, Eval(ts[..r], memory).value, Eval(ts[r + 1..], memory).value))
  {
    hide Depth, Best, Compute, ComputeUnary, ParenOf, Nested, IsUnary;
  }

  lemma MatchParts(ts: seq<Token>)
    requires |ts| > 1 && ParenOf(ts) == Match
    ensures ts == [LParen] + ts[1..|ts| - 1] + [RParen]
  {
  }

  lemma UnaryRank(ts: seq<Token>, arg: Expr)
    requires |ts| > 1 && Best(ts, |ts|) == 0 && IsUnary(ts[0]) && Derivation(arg) && Yield(arg) == ts[1..]
    ensures Rank(arg) == 0
  {
    BestIsMain(ts, |ts|);
    var us := ts[1..];
    forall i | 0 <= i < |us| && AtTop(us, i)
      ensures !us[i].Binary?
    {
      TopOfParts(ts, 0, i + 1);
      assert AtTop(ts, i + 1);
    }
    RankBounded(arg, 0);
  }

  lemma BinaryRanks(ts: seq<Token>, r: nat, left: Expr, right: Expr)
    requires r < |ts| && IsMain(ts, |ts|, r) && ts[r].Binary?
    requires Derivation(left) && Yield(left) == ts[..r] && Derivation(right) && Yield(right) == ts[r + 1..]
    ensures Rank(left) <= Level(ts[r].op) && Rank(right) < Level(ts[r].op)
  {
    forall i | 0 <= i < r && AtTop(ts[..r], i) && ts[..r][i].Binary?
      ensures Level(ts[..r][i].op) <= Level(ts[r].op)
    {
      TopOfParts(ts, r, i);
      assert AtTop(ts, i);
    }
    RankBounded(left, Level(ts[r].op));
    var us := ts[r + 1..];
    forall i | 0 <= i < |us| && AtTop(us, i) && us[i].Binary?
      ensures Level(us[i].op) <= Level(ts[r].op) - 1
    {
      TopOfParts(ts, r, i + r + 1);
      assert AtTop(ts, i + r + 1);
    }
    RankBounded(right, Level(ts[r].op) - 1);
  }

  /** The evaluator agrees with the grammar, in what it accepts and in the value. */
  lemma EvalAgrees(ts: seq<Token>, memory: Word -> Word, v: Word)
    requires WellTyped(ts)
    ensures Eval(ts, memory) == Value(v) <==> exists e :: Derives(e, ts) && Denotes(e, memory, v)
  {
    hide Eval, Denotes, Meaning;
    if Eval(ts, memory) == Value(v) {
      var e := Parse(ts, memory);
      DenotesExactly(e, memory, v);
      assert Derives(e, ts);
    }
    if e :| Derives(e, ts) && Denotes(e, memory, v) {
      EvalDenotes(e, memory);
    }
  }

  ghost predicate Derives(e: Expr, ts: seq<Token>) {
    Derivation(e) && Yield(e) == ts
  }

  /** The assertion on a closing parenthesis fails exactly when some prefix closes too many although the sums agree. */
  lemma {:induction false} AbortExactly(ts: seq<Token>, memory: Word -> Word)
    ensures Eval(ts, memory) == Abort <==> |ts| > 1 && Depth(ts, |ts|) == 0 && !Nested(ts)
    decreases |ts|
  {
    if |ts| > 1 && Depth(ts, |ts|) == 0 {
      if ParenOf(ts) == Match {
        MatchNested(ts);
        AbortExactly(ts[1..|ts| - 1], memory);
      } else if Nested(ts) {
        var r := Best(ts, |ts|);
        if r >= 0 {
          BestIsMain(ts, |ts|);
          PartsNested(ts, r);
          AbortExactly(ts[r + 1..], memory);
          AbortExactly(ts[..r], memory);
        }
      }
    }
  }

  /** The tokens of `)(` and of `())(` make the assertion fail. */
  lemma AbortHappens(memory: Word -> Word)
    ensures Eval([RParen, LParen], memory) == Abort
    ensures Eval([LParen, RParen, RParen, LParen], memory) == Abort
  {
    AbortExactly([RParen, LParen], memory);
    AbortExactly([LParen, RParen, RParen, LParen], memory);
    DepthOfTurned();
  }

  lemma DepthOfTurned()
    ensures var ts := [RParen, LParen]; Depth(ts, 2) == 0 && !Nested(ts)
    ensures var ts := [LParen, RParen, RParen, LParen]; Depth(ts, 4) == 0 && !Nested(ts)
  {
    assert Depth([RParen, LParen], 1) == -1;
    var ts := [LParen, RParen, RParen, LParen];
    assert Depth(ts, 1) == 1 && Depth(ts, 2) == 0 && Depth(ts, 3) == -1;
  }

  lemma MatchNested(ts: seq<Token>)
    requires |ts| > 1 && ParenOf(ts) == Match
    ensures Nested(ts) && Nested(ts[1..|ts| - 1])
  {
    forall i | 0 <= i <= |ts|
      ensures Depth(ts, i) >= 0 && (0 < i < |ts| ==> Depth(ts, i) > 0)
    {
      if 1 < i < |ts| && Depth(ts, i) < 0 {
        assert Depth(ts, 1) == 1;
        var m := CrossesZero(ts, 1, i);
      }
    }
    var us := ts[1..|ts| - 1];
    forall i | 0 <= i <= |us|
      ensures Depth(us, i) >= 0
    {
      DepthSlice(ts, 1, |ts| - 1, i);
    }
  }

  lemma PartsNested(ts: seq<Token>, r: nat)
    requires Nested(ts) && r < |ts| && AtTop(ts, r)
    ensures Nested(ts[..r]) && Nested(ts[r + 1..])
  {
    assert Depth(ts, r + 1) == 0;
    forall i | 0 <= i <= r
      ensures Depth(ts[..r], i) >= 0
    {
      DepthSlice(ts, 0, r, i);
      assert ts[0..r] == ts[..r];
    }
    var us := ts[r + 1..];
    forall i | 0 <= i <= |us|
      ensures Depth(us, i) >= 0
    {
      DepthSlice(ts, r + 1, |ts|, i);
      assert ts[r + 1..|ts|] == ts[r + 1..];
    }
  }

  /** A range whose parentheses do not add up, and no other, is reported as such; inner ranges always add up. */
  lemma {:induction false} ParenErrExactly(ts: seq<Token>, memory: Word -> Word)
    ensures Eval(ts, memory) == Error(ParenErr) <==> |ts| > 1 && Depth(ts, |ts|) != 0
    decreases |ts|
  {
    hide Depth, Best, Compute, ComputeUnary, Nested;
    if |ts| > 1 && Depth(ts, |ts|) == 0 {
      if ParenOf(ts) == Match {
        InnerBalanced(ts);
        ParenErrExactly(ts[1..|ts| - 1], memory);
      } else {
        hide ParenOf;
        var r := Best(ts, |ts|);
        if r >= 0 {
          PartsBalanced(ts, r);
          ParenErrExactly(ts[r + 1..], memory);
          ParenErrExactly(ts[..r], memory);
        }
        NoParenErr(ts, memory);
      }
    }
  }

  /** What `eval` does below the main operator reports no other parenthesis error than those of the parts. */
  lemma NoParenErr(ts: seq<Token>, memory: Word -> Word)
    requires |ts| > 1
    ensures var r := Best(ts, |ts|);
      Split(ts, memory) == Error(ParenErr) ==>
        r >= 0 && (Eval(ts[r + 1..], memory) == Error(ParenErr) || Eval(ts[..r], memory) == Error(ParenErr))
  {
    var r := Best(ts, |ts|);
    hide Depth, Best, Nested, Eval;
    if r >= 0 && Eval(ts[r + 1..], memory).Value? && Eval(ts[..r], memory).Value? && ts[r].Binary? {
      ComputeRange(ts[r].op, Eval(ts[..r], memory).value, Eval(ts[r + 1..], memory).value);
    }
    hide Compute;
  }

  lemma InnerBalanced(ts: seq<Token>)
    requires |ts| > 1 && ParenOf(ts) == Match
    ensures Depth(ts[1..|ts| - 1], |ts| - 2) == 0
  {
    DepthSlice(ts, 1, |ts| - 1, |ts| - 2);
  }

  lemma PartsBalanced(ts: seq<Token>, r: nat)
    requires Depth(ts, |ts|) == 0 && r < |ts| && Best(ts, |ts|) == r
    ensures Depth(ts[..r], r) == 0 && Depth(ts[r + 1..], |ts| - r - 1) == 0
  {
    hide *;
    BestIsMain(ts, |ts|);
    MainAtTop(ts, r);
    SliceEnds(ts, r);
    DepthSlice(ts, 0, r, r);
    DepthSlice(ts, r + 1, |ts|, |ts| - r - 1);
  }

  lemma SliceEnds(ts: seq<Token>, r: nat)
    requires r < |ts|
    ensures ts[0..r] == ts[..r] && ts[r + 1..|ts|] == ts[r + 1..]
  {
  }

  lemma MainAtTop(ts: seq<Token>, r: nat)
    requires r < |ts| && IsMain(ts, |ts|, r)
    ensures Depth(ts, 0) == Depth(ts, r) == Depth(ts, r + 1) == 0
  {
  }

  /** The other errors: nothing, one token that is no operand, and no operator between operands. */
  lemma ErrorCases(x: Word, y: Word, op: Op, memory: Word -> Word)
    ensures Eval([], memory) == Error(BadExprErr)
    ensures Eval([Operand(x), Binary(op)], memory) == Error(BadExprErr)
    ensures Eval([Binary(op)], memory) == Error(UnknownElementErr)
    ensures Eval([Operand(x), Operand(y)], memory) == Error(MainOpErr)
  {
    NoOperator(x, y);
    LastOperator(x, op);
    var half := [Operand(x), Binary(op)];
    assert half[2..] == [];
    hide Depth, Best, Nested;
  }

  /** The right side is evaluated first: its error is reported, although the left side divides by zero. */
  lemma RightFirst(x: Word, memory: Word -> Word)
    ensures Eval([Operand(x), Binary(Div), Operand(0), Binary(Add)], memory) == Error(BadExprErr)
  {
    var ts := [Operand(x), Binary(Div), Operand(0), Binary(Add)];
    assert Depth(ts, 1) == 0 && Depth(ts, 2) == 0 && Depth(ts, 3) == 0 && Depth(ts, 4) == 0;
    ScanStep(ts, 0);
    ScanStep(ts, 1);
    ScanStep(ts, 2);
    ScanStep(ts, 3);
    assert ParenOf(ts) == Dismatch && Nested(ts) && Best(ts, 4) == 3;
    hide Best, Depth, ParenOf, Nested;
    assert ts[4..] == [] && Eval([], memory) == Error(BadExprErr);
    assert Split(ts, memory) == Error(BadExprErr);
  }

  lemma NoOperator(x: Word, y: Word)
    ensures var ts := [Operand(x), Operand(y)]; Nested(ts) && ParenOf(ts) == Dismatch && Best(ts, 2) == -1
  {
    var ts := [Operand(x), Operand(y)];
    assert Depth(ts, 1) == 0 && Depth(ts, 2) == 0;
    ScanStep(ts, 0);
    ScanStep(ts, 1);
    hide Best;
  }

  lemma LastOperator(x: Word, op: Op)
    ensures var ts := [Operand(x), Binary(op)]; Nested(ts) && ParenOf(ts) == Dismatch && Best(ts, 2) == 1
  {
    var ts := [Operand(x), Binary(op)];
    assert Depth(ts, 1) == 0 && Depth(ts, 2) == 0;
    ScanStep(ts, 0);
    ScanStep(ts, 1);
    hide Best;
  }

  /** The expressions of two operands and of one. */
  lemma Pair(x: Word, op: Op, y: Word, memory: Word -> Word)
    ensures var e := Infix(op, Leaf(x), Leaf(y));
      && Derivation(e) && Yield(e) == [Operand(x), Binary(op), Operand(y)]
      && forall v: Word :: Denotes(e, memory, v) <==> Gives(op, x, y, v)
  {
    hide Gives;
    LeafFacts(x, memory);
    LeafFacts(y, memory);
  }

  lemma LeafFacts(x: Word, memory: Word -> Word)
    ensures Derivation(Leaf(x)) && Yield(Leaf(x)) == [Operand(x)]
    ensures forall v: Word :: Denotes(Leaf(x), memory, v) <==> v == x
  {
  }

  lemma Single(sign: Token, x: Word, memory: Word -> Word)
    requires IsUnary(sign)
    ensures var e := Prefix(sign, Leaf(x));
      && Derivation(e) && Yield(e) == [sign, Operand(x)]
      && forall v: Word :: Denotes(e, memory, v) <==> GivesUnary(sign, x, memory, v)
  {
    hide GivesUnary;
    LeafFacts(x, memory);
  }

  /** One operator: the value is the one that the numbers give, for each of the twelve. */
  lemma TwoOperands(x: Word, op: Op, y: Word, memory: Word -> Word, v: Word)
    ensures Eval([Operand(x), Binary(op), Operand(y)], memory) == Value(v) <==> Gives(op, x, y, v)
    ensures Eval([Operand(x), Binary(op), Operand(y)], memory) == Crash <==> op == Div && y == 0
  {
    hide *;
    Pair(x, op, y, memory);
    EvalDenotes(Infix(op, Leaf(x), Leaf(y)), memory);
    SomeValue(op, x, y);
  }

  /** Only a division by zero has no value. */
  lemma SomeValue(op: Op, x: Word, y: Word)
    ensures (exists w: Word :: Gives(op, x, y, w)) <==> !(op == Div && y == 0)
  {
    var r := Compute(op, x, y);
    hide Compute, Gives;
    forall w: Word
      ensures Gives(op, x, y, w) <==> r == Value(w)
    {
      GivesExactly(op, x, y, w);
    }
    ComputeRange(op, x, y);
    if r.Value? {
      assert Gives(op, x, y, r.value);
    }
  }

  lemma ComputeRange(op: Op, x: Word, y: Word)
    ensures if op == Div && y == 0 then Compute(op, x, y) == Crash else Compute(op, x, y).Value?
  {
  }

  /** A unary operator: `-` gives the additive inverse modulo 2^32, `*` the word in memory. */
  lemma OneOperand(x: Word, memory: Word -> Word, v: Word)
    ensures Eval([Neg, Operand(x)], memory) == Value(v) <==> Bits.Congruent(v + x, 0, W)
    ensures Eval([Deref, Operand(x)], memory) == Value(v) <==> v == memory(x)
  {
    Single(Neg, x, memory);
    Single(Deref, x, memory);
    EvalDenotes(Prefix(Neg, Leaf(x)), memory);
    EvalDenotes(Prefix(Deref, Leaf(x)), memory);
    hide Eval, Yield, Denotes, Derivation;
  }

  lemma RightLeaf(op: Op, l: Expr, z: Word, memory: Word -> Word, v: Word)
    ensures Denotes(Infix(op, l, Leaf(z)), memory, v) <==>
            exists t: Word :: Denotes(l, memory, t) && Gives(op, t, z, v)
  {
    hide Gives;
    LeafFacts(z, memory);
    if t: Word :| Denotes(l, memory, t) && Gives(op, t, z, v) {
      assert Denotes(Leaf(z), memory, z);
    }
  }

  lemma LeftLeaf(op: Op, x: Word, r: Expr, memory: Word -> Word, v: Word)
    ensures Denotes(Infix(op, Leaf(x), r), memory, v) <==>
            exists t: Word :: Denotes(r, memory, t) && Gives(op, x, t, v)
  {
    hide Gives;
    LeafFacts(x, memory);
    if t: Word :| Denotes(r, memory, t) && Gives(op, x, t, v) {
      assert Denotes(Leaf(x), memory, x);
    }
  }

  /** Two operators: the tighter one first, and from left to right in one group. */
  lemma ThreeOperands(x: Word, p: Op, y: Word, q: Op, z: Word, memory: Word -> Word, v: Word)
    ensures var ts := [Operand(x), Binary(p), Operand(y), Binary(q), Operand(z)];
      Eval(ts, memory) == Value(v) <==>
        if Tighter(q, p) then exists t: Word :: Gives(q, y, z, t) && Gives(p, x, t, v)
        else exists t: Word :: Gives(p, x, y, t) && Gives(q, t, z, v)
  {
    hide Eval, Gives;
    LeafFacts(x, memory);
    LeafFacts(z, memory);
    Pair(y, q, z, memory);
    Pair(x, p, y, memory);
    var ts := [Operand(x), Binary(p), Operand(y), Binary(q), Operand(z)];
    var l, r := Infix(p, Leaf(x), Leaf(y)), Infix(q, Leaf(y), Leaf(z));
    var e := if Tighter(q, p) then Infix(p, Leaf(x), r) else Infix(q, l, Leaf(z));
    assert Yield(e) == ts && Derivation(e);
    hide Yield, Derivation, Denotes;
    EvalDenotes(e, memory);
    if Tighter(q, p) {
      LeftLeaf(p, x, r, memory, v);
    } else {
      RightLeaf(q, l, z, memory, v);
    }
  }

  /** Unary operators bind tighter than binary ones, and parentheses tighter than both. */
  lemma MixedOperands(x: Word, op: Op, y: Word, memory: Word -> Word, v: Word)
    ensures Eval([Neg, Operand(x), Binary(op), Operand(y)], memory) == Value(v) <==>
            exists t: Word :: Bits.Congruent(t + x, 0, W) && Gives(op, t, y, v)
    ensures Eval([Deref, Operand(x), Binary(op), Operand(y)], memory) == Value(v) <==> Gives(op, memory(x), y, v)
    ensures Eval([Neg, LParen, Operand(x), Binary(op), Operand(y), RParen], memory) == Value(v) <==>
            exists t: Word :: Gives(op, x, y, t) && Bits.Congruent(v + t, 0, W)
  {
    SignedFirst(Neg, x, op, y, memory, v);
    SignedFirst(Deref, x, op, y, memory, v);
    GroupFirst(x, op, y, memory, v);
    hide Eval, Gives;
  }

  lemma SignedFirst(sign: Token, x: Word, op: Op, y: Word, memory: Word -> Word, v: Word)
    requires IsUnary(sign)
    ensures Eval([sign, Operand(x), Binary(op), Operand(y)], memory) == Value(v) <==>
            exists t: Word :: GivesUnary(sign, x, memory, t) && Gives(op, t, y, v)
  {
    hide Eval, Gives, GivesUnary;
    LeafFacts(y, memory);
    Single(sign, x, memory);
    var e := Infix(op, Prefix(sign, Leaf(x)), Leaf(y));
    assert Yield(e) == [sign, Operand(x), Binary(op), Operand(y)] && Derivation(e);
    hide Yield, Derivation, Denotes;
    EvalDenotes(e, memory);
    RightLeaf(op, Prefix(sign, Leaf(x)), y, memory, v);
  }

  lemma GroupFirst(x: Word, op: Op, y: Word, memory: Word -> Word, v: Word)
    ensures Eval([Neg, LParen, Operand(x), Binary(op), Operand(y), RParen], memory) == Value(v) <==>
            exists t: Word :: Gives(op, x, y, t) && Bits.Congruent(v + t, 0, W)
  {
    hide Eval, Gives;
    Pair(x, op, y, memory);
    var f := Group(Infix(op, Leaf(x), Leaf(y)));
    assert Yield(f) == [LParen, Operand(x), Binary(op), Operand(y), RParen] && Derivation(f);
    assert forall t: Word :: Denotes(f, memory, t) <==> Gives(op, x, y, t);
    var e := Prefix(Neg, f);
    assert Yield(e) == [Neg, LParen, Operand(x), Binary(op), Operand(y), RParen] && Derivation(e);
    EvalDenotes(e, memory);
  }

  /** For example, `x + y * z` is the sum of `x` and the product, modulo 2^32. */
  lemma SumOfProduct(x: Word, y: Word, z: Word, memory: Word -> Word, v: Word)
    ensures var ts := [Operand(x), Binary(Add), Operand(y), Binary(Mul), Operand(z)];
      Eval(ts, memory) == Value(v) <==> Bits.Congruent(v, x + y * z, W)
  {
    ThreeOperands(x, Add, y, Mul, z, memory, v);
    hide Eval, Bits.Congruent;
    SumOfCongruent(v, x, y * z);
    assert forall t: Word :: Gives(Mul, y, z, t) <==> Bits.Congruent(t, y * z, W);
    assert forall t: Word :: Gives(Add, x, t, v) <==> Bits.Congruent(v, x + t, W);
  }

  lemma SumOfCongruent(v: Word, x: int, p: int)
    ensures Bits.Congruent(v, x + p, W) <==> exists t: Word :: Bits.Congruent(t, p, W) && Bits.Congruent(v, x + t, W)
  {
    if k: int :| v == x + p + k * W {
      var t: Word, q := p % W, p / W;
      assert t == p + -q * W && v == x + t + (q + k) * W;
      assert Bits.Congruent(t, p, W);
    }
    if t: Word :| Bits.Congruent(t, p, W) && Bits.Congruent(v, x + t, W) {
      var j: int :| t == p + j * W;
      var k: int :| v == x + t + k * W;
      assert v == x + p + (j + k) * W;
    }
  }

  /** One token of the retyping loop, given the token before it. */
  function Retyped(ts: seq<Token>, i: nat): Token
    requires i < |ts|
  {
    if ts[i] == Binary(Mul) && (i == 0 || !EndsOperand(ts[i - 1])) then Deref
    else if ts[i] == Binary(Sub) && (i == 0 || !EndsOperand(ts[i - 1])) then Neg
    else ts[i]
  }

  function Retype(ts: seq<Token>): (us: seq<Token>)
    ensures |us| == |ts| && forall i :: 0 <= i < |ts| ==> us[i] == Retyped(ts, i)
  {
    seq(|ts|, i requires 0 <= i < |ts| => Retyped(ts, i))
  }

  /** The loop at the start of `expr`, in place. */
  method RetypeTokens(tokens: array<Token>, n: nat)
    requires n <= tokens.Length
    modifies tokens
    ensures tokens[..n] == Retype(old(tokens[..n])) && tokens[n..] == old(tokens[n..])
  {
    ghost var ts := tokens[..n];
    for i := 0 to n
      invariant tokens[n..] == old(tokens[n..])
      invariant forall k :: 0 <= k < i ==> tokens[k] == Retyped(ts, k)
      invariant forall k :: i <= k < n ==> tokens[k] == ts[k]
    {
      if tokens[i] == Binary(Mul) && (i == 0 || !EndsOperand(tokens[i - 1])) {
        tokens[i] := Deref;
      }
      if tokens[i] == Binary(Sub) && (i == 0 || !EndsOperand(tokens[i - 1])) {
        tokens[i] := Neg;
      }
    }
  }

  /** The token as the tokenizer makes it: unary and binary operators look alike. */
  function Raw(t: Token): Token {
    if t == Deref then Binary(Mul) else if t == Neg then Binary(Sub) else t
  }

  function RawTokens(ts: seq<Token>): (us: seq<Token>)
    ensures |us| == |ts| && forall i :: 0 <= i < |ts| ==> us[i] == Raw(ts[i])
  {
    seq(|ts|, i requires 0 <= i < |ts| => Raw(ts[i]))
  }

  ghost predicate Untyped(ts: seq<Token>) {
    forall t :: t in ts ==> !IsUnary(t)
  }

  lemma RetypeWellTyped(ts: seq<Token>)
    requires Untyped(ts)
    ensures WellTyped(Retype(ts)) && RawTokens(Retype(ts)) == ts
  {
    forall i | 0 <= i < |ts|
      ensures !IsUnary(ts[i])
    {
      assert ts[i] in ts;
    }
  }

  /** Where an expression starts, ends and changes from operator to operand. */
  ghost predicate Shaped(ts: seq<Token>) {
    && |ts| > 0 && EndsOperand(ts[|ts| - 1]) && !ts[0].Binary? && ts[0] != RParen
    && forall i :: 0 < i < |ts| ==>
         (ts[i].Binary? ==> EndsOperand(ts[i - 1])) && (IsUnary(ts[i]) ==> !EndsOperand(ts[i - 1]))
  }

  lemma {:induction false} YieldShaped(e: Expr)
    requires Derivation(e)
    ensures Shaped(Yield(e))
  {
    hide Shaped, IsUnary, Tighter;
    match e
    case Leaf(v) => ShapedLeaf(v);
    case Group(inner) =>
      YieldShaped(inner);
      ShapedGroup(Yield(inner));
    case Prefix(sign, arg) =>
      YieldShaped(arg);
      ShapedPrefix(sign, Yield(arg));
    case Infix(op, l, r) =>
      YieldShaped(l);
      YieldShaped(r);
      ShapedJoin(Yield(l), op, Yield(r));
  }

  lemma ShapedLeaf(v: Word)
    ensures Shaped([Operand(v)])
  {
  }

  lemma ShapedGroup(a: seq<Token>)
    requires Shaped(a)
    ensures Shaped([LParen] + a + [RParen])
  {
  }

  lemma ShapedPrefix(sign: Token, a: seq<Token>)
    requires Shaped(a) && IsUnary(sign)
    ensures Shaped([sign] + a)
  {
  }

  lemma ShapedJoin(a: seq<Token>, op: Op, b: seq<Token>)
    requires Shaped(a) && Shaped(b)
    ensures Shaped(a + [Binary(op)] + b)
  {
  }

  /** Retyping recovers the operators of every expression. */
  lemma RetypeRaw(ts: seq<Token>)
    requires Shaped(ts)
    ensures Retype(RawTokens(ts)) == ts
  {
    forall i | 0 <= i < |ts|
      ensures Retyped(RawTokens(ts), i) == ts[i]
    {
      if i > 0 {
        assert EndsOperand(Raw(ts[i - 1])) <==> EndsOperand(ts[i - 1]);
      }
    }
  }

  /**
   * `expr` as a whole: on the tokens as written it returns `v` exactly when they spell, in one way or another, an
   * expression of the grammar whose value is `v`.
   */
  lemma ExprAgrees(raw: seq<Token>, memory: Word -> Word, v: Word)
    requires Untyped(raw)
    ensures Eval(Retype(raw), memory) == Value(v) <==>
            exists e :: Spells(e, raw) && Denotes(e, memory, v)
  {
    RetypeWellTyped(raw);
    EvalAgrees(Retype(raw), memory, v);
    hide Eval, Denotes;
    if e :| Derives(e, Retype(raw)) && Denotes(e, memory, v) {
      assert Spells(e, raw);
    }
    if e :| Spells(e, raw) && Denotes(e, memory, v) {
      YieldShaped(e);
      RetypeRaw(Yield(e));
      assert Derives(e, Retype(raw));
    }
  }

  ghost predicate Spells(e: Expr, raw: seq<Token>) {
    Derivation(e) && RawTokens(Yield(e)) == raw
  }

  /** `expr` after tokenizing: retype in place, then evaluate. */
  method EvaluateTokens(tokens: array<Token>, n: nat, memory: Word -> Word) returns (r: Result)
    requires n <= tokens.Length && Untyped(tokens[..n])
    modifies tokens
    ensures r == Eval(Retype(old(tokens[..n])), memory)
    ensures forall v: Word :: r == Value(v) <==> exists e :: Spells(e, old(tokens[..n])) && Denotes(e, memory, v)
  {
    forall v: Word
      ensures Eval(Retype(tokens[..n]), memory) == Value(v) <==>
              exists e :: Spells(e, tokens[..n]) && Denotes(e, memory, v)
    {
      ExprAgrees(tokens[..n], memory, v);
    }
    hide Eval, Denotes, Spells;
    RetypeTokens(tokens, n);
    r := EvalRange(tokens, 0, n, memory);
    assert tokens[0..n] == tokens[..n];
  }
}
