/** A conventional grammar for the same expressions, and its agreement with the evaluator. */
module Grammar {
  import Bits
  import opened ExprTokens
  import opened Evaluator
  import opened Words
  import opened WordTypes

  datatype Expr =
    | Leaf(value: Word)
    | Group(inner: Expr)
    | Prefix(sign: Token, arg: Expr)
    | Infix(op: Op, left: Expr, right: Expr)

  /** How loosely the outermost operator binds: 0 for operands, groups and unary operators. */
  function Rank(e: Expr): nat {
    if e.Infix? then Level(e.op) else 0
  }

  predicate Product(op: Op) {
    op == Mul || op == Div
  }

  predicate Sum(op: Op) {
    op == Add || op == Sub
  }

  predicate Comparison(op: Op) {
    op == Eq || op == Neq || op == Ge || op == Le || op == Gt || op == Lt
  }

  predicate Junction(op: Op) {
    op == And || op == Or
  }

  /** `* /` bind tighter than `+ -`, those tighter than the comparisons, and those tighter than `&& ||`. */
  predicate Tighter(p: Op, q: Op) {
    || (Product(p) && (Sum(q) || Comparison(q) || Junction(q)))
    || (Sum(p) && (Comparison(q) || Junction(q)))
    || (Comparison(p) && Junction(q))
  }

  /** Unary operators bind tightest; binary operators of one group associate to the left. */
  ghost predicate Derivation(e: Expr) {
    match e
    case Leaf(_) => true
    case Group(inner) => Derivation(inner)
    case Prefix(sign, arg) => IsUnary(sign) && Derivation(arg) && !arg.Infix?
    case Infix(op, l, r) =>
      && Derivation(l) && Derivation(r)
      && (l.Infix? ==> !Tighter(op, l.op)) && (r.Infix? ==> Tighter(r.op, op))
  }

  /** The levels of the scan are those groups. */
  lemma RanksExactly(op: Op, l: Expr, r: Expr)
    ensures Rank(l) <= Level(op) <==> (l.Infix? ==> !Tighter(op, l.op))
    ensures Rank(r) < Level(op) <==> (r.Infix? ==> Tighter(r.op, op))
  {
  }

  /** The tokens of an expression. */
  function Yield(e: Expr): (ts: seq<Token>)
    ensures |ts| >= 1
  {
    match e
    case Leaf(v) => [Operand(v)]
    case Group(inner) => [LParen] + Yield(inner) + [RParen]
    case Prefix(sign, arg) => [sign] + Yield(arg)
    case Infix(op, l, r) => Yield(l) + [Binary(op)] + Yield(r)
  }

  /** The value of an expression, or a crash where it divides by zero. */
  function Meaning(e: Expr, memory: Word -> Word): Result {
    match e
    case Leaf(v) => Value(v)
    case Group(inner) => Meaning(inner, memory)
    case Prefix(sign, arg) =>
      var x := Meaning(arg, memory);
      if x.Value? then ComputeUnary(sign, x.value, memory) else Crash
    case Infix(op, l, r) =>
      var x, y := Meaning(l, memory), Meaning(r, memory);
      if x.Value? && y.Value? then Compute(op, x.value, y.value) else Crash
  }

  /** A truth value as a word. */
  predicate Says(v: Word, b: bool) {
    v < 2 && (v == 1 <==> b)
  }

  /** `v` is the value of a binary operator, in terms of the numbers; nothing is the value of a division by zero. */
  ghost predicate Gives(op: Op, x: Word, y: Word, v: Word) {
    match op
    case Add => Bits.Congruent(v, x + y, W)
    case Sub => Bits.Congruent(v + y, x, W)
    case Mul => Bits.Congruent(v, x * y, W)
    case Div => v * y <= x < v * y + y
    case Eq => Says(v, x == y)
    case Neq => Says(v, x < y || x > y)
    case Ge => Says(v, !(x < y))
    case Le => Says(v, !(y < x))
    case Gt => Says(v, y < x)
    case Lt => Says(v, x < y)
    case And => Says(v, x > 0 && y > 0)
    case Or => Says(v, x > 0 || y > 0)
  }

  /** The same for a unary operator: the additive inverse, or the word in memory. */
  ghost predicate GivesUnary(sign: Token, x: Word, memory: Word -> Word, v: Word) {
    if sign == Neg then Bits.Congruent(v + x, 0, W) else v == memory(x)
  }

  /** `v` is the value of the expression. */
  ghost predicate Denotes(e: Expr, memory: Word -> Word, v: Word) {
    match e
    case Leaf(w) => v == w
    case Group(inner) => Denotes(inner, memory, v)
    case Prefix(sign, arg) => exists x: Word :: Denotes(arg, memory, x) && GivesUnary(sign, x, memory, v)
    case Infix(op, l, r) =>
      exists x: Word, y: Word :: Denotes(l, memory, x) && Denotes(r, memory, y) && Gives(op, x, y, v)
  }

  lemma GivesExactly(op: Op, x: Word, y: Word, v: Word)
    ensures Gives(op, x, y, v) <==> Compute(op, x, y) == Value(v)
  {
    match op
    case Add => Bits.CongruentExactly(v, x + y, W);
    case Sub => DifferenceExactly(x, y, v);
    case Mul => Bits.CongruentExactly(v, x * y, W);
    case Div => QuotientExactly(x, y, v);
    case _ =>
  }

  lemma DifferenceExactly(x: int, y: int, v: Word)
    ensures Bits.Congruent(v + y, x, W) <==> v == Mod32(x - y)
  {
    Bits.CongruentExactly(v, x - y, W);
    if k: int :| v + y == x + k * W {
      assert v == x - y + k * W;
    }
    if k: int :| v == x - y + k * W {
      assert v + y == x + k * W;
    }
  }

  lemma QuotientExactly(x: Word, y: Word, v: Word)
    ensures v * y <= x < v * y + y <==> y > 0 && v == x / y
  {
    if y > 0 {
      Bits.DivMod(x, y);
      if v * y <= x < v * y + y {
        Bits.DivModUnique(x, y, v, x - v * y);
      }
    }
  }

  lemma UnaryExactly(sign: Token, x: Word, memory: Word -> Word, v: Word)
    ensures GivesUnary(sign, x, memory, v) <==> ComputeUnary(sign, x, memory) == Value(v)
  {
    DifferenceExactly(0, x, v);
    hide Bits.Congruent;
  }

  /** The value of an expression is the one that its meaning has. */
  lemma {:induction false} DenotesExactly(e: Expr, memory: Word -> Word, v: Word)
    ensures Denotes(e, memory, v) <==> Meaning(e, memory) == Value(v)
  {
    hide Gives, GivesUnary, Compute, ComputeUnary;
    match e {
      case Leaf(_) =>
      case Group(inner) => DenotesExactly(inner, memory, v);
      case Prefix(sign, arg) =>
        forall x: Word
          ensures Denotes(arg, memory, x) <==> Meaning(arg, memory) == Value(x)
          ensures GivesUnary(sign, x, memory, v) <==> ComputeUnary(sign, x, memory) == Value(v)
        {
          DenotesExactly(arg, memory, x);
          UnaryExactly(sign, x, memory, v);
        }
      case Infix(op, l, r) =>
        forall x: Word
          ensures Denotes(l, memory, x) <==> Meaning(l, memory) == Value(x)
          ensures Denotes(r, memory, x) <==> Meaning(r, memory) == Value(x)
        {
          DenotesExactly(l, memory, x);
          DenotesExactly(r, memory, x);
        }
        forall x: Word, y: Word
          ensures Gives(op, x, y, v) <==> Compute(op, x, y) == Value(v)
        {
          GivesExactly(op, x, y, v);
        }
    }
  }

  lemma {:induction false} MeaningRange(e: Expr, memory: Word -> Word)
    ensures Meaning(e, memory).Value? || Meaning(e, memory).Crash?
  {
    match e
    case Leaf(_) =>
    case Group(inner) => MeaningRange(inner, memory);
    case Prefix(_, arg) => MeaningRange(arg, memory);
    case Infix(_, l, r) => MeaningRange(l, memory); MeaningRange(r, memory);
  }

  /** Parentheses pair up in every expression. */
  lemma {:induction false} YieldBalanced(e: Expr)
    requires Derivation(e)
    ensures Balanced(Yield(e))
  {
    match e
    case Leaf(_) =>
    case Group(inner) =>
      YieldBalanced(inner);
      GroupBalanced(Yield(inner));
    case Prefix(sign, arg) =>
      YieldBalanced(arg);
      JoinBalanced([sign], Yield(arg));
    case Infix(op, l, r) =>
      YieldBalanced(l);
      YieldBalanced(r);
      JoinBalanced(Yield(l), [Binary(op)]);
      JoinBalanced(Yield(l) + [Binary(op)], Yield(r));
  }

  lemma JoinBalanced(a: seq<Token>, b: seq<Token>)
    requires Balanced(a) && Balanced(b)
    ensures Balanced(a + b)
  {
    forall i | 0 <= i <= |a + b|
      ensures Depth(a + b, i) >= 0
    {
      JoinDepth(a, b, i);
    }
    JoinDepth(a, b, |a + b|);
  }

  lemma JoinDepth(a: seq<Token>, b: seq<Token>, i: nat)
    requires Depth(a, |a|) == 0 && i <= |a + b|
    ensures Depth(a + b, i) == if i <= |a| then Depth(a, i) else Depth(b, i - |a|)
  {
    if i <= |a| {
      DepthPrefix(a, b, i);
    } else {
      DepthSuffix(a, b, i - |a|);
    }
  }

  /** Inside a group everything is one level deeper. */
  lemma GroupDepth(a: seq<Token>, i: nat)
    requires Balanced(a) && i <= |a| + 2
    ensures Depth([LParen] + a + [RParen], i) == if i == 0 || i == |a| + 2 then 0 else 1 + Depth(a, i - 1)
  {
    var ts := [LParen] + a + [RParen];
    assert ts == [LParen] + (a + [RParen]);
    assert Depth([LParen], 1) == 1;
    if 0 < i <= |a| + 1 {
      DepthSuffix([LParen], a + [RParen], i - 1);
      DepthPrefix(a, [RParen], i - 1);
    } else if i == |a| + 2 {
      GroupDepth(a, |a| + 1);
    }
  }

  lemma GroupBalanced(a: seq<Token>)
    requires Balanced(a)
    ensures Balanced([LParen] + a + [RParen])
    ensures ParenOf([LParen] + a + [RParen]) == Match
  {
    var ts := [LParen] + a + [RParen];
    forall i | 0 <= i <= |ts|
      ensures Depth(ts, i) >= 0 && (0 < i < |ts| ==> Depth(ts, i) > 0)
    {
      GroupDepth(a, i);
    }
    GroupDepth(a, |ts|);
  }

  /** The operators outside parentheses are no looser than the outermost one. */
  lemma {:induction false} TopBounded(e: Expr, i: nat)
    requires Derivation(e) && i < |Yield(e)| && AtTop(Yield(e), i) && Yield(e)[i].Binary?
    ensures Level(Yield(e)[i].op) <= Rank(e)
  {
    match e
    case Leaf(_) =>
    case Group(inner) =>
      YieldBalanced(inner);
      GroupDepth(Yield(inner), i);
    case Prefix(sign, arg) =>
      if i > 0 {
        JoinDepth([sign], Yield(arg), i);
        TopBounded(arg, i - 1);
      }
    case Infix(op, l, r) =>
      InfixTop(e, i);
      if i < |Yield(l)| {
        TopBounded(l, i);
      } else if i > |Yield(l)| {
        TopBounded(r, i - |Yield(l)| - 1);
      }
  }

  /** Where the tokens of a binary expression lie, and how deep. */
  lemma InfixTop(e: Expr, i: nat)
    requires e.Infix? && Derivation(e) && i < |Yield(e)|
    ensures var n := |Yield(e.left)|;
      if i < n then Yield(e)[i] == Yield(e.left)[i] && Depth(Yield(e), i) == Depth(Yield(e.left), i)
      else if i == n then Yield(e)[i] == Binary(e.op) && Depth(Yield(e), i) == 0
      else Yield(e)[i] == Yield(e.right)[i - n - 1] && Depth(Yield(e), i) == Depth(Yield(e.right), i - n - 1)
  {
    var l, r := Yield(e.left), Yield(e.right);
    YieldBalanced(e.left);
    assert Yield(e) == l + ([Binary(e.op)] + r);
    JoinDepth(l, [Binary(e.op)] + r, i);
    if i > |l| {
      JoinDepth([Binary(e.op)], r, i - |l|);
    }
  }

  /** The evaluator's main operator of a binary expression is its outermost operator, */
  lemma InfixMain(e: Expr)
    requires e.Infix? && Derivation(e)
    ensures Best(Yield(e), |Yield(e)|) == |Yield(e.left)|
  {
    var ts, n := Yield(e), |Yield(e.left)|;
    InfixTop(e, n);
    RanksExactly(e.op, e.left, e.right);
    hide Depth, Best, Tighter, Yield;
    forall j | 0 <= j < |ts| && AtTop(ts, j) && ts[j].Binary?
      ensures Level(ts[j].op) <= Level(e.op) && (j > n ==> Level(ts[j].op) < Level(e.op))
    {
      TopBounded(e, j);
      InfixTop(e, j);
      if j > n {
        TopBounded(e.right, j - n - 1);
      }
    }
    BestIsMain(ts, |ts|);
    MainUnique(ts, |ts|, Best(ts, |ts|), n);
  }

  /** and that of a unary one is its first token. */
  lemma PrefixMain(e: Expr)
    requires e.Prefix? && Derivation(e)
    ensures Best(Yield(e), |Yield(e)|) == 0
  {
    var ts := Yield(e);
    forall j | 0 <= j < |ts| && AtTop(ts, j)
      ensures IsUnary(ts[j])
    {
      if ts[j].Binary? {
        TopBounded(e, j);
      }
    }
    BestIsMain(ts, |ts|);
    MainUnique(ts, |ts|, Best(ts, |ts|), 0);
  }

  /** One step of the evaluator on each kind of expression. */
  lemma GroupEval(e: Expr, memory: Word -> Word)
    requires e.Group? && Derivation(e)
    ensures Eval(Yield(e), memory) == Eval(Yield(e.inner), memory)
  {
    YieldBalanced(e.inner);
    GroupBalanced(Yield(e.inner));
    hide ParenOf, Depth;
    assert Yield(e)[1..|Yield(e)| - 1] == Yield(e.inner);
  }

  lemma PrefixEval(e: Expr, memory: Word -> Word)
    requires e.Prefix? && Derivation(e)
    ensures var x := Eval(Yield(e.arg), memory);
      Eval(Yield(e), memory) == if x.Value? then ComputeUnary(e.sign, x.value, memory) else x
  {
    YieldBalanced(e);
    PrefixMain(e);
    assert ParenOf(Yield(e)) == Dismatch;
    hide ParenOf, Depth, Best, Nested;
    assert Yield(e)[1..] == Yield(e.arg);
  }

  lemma InfixEval(e: Expr, memory: Word -> Word)
    requires e.Infix? && Derivation(e)
    ensures var x, y := Eval(Yield(e.left), memory), Eval(Yield(e.right), memory);
      Eval(Yield(e), memory) == if !y.Value? then y else if !x.Value? then x else Compute(e.op, x.value, y.value)
  {
    var n := |Yield(e.left)|;
    YieldBalanced(e);
    InfixMain(e);
    InfixTop(e, n);
    assert ParenOf(Yield(e)) == Dismatch;
    hide ParenOf, Depth, Best, Nested, Compute;
    assert Yield(e)[..n] == Yield(e.left) && Yield(e)[n + 1..] == Yield(e.right);
  }

  /** Completeness: the evaluator returns the meaning of every expression of the grammar. */
  lemma {:induction false} EvalDerivation(e: Expr, memory: Word -> Word)
    requires Derivation(e)
    ensures Eval(Yield(e), memory) == Meaning(e, memory)
  {
    hide Eval, Compute, ComputeUnary;
    match e {
      case Leaf(_) =>
        LeafEval(e, memory);
      case Group(inner) =>
        GroupEval(e, memory);
        EvalDerivation(inner, memory);
      case Prefix(sign, arg) =>
        PrefixEval(e, memory);
        EvalDerivation(arg, memory);
        MeaningRange(arg, memory);
      case Infix(op, l, r) =>
        InfixEval(e, memory);
        EvalDerivation(l, memory);
        EvalDerivation(r, memory);
        MeaningRange(l, memory);
        MeaningRange(r, memory);
    }
  }

  /** The evaluator returns the value that an expression denotes, and crashes if and only if it denotes none. */
  lemma EvalDenotes(e: Expr, memory: Word -> Word)
    requires Derivation(e)
    ensures forall v: Word :: Eval(Yield(e), memory) == Value(v) <==> Denotes(e, memory, v)
    ensures Eval(Yield(e), memory) == Crash <==> forall v: Word :: !Denotes(e, memory, v)
  {
    hide Eval, Denotes, Meaning;
    EvalDerivation(e, memory);
    MeaningRange(e, memory);
    forall v: Word
      ensures Denotes(e, memory, v) <==> Meaning(e, memory) == Value(v)
    {
      DenotesExactly(e, memory, v);
    }
    var m := Meaning(e, memory);
    if m.Value? {
      assert Denotes(e, memory, m.value);
    }
  }

  lemma LeafEval(e: Expr, memory: Word -> Word)
    requires e.Leaf?
    ensures Eval(Yield(e), memory) == Value(e.value)
  {
  }

  /** No sequence of tokens has two derivations. */
  lemma {:induction false} Unambiguous(e: Expr, f: Expr)
    requires Derivation(e) && Derivation(f) && Yield(e) == Yield(f)
    ensures e == f
  {
    var ts := Yield(e);
    Kind(e);
    Kind(f);
    hide Depth, Best, ParenOf, Nested, IsMain;
    if e.Group? {
      assert ts[1..|ts| - 1] == Yield(e.inner) && ts[1..|ts| - 1] == Yield(f.inner);
      Unambiguous(e.inner, f.inner);
    } else if e.Prefix? {
      assert ts[1..] == Yield(e.arg) && ts[1..] == Yield(f.arg);
      Unambiguous(e.arg, f.arg);
    } else if e.Infix? {
      var n := |Yield(e.left)|;
      assert ts[..n] == Yield(e.left) && ts[n + 1..] == Yield(e.right);
      assert ts[..n] == Yield(f.left) && ts[n + 1..] == Yield(f.right);
      Unambiguous(e.left, f.left);
      Unambiguous(e.right, f.right);
    }
  }

  /** The tokens show which kind of expression they are, and its outermost operator. */
  lemma Kind(e: Expr)
    requires Derivation(e)
    ensures e.Leaf? <==> |Yield(e)| == 1
    ensures e.Group? <==> |Yield(e)| > 1 && ParenOf(Yield(e)) == Match
    ensures e.Prefix? ==> Best(Yield(e), |Yield(e)|) == 0 && IsUnary(Yield(e)[0])
    ensures e.Infix? ==>
      Best(Yield(e), |Yield(e)|) == |Yield(e.left)| && Yield(e)[|Yield(e.left)|] == Binary(e.op)
  {
    match e
    case Leaf(_) =>
    case Group(inner) =>
      YieldBalanced(inner);
      GroupBalanced(Yield(inner));
    case Prefix(_, _) =>
      PrefixMain(e);
    case Infix(_, l, _) =>
      InfixMain(e);
      InfixTop(e, |Yield(l)|);
  }
}
