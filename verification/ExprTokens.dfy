/** Tokens of the debugger's expressions, and how deep parentheses nest. */
module ExprTokens {
  import opened WordTypes

  datatype Op = Add | Sub | Mul | Div | Eq | Neq | Ge | Le | Gt | Lt | And | Or

  /** `Operand` is a decimal, hexadecimal or register token with the value it stands for. */
  datatype Token = LParen | RParen | Operand(value: Word) | Binary(op: Op) | Deref | Neg

  /** The groups of operators that `FindMainOP` tells apart; a larger level binds less tightly. */
  function Level(op: Op): (l: nat)
    ensures 1 <= l <= 4
  {
    match op
    case Mul | Div => 1
    case Add | Sub => 2
    case Eq | Neq | Ge | Le | Gt | Lt => 3
    case And | Or => 4
  }

  predicate IsUnary(t: Token) {
    t == Deref || t == Neg
  }

  /** A token that can end an operand. */
  predicate EndsOperand(t: Token) {
    t.Operand? || t == RParen
  }

  function Delta(t: Token): int {
    if t == LParen then 1 else if t == RParen then -1 else 0
  }

  /** Parentheses opened minus parentheses closed among the first `i` tokens. */
  function Depth(ts: seq<Token>, i: nat): int
    requires i <= |ts|
  {
    if i == 0 then 0 else Depth(ts, i - 1) + Delta(ts[i - 1])
  }

  /** No prefix closes more parentheses than it opens. */
  predicate Nested(ts: seq<Token>) {
    forall i :: 0 <= i <= |ts| ==> Depth(ts, i) >= 0
  }

  ghost predicate Balanced(ts: seq<Token>) {
    Nested(ts) && Depth(ts, |ts|) == 0
  }

  lemma {:induction false} DepthPrefix(a: seq<Token>, b: seq<Token>, i: nat)
    requires i <= |a|
    ensures Depth(a + b, i) == Depth(a, i)
  {
    if i > 0 {
      DepthPrefix(a, b, i - 1);
    }
  }

  lemma {:induction false} DepthSuffix(a: seq<Token>, b: seq<Token>, i: nat)
    requires i <= |b|
    ensures Depth(a + b, |a| + i) == Depth(a, |a|) + Depth(b, i)
  {
    if i == 0 {
      DepthPrefix(a, b, |a|);
    } else {
      DepthSuffix(a, b, i - 1);
    }
  }

  /** Depth inside a slice. */
  lemma DepthSlice(ts: seq<Token>, p: nat, q: nat, i: nat)
    requires p <= q <= |ts| && i <= q - p
    ensures Depth(ts[p..q], i) == Depth(ts, p + i) - Depth(ts, p)
  {
    assert ts == ts[..p] + ts[p..];
    assert ts[p..] == ts[p..q] + ts[q..];
    DepthPrefix(ts[p..q], ts[q..], i);
    DepthSuffix(ts[..p], ts[p..], i);
    DepthPrefix(ts[..p], ts[p..], p);
  }

  /** Crossing from a positive depth to zero or below goes through zero. */
  lemma {:induction false} CrossesZero(ts: seq<Token>, i: nat, n: nat) returns (m: nat)
    requires i <= n <= |ts| && Depth(ts, i) > 0 >= Depth(ts, n)
    ensures i < m <= n && Depth(ts, m) == 0 && forall k :: i <= k < m ==> Depth(ts, k) > 0
    decreases n - i
  {
    if Depth(ts, i + 1) == 0 {
      m := i + 1;
    } else {
      m := CrossesZero(ts, i + 1, n);
    }
  }

  /** An operator outside all parentheses. */
  predicate AtTop(ts: seq<Token>, i: nat)
    requires i < |ts|
  {
    Depth(ts, i) == 0 && (ts[i].Binary? || IsUnary(ts[i]))
  }

  /** Whether `FindMainOP` lets token `t` replace the operator found so far at `r`, or -1. */
  predicate Replaces(ts: seq<Token>, r: int, t: Token)
    requires -1 <= r < |ts|
  {
    if IsUnary(t) then r == -1
    else t.Binary? && (r == -1 || !ts[r].Binary? || Level(ts[r].op) <= Level(t.op))
  }

  /** The position `FindMainOP` holds after `i` tokens. */
  function Best(ts: seq<Token>, i: nat): (r: int)
    requires i <= |ts|
    ensures -1 <= r < i
  {
    if i == 0 then -1
    else if AtTop(ts, i - 1) && Replaces(ts, Best(ts, i - 1), ts[i - 1]) then i - 1
    else Best(ts, i - 1)
  }

  /** The main operator: the last of the loosest binary operators, or the first unary one when there is no binary. */
  ghost predicate IsMain(ts: seq<Token>, n: nat, r: int)
    requires n <= |ts|
  {
    && -1 <= r < n
    && (r == -1 ==> forall j :: 0 <= j < n ==> !AtTop(ts, j))
    && (r >= 0 ==> AtTop(ts, r))
    && (r >= 0 && ts[r].Binary? ==> forall j :: 0 <= j < n && AtTop(ts, j) && ts[j].Binary? ==>
          Level(ts[j].op) <= Level(ts[r].op) && (j > r ==> Level(ts[j].op) < Level(ts[r].op)))
    && (r >= 0 && IsUnary(ts[r]) ==> forall j :: 0 <= j < n && AtTop(ts, j) ==> IsUnary(ts[j]) && r <= j)
  }

  lemma {:induction false} BestIsMain(ts: seq<Token>, n: nat)
    requires n <= |ts|
    ensures IsMain(ts, n, Best(ts, n))
  {
    hide AtTop;
    if n > 0 {
      BestIsMain(ts, n - 1);
      TopIsOperator(ts, n - 1);
      if Best(ts, n - 1) >= 0 {
        TopIsOperator(ts, Best(ts, n - 1));
      }
    }
  }

  lemma TopIsOperator(ts: seq<Token>, i: nat)
    requires i < |ts|
    ensures AtTop(ts, i) ==> ts[i].Binary? || IsUnary(ts[i])
  {
  }

  lemma MainUnique(ts: seq<Token>, n: nat, r: int, r': int)
    requires n <= |ts| && IsMain(ts, n, r) && IsMain(ts, n, r')
    ensures r == r'
  {
    if r >= 0 {
      assert AtTop(ts, r);
    }
    if r' >= 0 {
      assert AtTop(ts, r');
    }
  }
}
