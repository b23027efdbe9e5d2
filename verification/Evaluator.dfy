/** `expr.c`: evaluation by splitting a range of tokens at its main operator. */
module Evaluator {
  import opened Words
  import opened ExprTokens
  import opened Options
  import opened WordTypes

  datatype Code = ParenErr | BadExprErr | MainOpErr | UnknownElementErr

  /** `Crash` is a division by zero, `Abort` the failing assertion on a closing parenthesis. */
  datatype Result = Value(value: Word) | Error(code: Code) | Crash | Abort

  datatype Paren = Invalid | Match | Dismatch

  /** What `check_parenthesis` decides. */
  function ParenOf(ts: seq<Token>): Paren
    requires |ts| > 0
  {
    if Depth(ts, |ts|) != 0 then Invalid
    else if ts[0] == LParen && ts[|ts| - 1] == RParen && forall j :: 0 < j < |ts| ==> Depth(ts, j) != 0 then Match
    else Dismatch
  }

  /** The binary operators on 32-bit unsigned values; `&&` and `||` evaluate both sides. */
  function Compute(op: Op, x: Word, y: Word): Result {
    match op
    case Add => Value(Mod32(x + y))
    case Sub => Value(Mod32(x - y))
    case Mul => Value(Mod32(x * y))
    case Div => if y == 0 then Crash else Value(Shrunk(x, y))
    case Eq => Value(Flag(x == y))
    case Neq => Value(Flag(x != y))
    case Ge => Value(Flag(x >= y))
    case Le => Value(Flag(x <= y))
    case Gt => Value(Flag(x > y))
    case Lt => Value(Flag(x < y))
    case And => Value(Flag(x != 0 && y != 0))
    case Or => Value(Flag(x != 0 || y != 0))
  }

  function Shrunk(x: Word, y: Word): Word
    requires y > 0
  {
    DivRange(x, y);
    x / y
  }

  /** The unary operators; `memory` is what `paddr_read` returns for a four-byte read. */
  function ComputeUnary(t: Token, x: Word, memory: Word -> Word): Result {
    Value(if t == Neg then Mod32(0 - x as int) else memory(x))
  }

  /** What `eval` returns for a range of tokens. */
  function Eval(ts: seq<Token>, memory: Word -> Word): Result
    decreases |ts|
  {
    if |ts| == 0 then Error(BadExprErr)
    else if |ts| == 1 then
      if ts[0].Operand? then Value(ts[0].value) else Error(UnknownElementErr)
    else
      match ParenOf(ts)
      case Invalid => Error(ParenErr)
      case Match => Eval(ts[1..|ts| - 1], memory)
      case Dismatch => Split(ts, memory)
  }

  /** The part of `eval` below the main operator. */
  function Split(ts: seq<Token>, memory: Word -> Word): Result
    requires |ts| > 1
    decreases |ts|, 0
  {
    if !Nested(ts) then Abort
    else
      var r := Best(ts, |ts|);
      if r < 0 then Error(MainOpErr)
      else
        var right := Eval(ts[r + 1..], memory);
        if !right.Value? then right
        else if IsUnary(ts[r]) then ComputeUnary(ts[r], right.value, memory)
        else
          var left := Eval(ts[..r], memory);
          if !left.Value? then left
          else if ts[r].Binary? then Compute(ts[r].op, left.value, right.value)
          else Error(MainOpErr)
  }

  method CheckParenthesis(tokens: array<Token>, p: nat, q: nat) returns (ret: Paren)
    requires p < q <= tokens.Length
    ensures ret == ParenOf(tokens[p..q])
  {
    ghost var ts := tokens[p..q];
    var i, dismatch := 0, false;
    for j := 0 to q - p
      invariant i == Depth(ts, j)
      invariant dismatch <==> exists k :: 0 < k <= j && k < q - p && Depth(ts, k) == 0
    {
      if tokens[p + j] == LParen {
        i := i + 1;
      }
      if tokens[p + j] == RParen {
        i := i - 1;
      }
      assert i == Depth(ts, j + 1);
      if i == 0 && p + j != q - 1 {
        dismatch := true;
      }
    }
    assert ts[0] == tokens[p] && ts[q - p - 1] == tokens[q - 1] && |ts| == q - p;
    assert i == Depth(ts, |ts|);
    if i != 0 {
      return Invalid;
    } else if tokens[p] != LParen || tokens[q - 1] != RParen || dismatch {
      return Dismatch;
    } else {
      assert forall k :: 0 < k < |ts| ==> Depth(ts, k) != 0;
      return Match;
    }
  }

  /** The condition of each case of the scan, on the operator found so far. */
  predicate Chosen(main: Option<Token>, t: Token) {
    if IsUnary(t) then main.None?
    else t.Binary? && (main.None? || !main.value.Binary? || Level(main.value.op) <= Level(t.op))
  }

  /** One case of the scan, outside and inside parentheses. */
  lemma ScanStep(ts: seq<Token>, i: nat)
    requires i < |ts|
    ensures Best(ts, 0) == -1
    ensures Depth(ts, i) != 0 || !(ts[i].Binary? || IsUnary(ts[i])) ==> Best(ts, i + 1) == Best(ts, i)
    ensures Depth(ts, i) == 0 && (ts[i].Binary? || IsUnary(ts[i])) ==>
      var main := if Best(ts, i) < 0 then None else Some(ts[Best(ts, i)]);
      Best(ts, i + 1) == if Chosen(main, ts[i]) then i else Best(ts, i)
  {
  }

  /** The scan for the main operator; a range whose parentheses add up never makes the inner loop run out of it. */
  method FindMainOp(tokens: array<Token>, p: nat, q: nat) returns (pos: int, aborted: bool)
    requires p < q <= tokens.Length && Depth(tokens[p..q], q - p) == 0
    ensures aborted <==> !Nested(tokens[p..q])
    ensures !aborted ==> pos == Best(tokens[p..q], q - p)
  {
    hide Best;
    ghost var ts := tokens[p..q];
    var i := 0;
    pos := -1;
    ScanStep(ts, 0);
    while p + i < q
      invariant 0 <= i <= q - p && Depth(ts, i) == 0 && -1 <= pos < i && pos == Best(ts, i)
      invariant forall k :: 0 <= k <= i ==> Depth(ts, k) >= 0
    {
      var t := tokens[p + i];
      assert t == ts[i] && Depth(ts, i + 1) == Delta(t);
      ScanStep(ts, i);
      if t == LParen {
        var layer := 1;
        ghost var start := i;
        ghost var end := CrossesZero(ts, i + 1, q - p);
        while layer > 0
          invariant start <= i < end && layer == Depth(ts, i + 1) >= 0
          invariant layer == 0 ==> i + 1 == end
          invariant pos == Best(ts, i + 1)
          invariant forall k :: 0 <= k <= i + 1 ==> Depth(ts, k) >= 0
          decreases end - i
        {
          i := i + 1;
          assert tokens[p + i] == ts[i];
          ScanStep(ts, i);
          if tokens[p + i] == LParen {
            layer := layer + 1;
          } else if tokens[p + i] == RParen {
            layer := layer - 1;
          }
          assert layer == Depth(ts, i + 1);
        }
      } else if t == RParen {
        assert Depth(ts, i + 1) < 0;
        return pos, true;
      } else if t.Binary? || IsUnary(t) {
        if Chosen(if pos < 0 then None else Some(tokens[p + pos]), t) {
          pos := i;
        }
      }
      i := i + 1;
    }
    aborted := false;
  }

  lemma SplitFacts(ts: seq<Token>)
    requires |ts| > 0
    ensures ParenOf(ts) != Invalid ==> Depth(ts, |ts|) == 0
    ensures ParenOf(ts) == Match ==> |ts| > 1
    ensures Best(ts, |ts|) >= 0 ==> ts[Best(ts, |ts|)].Binary? || IsUnary(ts[Best(ts, |ts|)])
  {
    BestIsMain(ts, |ts|);
    hide Best, Depth;
  }

  lemma Parts(ts: seq<Token>, p: nat, q: nat, i: nat)
    requires p <= q <= |ts| && i < q - p
    ensures ts[p..q][i + 1..] == ts[p + i + 1..q] && ts[p..q][..i] == ts[p..p + i]
  {
  }

  /** `eval` on the tokens from `p` up to `q`. */
  method EvalRange(tokens: array<Token>, p: nat, q: nat, memory: Word -> Word) returns (r: Result)
    requires p <= q <= tokens.Length
    ensures r == Eval(tokens[p..q], memory)
    decreases q - p
  {
    hide ParenOf, Depth, Best, Nested, Compute, ComputeUnary, IsUnary;
    ghost var ts := tokens[p..q];
    if p + 1 > q {
      return Error(BadExprErr);
    } else if p + 1 == q {
      return if tokens[p].Operand? then Value(tokens[p].value) else Error(UnknownElementErr);
    }
    SplitFacts(ts);
    var ret := CheckParenthesis(tokens, p, q);
    if ret == Invalid {
      return Error(ParenErr);
    } else if ret == Match {
      assert tokens[p + 1..q - 1] == ts[1..|ts| - 1];
      r := EvalRange(tokens, p + 1, q - 1, memory);
      return;
    }
    var pos, aborted := FindMainOp(tokens, p, q);
    if aborted {
      return Abort;
    }
    if pos < 0 {
      return Error(MainOpErr);
    }
    Parts(tokens[..], p, q, pos);
    assert ts == tokens[..][p..q] && tokens[p + pos + 1..q] == tokens[..][p + pos + 1..q];
    assert tokens[p..p + pos] == tokens[..][p..p + pos];
    var right := EvalRange(tokens, p + pos + 1, q, memory);
    if !right.Value? {
      return right;
    }
    if IsUnary(tokens[p + pos]) {
      return ComputeUnary(tokens[p + pos], right.value, memory);
    }
    var left := EvalRange(tokens, p, p + pos, memory);
    if !left.Value? {
      return left;
    }
    return Compute(tokens[p + pos].op, left.value, right.value);
  }
}
