/** Powers of two and the C operators `&`, `|`, `^`, `<<`, `>>` on natural numbers. */
module Bits {

  function Pow2(n: nat): (r: nat)
    ensures r > 0
  {
    if n == 0 then 1 else 2 * Pow2(n - 1)
  }

  datatype BitOp = And | Or | Xor

  /** One column of the truth table. */
  function OpBit(op: BitOp, x: nat, y: nat): (b: nat)
    ensures b < 2
  {
    match op
    case And => if x == 1 && y == 1 then 1 else 0
    case Or => if x == 1 || y == 1 then 1 else 0
    case Xor => if x != y then 1 else 0
  }

  /** The bitwise operator on the low `n` bits of `x` and `y`. */
  function Bitwise(op: BitOp, n: nat, x: nat, y: nat): nat {
    if n == 0 then 0
    else OpBit(op, x % 2, y % 2) + 2 * Bitwise(op, n - 1, x / 2, y / 2)
  }

  lemma {:induction false} Pow2Add(m: nat, n: nat)
    ensures Pow2(m + n) == Pow2(m) * Pow2(n)
  {
    if m == 0 {
    } else {
      Pow2Add(m - 1, n);
      MulAssoc(2, Pow2(m - 1), Pow2(n));
    }
  }

  lemma {:induction false} Pow2Mono(m: nat, n: nat)
    requires m <= n
    ensures Pow2(m) <= Pow2(n)
  {
    if m < n {
      Pow2Mono(m, n - 1);
    }
  }

  lemma MulAssoc(x: int, y: int, z: int)
    ensures (x * y) * z == x * (y * z)
  {
  }

  lemma MulMono(x: int, y: int, z: int)
    requires x <= y && 0 <= z
    ensures x * z <= y * z
  {
  }

  /** Quotient and remainder are determined by their defining equation. */
  lemma DivModUnique(a: int, d: int, q: int, r: int)
    requires 0 <= r < d
    requires a == q * d + r
    ensures a / d == q && a % d == r
  {
    var q', r' := a / d, a % d;
    assert a == q' * d + r' && 0 <= r' < d;
    assert (q - q') * d == r' - r;
    if q > q' {
      MulMono(1, q - q', d);
    } else if q < q' {
      MulMono(q - q', -1, d);
    }
  }

  lemma DivMod(x: nat, p: nat)
    requires p > 0
    ensures x == x / p * p + x % p && x % p < p && x / p >= 0
  {
  }

  /** A number below `p * c` has a quotient below `c`. */
  lemma QuotientBelow(x: nat, p: nat, c: nat)
    requires p > 0 && x < p * c
    ensures x / p < c
  {
    DivMod(x, p);
    FactorBelow(x, p, c, x / p, x % p);
  }

  lemma FactorBelow(x: nat, p: nat, c: nat, q: nat, r: nat)
    requires x < p * c && x == q * p + r
    ensures q < c
  {
    if q >= c {
      MulMono(c, q, p);
    }
  }

  lemma DivDiv(a: nat, m: nat, n: nat)
    requires m > 0 && n > 0
    ensures m * n > 0
    ensures a / m / n == a / (m * n)
    ensures a % (m * n) == (a / m % n) * m + a % m
  {
    var q, r := a / m, a % m;
    assert a == q * m + r;
    var q2, r2 := q / n, q % n;
    assert q == q2 * n + r2;
    assert m * n > 0;
    MulMono(r2, n - 1, m);
    assert (n - 1) * m == m * n - m;
    calc {
      a;
      (q2 * n + r2) * m + r;
      q2 * n * m + r2 * m + r;
      { assert q2 * n * m == q2 * (m * n); }
      q2 * (m * n) + (r2 * m + r);
    }
    DivModUnique(a, m * n, q2, r2 * m + r);
  }

  lemma {:induction false} BitwiseBound(op: BitOp, n: nat, x: nat, y: nat)
    ensures Bitwise(op, n, x, y) < Pow2(n)
  {
    if n > 0 {
      BitwiseBound(op, n - 1, x / 2, y / 2);
    }
  }

  /** A bitwise operator acts on low and high bits separately. */
  lemma {:induction false} BitwiseSplit(op: BitOp, m: nat, n: nat, x: nat, xh: nat, xl: nat, y: nat, yh: nat, yl: nat)
    requires x == xh * Pow2(m) + xl && xl < Pow2(m)
    requires y == yh * Pow2(m) + yl && yl < Pow2(m)
    ensures Bitwise(op, m + n, x, y) == Bitwise(op, n, xh, yh) * Pow2(m) + Bitwise(op, m, xl, yl)
  {
    if m > 0 {
      var p := Pow2(m - 1);
      HalfOfSum(x, xh, p, xl);
      HalfOfSum(y, yh, p, yl);
      BitwiseSplit(op, m - 1, n, x / 2, xh, xl / 2, y / 2, yh, yl / 2);
      DoubleProduct(Bitwise(op, n, xh, yh), p);
    }
  }

  lemma HalfOfSum(x: nat, h: nat, p: nat, l: nat)
    requires x == h * (2 * p) + l
    ensures x / 2 == h * p + l / 2
    ensures x % 2 == l % 2
  {
    DoubleProduct(h, p);
  }

  lemma DoubleProduct(h: int, p: int)
    ensures h * (2 * p) == 2 * (h * p)
  {
  }

  lemma {:induction false} BitwiseZeroRight(op: BitOp, n: nat, x: nat)
    requires x < Pow2(n)
    ensures Bitwise(op, n, x, 0) == if op == And then 0 else x
    ensures Bitwise(op, n, 0, x) == if op == And then 0 else x
  {
    if n > 0 {
      BitwiseZeroRight(op, n - 1, x / 2);
    }
  }

  /** `x & (2^n - 1) == x` and `x ^ (2^n - 1) == 2^n - 1 - x` on `n` bits. */
  lemma {:induction false} BitwiseOnes(n: nat, x: nat)
    requires x < Pow2(n)
    ensures Bitwise(And, n, x, Pow2(n) - 1) == x == Bitwise(And, n, Pow2(n) - 1, x)
    ensures Bitwise(Xor, n, x, Pow2(n) - 1) == Pow2(n) - 1 - x == Bitwise(Xor, n, Pow2(n) - 1, x)
  {
    if n > 0 {
      BitwiseOnes(n - 1, x / 2);
      assert (Pow2(n) - 1) / 2 == Pow2(n - 1) - 1;
    }
  }

  /** `x | y == x + y` when `x` only has bits from `m` upwards and `y` only bits below `m`. */
  lemma OrDisjoint(m: nat, n: nat, x: nat, h: nat, y: nat)
    requires x == h * Pow2(m) && h < Pow2(n) && y < Pow2(m)
    ensures Bitwise(Or, m + n, x, y) == x + y
    ensures Bitwise(Or, m + n, y, x) == x + y
  {
    BitwiseZeroRight(Or, m, y);
    BitwiseZeroRight(Or, n, h);
    BitwiseSplit(Or, m, n, x, h, 0, y, 0, y);
    BitwiseSplit(Or, m, n, y, 0, y, x, h, 0);
  }

  /** Masking with `mask = (2^k - 1) << m` keeps the `k`-bit field `x1` at bit `m`. */
  lemma AndMask(m: nat, k: nat, n: nat, x: nat, xh: nat, x2: nat, x1: nat, x0: nat, mask: nat)
    requires x0 < Pow2(m) && x1 < Pow2(k) && x2 < Pow2(n)
    requires x == xh * Pow2(m) + x0 && xh == x2 * Pow2(k) + x1
    requires mask == (Pow2(k) - 1) * Pow2(m)
    ensures Bitwise(And, m + (k + n), x, mask) == x1 * Pow2(m)
  {
    BitwiseSplit(And, k, n, xh, x2, x1, Pow2(k) - 1, 0, Pow2(k) - 1);
    BitwiseZeroRight(And, n, x2);
    BitwiseOnes(k, x1);
    BitwiseZeroRight(And, m, x0);
    BitwiseSplit(And, m, k + n, x, xh, x0, mask, Pow2(k) - 1, 0);
  }

  /** Bit `k` of a number. */
  predicate BitAt(x: nat, k: nat) {
    x / Pow2(k) % 2 == 1
  }

  /** `v` has the bits that the operator makes of those of `x` and `y`: the set ones in both, in one, in exactly one. */
  ghost predicate Joins(op: BitOp, n: nat, x: nat, y: nat, v: nat) {
    && v < Pow2(n)
    && (op == And ==> forall k :: 0 <= k < n ==> (BitAt(v, k) <==> BitAt(x, k) && BitAt(y, k)))
    && (op == Or ==> forall k :: 0 <= k < n ==> (BitAt(v, k) <==> BitAt(x, k) || BitAt(y, k)))
    && (op == Xor ==> forall k :: 0 <= k < n ==> (BitAt(v, k) <==> BitAt(x, k) != BitAt(y, k)))
  }

  lemma BitOfHalf(x: nat, k: nat)
    ensures BitAt(x, 0) <==> x % 2 == 1
    ensures BitAt(x, k + 1) <==> BitAt(x / 2, k)
  {
    DivDiv(x, 2, Pow2(k));
  }

  /** The bits of the result, and that they determine it. */
  lemma {:induction false} BitwiseJoins(op: BitOp, n: nat, x: nat, y: nat)
    ensures Joins(op, n, x, y, Bitwise(op, n, x, y))
  {
    BitwiseBound(op, n, x, y);
    var v := Bitwise(op, n, x, y);
    hide BitAt, Pow2;
    if n > 0 {
      BitwiseJoins(op, n - 1, x / 2, y / 2);
      BitwiseHalves(op, n, x, y);
      hide Bitwise;
      forall k | 0 <= k < n
        ensures BitAt(x, k) <==> if k == 0 then x % 2 == 1 else BitAt(x / 2, k - 1)
        ensures BitAt(y, k) <==> if k == 0 then y % 2 == 1 else BitAt(y / 2, k - 1)
        ensures BitAt(v, k) <==> if k == 0 then v % 2 == 1 else BitAt(v / 2, k - 1)
      {
        HalfBits(x, k);
        HalfBits(y, k);
        HalfBits(v, k);
      }
    }
  }

  lemma BitwiseHalves(op: BitOp, n: nat, x: nat, y: nat)
    requires n > 0
    ensures var v := Bitwise(op, n, x, y);
      v % 2 == OpBit(op, x % 2, y % 2) && v / 2 == Bitwise(op, n - 1, x / 2, y / 2)
  {
    hide OpBit;
    SumHalves(OpBit(op, x % 2, y % 2), Bitwise(op, n - 1, x / 2, y / 2));
  }

  lemma SumHalves(b: nat, w: nat)
    requires b < 2
    ensures (b + 2 * w) % 2 == b && (b + 2 * w) / 2 == w
  {
  }

  lemma HalfBits(x: nat, k: nat)
    ensures BitAt(x, k) <==> if k == 0 then x % 2 == 1 else BitAt(x / 2, k - 1)
  {
    BitOfHalf(x, if k == 0 then 0 else k - 1);
  }

  lemma {:induction false} SameBits(n: nat, x: nat, y: nat)
    requires x < Pow2(n) && y < Pow2(n) && forall k :: 0 <= k < n ==> (BitAt(x, k) <==> BitAt(y, k))
    ensures x == y
  {
    if n > 0 {
      hide BitAt;
      HalfBits(x, 0);
      HalfBits(y, 0);
      forall k | 0 <= k < n - 1
        ensures BitAt(x / 2, k) <==> BitAt(y / 2, k)
      {
        HalfBits(x, k + 1);
        HalfBits(y, k + 1);
      }
      SameBits(n - 1, x / 2, y / 2);
    }
  }

  lemma JoinsExactly(op: BitOp, n: nat, x: nat, y: nat, v: nat)
    ensures Joins(op, n, x, y, v) <==> v == Bitwise(op, n, x, y)
  {
    BitwiseJoins(op, n, x, y);
    hide BitAt, Bitwise, Pow2;
    if Joins(op, n, x, y, v) {
      SameBits(n, v, Bitwise(op, n, x, y));
    }
  }

  /** The three operators and addition: common bits count twice in a sum. */
  lemma {:induction false} BitwiseSums(n: nat, x: nat, y: nat)
    requires x < Pow2(n) && y < Pow2(n)
    ensures Bitwise(And, n, x, y) + Bitwise(Or, n, x, y) == x + y
    ensures Bitwise(Xor, n, x, y) + 2 * Bitwise(And, n, x, y) == x + y
    ensures x == y ==> Bitwise(Or, n, x, y) == Bitwise(And, n, x, y) == x
  {
    if n > 0 {
      BitwiseSums(n - 1, x / 2, y / 2);
    }
  }

  /** `x` and `y` differ by a multiple of `m`. */
  ghost predicate Congruent(x: int, y: int, m: int) {
    exists k: int :: x == y + k * m
  }

  lemma OneMultiple(x: int, y: int, j: int, k: int, m: int)
    requires x + j * m == y + k * m && -m < x - y < m
    ensures x == y
  {
    assert (k - j) * m == x - y;
    if k - j >= 1 {
      MulMono(1, k - j, m);
    } else if k - j <= -1 {
      MulMono(1, j - k, m);
    }
  }

  lemma CongruentExactly(v: int, x: int, m: int)
    requires 0 <= v < m
    ensures Congruent(v, x, m) <==> v == x % m
  {
    var q := x / m;
    assert x % m == x + -q * m;
    if k: int :| v == x + k * m {
      OneMultiple(v, x % m, -k, q, m);
    }
  }

  /** Numbers less than `m` apart are congruent only if they are equal. */
  lemma CongruentNear(x: int, y: int, z: int, m: int)
    requires Congruent(x, z, m) && Congruent(y, z, m) && -m < x - y < m
    ensures x == y
  {
    var j: int :| x == z + j * m;
    var k: int :| y == z + k * m;
    assert x + -j * m == y + -k * m;
    OneMultiple(x, y, -j, -k, m);
  }
}
