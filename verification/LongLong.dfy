/** The half-word macros of `longlong.h`: exact product of two words, and division of two words by one. */
module LongLong {
  import opened Bits
  import opened Words
  import opened CountZeros
  import opened Multiplication
  import opened WordTypes

  /** `__ll_B`, one half word up. */
  const B: int := 0x1_0000

  function LowPart(x: Word): Word {
    BitOp32(And, x, 0xFFFF)
  }

  function HighPart(x: Word): Word {
    Shr(x, 16)
  }

  lemma Parts(x: Word)
    ensures LowPart(x) == x % B && HighPart(x) == x / B
    ensures x == HighPart(x) * B + LowPart(x) && HighPart(x) < B && LowPart(x) < B
  {
    WordPowers();
    LowMaskOk(4, x);
    SmallPowers();
  }

  lemma HalfProduct(x: Word, y: Word)
    requires x < B && y < B
    ensures Mod32(x * y) == x * y <= (B - 1) * (B - 1) && 0 <= x * y
  {
    MulMono(x, B - 1, y);
    MulMono(y, B - 1, B - 1);
    MulMono(0, x, y);
  }

  /** `umul_ppmm`: only the second addition can carry, and it does exactly when its result is below `x2`. */
  method UMulPpmm(u: Word, v: Word) returns (w1: Word, w0: Word)
    ensures w1 * W + w0 == u * v
  {
    hide LowPart, HighPart, Mod32;
    var ul, uh, vl, vh := LowPart(u), HighPart(u), LowPart(v), HighPart(v);
    Parts(u);
    Parts(v);
    var x0 := MulSi3(ul, vl);
    var x1 := MulSi3(ul, vh);
    var x2 := MulSi3(uh, vl);
    var x3 := MulSi3(uh, vh);
    HalfProduct(ul, vl);
    HalfProduct(ul, vh);
    HalfProduct(uh, vl);
    HalfProduct(uh, vh);
    Parts(x0);
    assert x1 + HighPart(x0) < W;
    x1 := AddWords(x1, HighPart(x0));
    ghost var carries := x1 as int + x2 >= W;
    x1 := AddWords(x1, x2);
    assert x1 < x2 <==> carries;
    if x1 < x2 {
      x3 := AddWords(x3, B);
    }
    Parts(x1);
    Parts(x0);
    w1 := AddWords(x3, HighPart(x1));
    w0 := AddWords(Mod32(LowPart(x1) * B), LowPart(x0));
    assert Mod32(LowPart(x1) * B) == LowPart(x1) * B by {
      SmallProduct(LowPart(x1));
    }
    PartialProducts(uh, ul, vh, vl);
    ProductBound(u, v);
  }

  lemma SmallProduct(x: Word)
    requires x < B
    ensures Mod32(x * B) == x * B
  {
  }

  lemma PartialProducts(a: int, b: int, c: int, d: int)
    ensures (a * B + b) * (c * B + d) == a * c * W + (b * c + a * d) * B + b * d
  {
  }

  /** `x * __ll_B | y` for two half words. */
  function JoinHalves(x: Word, y: Word): Word {
    BitOp32(Or, Mod32(x * B), y)
  }

  lemma JoinOk(x: Word, y: Word)
    requires x < B && y < B
    ensures JoinHalves(x, y) == x * B + y
  {
    WordPowers();
    SmallProduct(x);
    Or32(16, x, x * B, y);
  }

  function SubWords(x: Word, y: Word): (s: Word)
    ensures s == if x >= y then x - y else x + W - y
  {
    Mod32(x as int - y)
  }

  /** What the estimate `q = n / d1` gets right, and how large its product with the low half of `d` can be. */
  lemma EstimateBound(n: nat, half: nat, d: nat, d1: nat, d0: nat, q: int, rest: nat)
    requires d == d1 * B + d0 && 0x8000 <= d1 < B && d0 < B && n < d && half < B
    requires n == q * d1 + rest && rest < d1
    ensures 0 <= q <= B + 1 && 0 <= q * d0 < W
    ensures n * B + half == q * d + (rest * B + half) - q * d0 && rest * B + half < d1 * B
  {
    if q < 0 {
      MulMono(q, -1, d1);
    }
    if q > B + 1 {
      MulMono(B + 2, q, d1);
    }
    MulMono(q, B + 1, d0);
    MulMono(0, q, d0);
    ExpandEstimate(q, d1, d0, rest);
  }

  lemma ExpandEstimate(q: int, d1: int, d0: int, rest: int)
    ensures (q * d1 + rest) * B == q * (d1 * B + d0) + rest * B - q * d0
  {
  }

  /** A remainder in range fixes the digit's range too. */
  lemma DigitRange(n: int, d: int, q: int, r: int)
    requires d > 0 && 0 <= n < d * B && n == q * d + r
    ensures 0 <= r < d ==> 0 <= q < B
    ensures r < 0 ==> q > 0
    ensures r < -d ==> q > 1
  {
    if q <= 1 {
      MulMono(q, 1, d);
    }
    if q <= 0 {
      MulMono(q, 0, d);
    }
    if q <= -1 {
      MulMono(q, -1, d);
    }
    if q >= B {
      MulMono(B, q, d);
    }
  }

  lemma OneLess(q: int, d: int)
    ensures q * d == (q - 1) * d + d == (q - 2) * d + 2 * d
  {
  }

  /**
   * One half-word digit of `__udiv_qrnnd_c`: estimate with the high half of `d`, then correct at most twice.
   * The estimate `n / (d / B)` is never too small and at most 2 too large.
   */
  method QuotientDigit(n: Word, half: Word, d: Word) returns (q: Word, r: Word)
    requires d >= 0x8000_0000 && n < d && half < B
    ensures n * B + half == q * d + r && r < d
    ensures q < B
    ensures q <= n / (d / B) <= q + 2
  {
    hide LowPart, HighPart, Mod32, JoinHalves;
    Parts(d);
    var d1, d0 := HighPart(d), LowPart(d);
    r := n % d1;
    q := n / d1;
    DivMod(n, d1);
    EstimateBound(n, half, d, d1, d0, q, r);
    ghost var q0: int, rest: int := q, r * B + half - q * d0;
    DigitRange(n * B + half, d, q0, rest);
    OneLess(q0, d);
    SmallWord(q * d0);
    var m := Mod32(q * d0);
    JoinOk(r, half);
    r := JoinHalves(r, half);
    if r < m {
      q, r := SubWords(q, 1), AddWords(r, d);
      if r >= d {
        if r < m {
          q, r := SubWords(q, 1), AddWords(r, d);
        }
      }
    }
    r := SubWords(r, m);
    DigitRange(n * B + half, d, q, r);
  }

  lemma SmallWord(x: int)
    requires 0 <= x < W
    ensures Mod32(x) == x
  {
  }

  /** `__udiv_qrnnd_c`: a double word by a word with its top bit set, when the quotient fits. */
  method UDivQrnndC(n1: Word, n0: Word, d: Word) returns (q: Word, r: Word)
    requires d >= 0x8000_0000 && n1 < d
    ensures n1 * W + n0 == q * d + r && r < d
  {
    hide LowPart, HighPart, JoinHalves;
    Parts(n0);
    var q1, r1 := QuotientDigit(n1, HighPart(n0), d);
    var q0, r0 := QuotientDigit(r1, LowPart(n0), d);
    JoinOk(q1, q0);
    q, r := JoinHalves(q1, q0), r0;
    TwoDigits(q1, q0, d);
  }

  lemma TwoDigits(q1: int, q0: int, d: int)
    ensures (q1 * B + q0) * d == q1 * d * B + q0 * d
  {
  }
}
