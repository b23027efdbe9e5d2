/** Signed 64-bit division by sign masks around the unsigned core; operands are two's-complement bit patterns. */
module SignedDivision {
  import opened Bits
  import opened Words
  import opened DivisionLoop
  import opened UnsignedDivision

  const MIN: int := -0x8000_0000_0000_0000

  /** The `di_int` a bit pattern stands for. */
  function Value(x: DWord): int {
    if x >= 0x8000_0000_0000_0000 then x - WW else x
  }

  /** Section 6.5.5 of ISO C11: the quotient is truncated toward zero. */
  function Quotient(a: int, b: int): int
    requires b != 0
  {
    if (a < 0) == (b < 0) then Magnitude(a) / Magnitude(b) else -(Magnitude(a) / Magnitude(b))
  }

  function Remainder(a: int, b: int): int
    requires b != 0
  {
    if a < 0 then -(Magnitude(a) % Magnitude(b)) else Magnitude(a) % Magnitude(b)
  }

  /** What that section asks for: the division law, and a remainder that is smaller than `b` and signed like `a`. */
  ghost predicate Truncates(a: int, b: int, q: int, r: int) {
    && a == q * b + r
    && Magnitude(r) < Magnitude(b)
    && (r == 0 || (r < 0 <==> a < 0))
  }

  lemma TruncatesExactly(a: int, b: int, q: int, r: int)
    requires b != 0
    ensures Truncates(a, b, q, r) <==> q == Quotient(a, b) && r == Remainder(a, b)
  {
    var m, n := Magnitude(a), Magnitude(b);
    DivMod(m, n);
    SignedProducts(m / n, n);
    if Truncates(a, b, q, r) {
      SignedProducts(q, n);
      var k := if (a < 0) == (b < 0) then q else -q;
      assert m == k * n + Magnitude(r);
      DivModUnique(m, n, k, Magnitude(r));
    }
  }

  lemma SignedProducts(k: int, n: int)
    ensures k * -n == -(k * n) == -k * n && -k * -n == k * n
  {
  }

  /** `(x ^ s) - s`: negation when `s` is all ones. */
  function Negated(x: DWord, s: DWord): DWord {
    Mod64(BitOp64(Xor, x, s) - s)
  }

  lemma NegatedOk(x: DWord, s: DWord)
    requires s == 0 || s == 0xFFFF_FFFF_FFFF_FFFF
    ensures Negated(x, s) == if s == 0 || x == 0 then x else WW - x
  {
    hide BitOp64;
    XorMask(x);
  }

  lemma XorMask(x: DWord)
    ensures BitOp64(Xor, x, 0) == x && BitOp64(Xor, x, 0xFFFF_FFFF_FFFF_FFFF) == WW - 1 - x
  {
    WordPowers();
    BitwiseOnes(64, x);
    BitwiseZeroRight(Xor, 64, x);
  }

  lemma XorMasks()
    ensures forall s: DWord, t: DWord :: s in {0, 0xFFFF_FFFF_FFFF_FFFF} && t in {0, 0xFFFF_FFFF_FFFF_FFFF} ==>
      BitOp64(Xor, s, t) == if s == t then 0 else 0xFFFF_FFFF_FFFF_FFFF
  {
    WordPowers();
    BitwiseOnes(64, 0);
    BitwiseOnes(64, 0xFFFF_FFFF_FFFF_FFFF);
    BitwiseZeroRight(Xor, 64, 0);
  }

  /** The only quotient that is not a `di_int` is that of the least value by -1. */
  ghost predicate Overflows(a: int, b: int) {
    a == MIN && b == -1
  }

  method DivDi3(a0: DWord, b0: DWord) returns (q: DWord)
    requires b0 != 0
    ensures !Overflows(Value(a0), Value(b0)) ==> Value(q) == Quotient(Value(a0), Value(b0))
    ensures Overflows(Value(a0), Value(b0)) ==> q == a0
  {
    hide BitOp64, Quotient, Negated;
    var sa, sb := SignMask(a0), SignMask(b0);
    NegatedOk(a0, sa);
    NegatedOk(b0, sb);
    var a, b := Negated(a0, sa), Negated(b0, sb);
    XorMasks();
    sa := BitOp64(Xor, sa, sb);
    var u := UDivDi3(a, b);
    QuotientOf(a0, b0, a, b, u);
    NegatedOk(u, sa);
    q := Negated(u, sa);
  }

  lemma QuotientOf(a0: DWord, b0: DWord, a: DWord, b: DWord, u: DWord)
    requires b0 != 0 && a == Magnitude(Value(a0)) && b == Magnitude(Value(b0)) && b > 0 && u == a / b
    ensures Quotient(Value(a0), Value(b0)) == if SignMask(a0) == SignMask(b0) then u as int else -(u as int)
    ensures u <= 0x8000_0000_0000_0000
    ensures u == 0x8000_0000_0000_0000 ==> a0 == u && (b == 1)
  {
    DivMod(a, b);
    DivRange(a, b);
    if b > 1 && u == 0x8000_0000_0000_0000 {
      MulMono(2, b, u);
    }
  }

  method ModDi3(a0: DWord, b0: DWord) returns (r: DWord)
    requires b0 != 0
    ensures Value(r) == Remainder(Value(a0), Value(b0))
  {
    hide BitOp64, Negated;
    var s := SignMask(b0);
    NegatedOk(b0, s);
    var b := Negated(b0, s);
    s := SignMask(a0);
    NegatedOk(a0, s);
    var a := Negated(a0, s);
    r := UModDi3(a, b);
    NegatedOk(r, s);
    r := Negated(r, s);
  }

  method DivModDi4(a: DWord, b: DWord) returns (d: DWord, rem: DWord)
    requires b != 0
    ensures !Overflows(Value(a), Value(b)) ==> Value(d) == Quotient(Value(a), Value(b))
    ensures Overflows(Value(a), Value(b)) ==> d == a
    ensures Value(rem) == Remainder(Value(a), Value(b))
  {
    hide Quotient, Remainder;
    d := DivDi3(a, b);
    rem := Mod64(a - Mod64(d * b));
    BackMultiply(a, b, d);
  }

  lemma BackMultiply(a: DWord, b: DWord, d: DWord)
    requires b != 0
    requires !Overflows(Value(a), Value(b)) ==> Value(d) == Quotient(Value(a), Value(b))
    requires Overflows(Value(a), Value(b)) ==> d == a
    ensures Value(Mod64(a - Mod64(d * b))) == Remainder(Value(a), Value(b))
  {
    if Overflows(Value(a), Value(b)) {
      BackOverflow();
    } else {
      TruncatesExactly(Value(a), Value(b), Quotient(Value(a), Value(b)), Remainder(Value(a), Value(b)));
      BackProduct(a, b, d, Remainder(Value(a), Value(b)));
    }
  }

  lemma BackOverflow()
    ensures Mod64(0x8000_0000_0000_0000 * 0xFFFF_FFFF_FFFF_FFFF) == 0x8000_0000_0000_0000
    ensures Remainder(MIN, -1) == 0
  {
  }

  lemma BackProduct(a: DWord, b: DWord, d: DWord, r: int)
    requires Value(a) == Value(d) * Value(b) + r && MIN <= r < -MIN
    ensures Value(Mod64(a - Mod64(d * b))) == r
  {
    var i := if d >= 0x8000_0000_0000_0000 then 1 else 0;
    var j := if b >= 0x8000_0000_0000_0000 then 1 else 0;
    var k := if a >= 0x8000_0000_0000_0000 then 1 else 0;
    ExpandProduct(Value(d), i, Value(b), j);
    BackDifference(a, d * b, Value(d) * Value(b), k, i * Value(b) + j * Value(d) + i * j * WW, r);
  }

  lemma BackDifference(a: DWord, u: nat, p: int, k: int, c: int, r: int)
    requires u == p + c * WW && a - k * WW == p + r && MIN <= r < -MIN
    ensures Value(Mod64(a - Mod64(u))) == r
  {
    var t := if r < 0 then r + WW else r;
    DivModUnique(a - Mod64(u), WW, k - c + u / WW - (if r < 0 then 1 else 0), t);
  }

  lemma ExpandProduct(x: int, i: int, y: int, j: int)
    ensures (x + i * WW) * (y + j * WW) == x * y + (i * y + j * x + i * j * WW) * WW
  {
  }
}
