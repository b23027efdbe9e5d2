/** Unsigned 64-bit division on 32-bit words: the special cases of `__udivmoddi4` and its loop. */
module UnsignedDivision {
  import opened Bits
  import opened Words
  import opened CountZeros
  import opened WideShifts
  import opened DivisionLoop
  import opened WordTypes

  /** 0 X by 0 X, and anything below the divisor. */
  lemma SmallCases(x: nat, y: nat)
    requires y > 0
    ensures Divides(x, y, x / y, x % y)
    ensures x < y ==> Divides(x, y, 0, x)
    ensures Divides(x, 1, x, 0)
    ensures 0 <= x / y <= x
  {
    DivMod(x, y);
    DivRange(x, y);
  }

  /** K 0 by K 0. */
  lemma AlignedCase(nh: Word, dh: Word)
    requires dh > 0
    ensures Divides(nh * W, dh * W, nh / dh, nh % dh * W)
  {
    DivMod(nh, dh);
    AlignedProduct(nh / dh, dh);
  }

  lemma AlignedProduct(q: int, d: int)
    ensures q * d * W == q * (d * W)
  {
  }

  /** `x & (d - 1)` and `x >> ctz(d)` for a power of two `d`. */
  lemma PowerCase(x: Word, d: Word, t: nat)
    requires d > 0 && BitOp32(And, d, d - 1) == 0 && TrailingZeros(d, t)
    ensures d == Pow2(t) && Shr(x, t) == x / d && BitOp32(And, x, d - 1) == x % d
  {
    WordPowers();
    PowerOfTwoTest(32, d);
    var k: nat :| IsPower(d, k);
    PowerCount(k, t);
    DivMod(x, d);
    Pow2Add(k, 32 - k);
    QuotientBelow(x, d, Pow2(32 - k));
    MaskRest(x, k, x / d, x % d);
  }

  lemma MaskRest(x: Word, k: nat, q: nat, r: nat)
    requires k < 32 && x == q * Pow2(k) + r && r < Pow2(k) && q < Pow2(32 - k) && Pow2(k) <= W
    ensures BitOp32(And, x, Pow2(k) - 1) == r
  {
    assert Pow2(0) == 1;
    AndMask(0, k, 32 - k, x, x, q, r, 0, Pow2(k) - 1);
  }

  lemma PowerCount(k: nat, t: nat)
    requires Pow2(k) < W && TrailingZeros(Pow2(k), t)
    ensures t == k
  {
    if k < t {
      Pow2Mono(k + 1, t);
      DivModUnique(Pow2(k), Pow2(t), 0, Pow2(k));
    } else if t < k {
      Pow2Add(k - t, t);
      DivModUnique(Pow2(k), Pow2(t), Pow2(k - t), 0);
    }
  }

  /** K K by K 0, where the high word of the divisor is a power of two. */
  lemma HighPowerCase(n: Halves, dh: Word, t: nat)
    requires dh > 0 && BitOp32(And, dh, dh - 1) == 0 && TrailingZeros(dh, t)
    ensures t < 32
    ensures Divides(n.All(), dh * W, Shr(n.high, t), Halves(BitOp32(And, n.high, dh - 1), n.low).All())
  {
    PowerCase(n.high, dh, t);
    hide BitOp32, Shr, Pow2;
    DivMod(n.high, dh);
    AlignedProduct(n.high / dh, dh);
    MulMono(n.high % dh, dh - 1, W);
  }

  /** K X by 0 K, where the divisor is a power of two. */
  lemma LowPowerCase(n: Halves, dl: Word, t: nat)
    requires dl > 1 && BitOp32(And, dl, dl - 1) == 0 && TrailingZeros(dl, t)
    ensures 0 < t < 32
    ensures Divides(n.All(), dl, Halves(Shr(n.high, t), BitOp32(Or, Shl(n.high, 32 - t), Shr(n.low, t))).All(),
              BitOp32(And, n.low, dl - 1))
  {
    PowerCase(n.low, dl, t);
    assert t > 0 by {
      assert Pow2(0) == 1;
    }
    hide BitOp32, Shr, Shl, Pow2;
    ShortShift(n, t);
    DivMod(n.All(), dl);
  }

  lemma QuotientBound(n: nat, d: nat, i: nat, s: nat)
    requires n < Pow2(i + s) && Pow2(i) <= d
    ensures n / Pow2(s) < d
  {
    Pow2Add(i, s);
    DivMod(n, Pow2(s));
    QuotientBelow(n, Pow2(s), Pow2(i));
  }

  lemma Bounds(h: Word, l: Word, c: nat)
    requires LeadingZeros(h, c)
    ensures Pow2(63 - c) <= h * W + l < Pow2(64 - c)
  {
    WordPowers();
    Pow2Add(31 - c, 32);
    Pow2Add(32 - c, 32);
    MulMono(Pow2(31 - c), h, W);
    MulMono(h, Pow2(32 - c) - 1, W);
  }

  /** The loop's starting shift when the divisor has a high word. */
  lemma HighStart(n: Halves, d: Halves, cn: nat, cd: nat)
    requires LeadingZeros(n.high, cn) && LeadingZeros(d.high, cd)
    ensures cn < 32 && cd < 32 && Mod32(cd - cn) == if cd < cn then W + cd - cn else cd - cn
    ensures cd < cn ==> Divides(n.All(), d.All(), 0, n.All())
    ensures cd >= cn ==> StartsBelow(n.All(), d.All(), cd - cn + 1)
  {
    Bounds(n.high, n.low, cn);
    Bounds(d.high, d.low, cd);
    assert cn < 32 && cd < 32;
    hide Pow2, LeadingZeros, StartsBelow;
    if cd < cn {
      Pow2Mono(64 - cn, 63 - cd);
    } else {
      LoopStart(n.All(), d.All(), cn, cd);
    }
  }

  lemma LoopStart(n: DWord, d: DWord, cn: nat, cd: nat)
    requires cn <= cd < 32 && Pow2(63 - cn) <= n < Pow2(64 - cn) && Pow2(63 - cd) <= d < Pow2(64 - cd)
    ensures StartsBelow(n, d, cd - cn + 1)
  {
    QuotientBound(n, d, 63 - cd, cd - cn + 1);
    if d >= 0x8000_0000_0000_0000 {
      TopBit(d, cd);
      assert Pow2(63) <= n;
      WordPowers();
    }
  }

  lemma TopBit(x: DWord, c: nat)
    requires c < 32 && 0x8000_0000_0000_0000 <= x < Pow2(64 - c)
    ensures c == 0
  {
    WordPowers();
    if c > 0 {
      Pow2Mono(64 - c, 63);
    }
  }

  /** The loop's starting shift when the divisor has no high word. */
  lemma LowStart(n: Halves, dl: Word, cn: nat, cd: nat)
    requires LeadingZeros(n.high, cn) && LeadingZeros(dl, cd)
    ensures cn < 32 && cd < 32 && Mod32(33 + cd - cn) == 33 + cd - cn
    ensures StartsBelow(n.All(), dl, 33 + cd - cn)
  {
    Bounds(n.high, n.low, cn);
    QuotientBound(n.All(), dl, 31 - cd, 33 + cd - cn);
  }

  /** Only 1 has 31 leading zeros, and 1 is a power of two. */
  lemma NotPower(x: Word, c: nat)
    requires x > 0 && LeadingZeros(x, c) && BitOp32(And, x, x - 1) != 0
    ensures c < 31
  {
    assert Pow2(1) == 2 && Pow2(0) == 1;
    hide BitOp32;
    Select(1);
  }

  /** Every dividend and every non-zero divisor, through every special case and the loop. */
  method UDivModDi4(a: DWord, b: DWord) returns (quotient: DWord, rem: DWord)
    requires b != 0
    ensures Divides(a, b, quotient, rem)
  {
    hide BitOp32, Shl, Shr, Pow2, LeadingZeros, TrailingZeros, Divides, Shifted, StartsBelow, Mod32;
    var n, d := Split(a), Split(b);
    var q, r: Halves;
    var sr: Word;
    if n.high == 0 {
      if d.high == 0 {
        SmallCases(n.low, d.low);
        return n.low / d.low, n.low % d.low;
      }
      SmallCases(a, b);
      return 0, n.low;
    }
    if d.low == 0 {
      if d.high == 0 {
        assert false;
      }
      if n.low == 0 {
        AlignedCase(n.high, d.high);
        r := Halves(n.high % d.high, 0);
        return n.high / d.high, r.All();
      }
      if BitOp32(And, d.high, d.high - 1) == 0 {
        var t := CtzSi2(d.high);
        HighPowerCase(n, d.high, t);
        r := Halves(BitOp32(And, n.high, d.high - 1), n.low);
        return Shr(n.high, t), r.All();
      }
      var cn := ClzSi2(n.high);
      var cd := ClzSi2(d.high);
      NotPower(d.high, cd);
      HighStart(n, d, cn, cd);
      sr := Mod32(cd as int - cn);
      if sr > 30 {
        return 0, n.All();
      }
      sr := sr + 1;
      ShortShift(n, sr);
      q := Halves(Shl(n.low, 32 - sr), 0);
      r := Halves(Shr(n.high, sr), BitOp32(Or, Shl(n.high, 32 - sr), Shr(n.low, sr)));
    } else if d.high == 0 {
      if BitOp32(And, d.low, d.low - 1) == 0 {
        if d.low == 1 {
          SmallCases(a, 1);
          Select(n.low);
          return n.All(), BitOp32(And, n.low, d.low - 1);
        }
        sr := CtzSi2(d.low);
        LowPowerCase(n, d.low, sr);
        q := Halves(Shr(n.high, sr), BitOp32(Or, Shl(n.high, 32 - sr), Shr(n.low, sr)));
        return q.All(), BitOp32(And, n.low, d.low - 1);
      }
      var cn := ClzSi2(n.high);
      var cd := ClzSi2(d.low);
      NotPower(d.low, cd);
      LowStart(n, d.low, cn, cd);
      sr := Mod32(33 + cd as int - cn);
      if sr == 32 {
        WordShift(n);
        q, r := Halves(n.low, 0), Halves(0, n.high);
      } else if sr < 32 {
        ShortShift(n, sr);
        q := Halves(Shl(n.low, 32 - sr), 0);
        r := Halves(Shr(n.high, sr), BitOp32(Or, Shl(n.high, 32 - sr), Shr(n.low, sr)));
      } else {
        LongShift(n, sr);
        q := Halves(BitOp32(Or, Shl(n.high, 64 - sr), Shr(n.low, sr - 32)), Shl(n.low, 64 - sr));
        r := Halves(0, Shr(n.high, sr - 32));
      }
    } else {
      var cn := ClzSi2(n.high);
      var cd := ClzSi2(d.high);
      HighStart(n, d, cn, cd);
      sr := Mod32(cd as int - cn);
      if sr > 31 {
        return 0, n.All();
      }
      sr := sr + 1;
      if sr == 32 {
        WordShift(n);
        q, r := Halves(n.low, 0), Halves(0, n.high);
      } else {
        ShortShift(n, sr);
        q := Halves(Shl(n.low, 32 - sr), 0);
        r := Halves(Shr(n.high, sr), BitOp32(Or, Shl(n.high, 32 - sr), Shr(n.low, sr)));
      }
    }
    assert Shifted(n, sr, q, r) && StartsBelow(n.All(), d.All(), sr);
    quotient, rem := ShiftSubtract(n, d, q, r, sr);
  }

  method UDivDi3(a: DWord, b: DWord) returns (q: DWord)
    requires b != 0
    ensures q == a / b
  {
    ghost var r;
    q, r := UDivModDi4(a, b);
    DividesUnique(a, b, q, r);
  }

  method UModDi3(a: DWord, b: DWord) returns (r: DWord)
    requires b != 0
    ensures r == a % b
  {
    ghost var q;
    q, r := UDivModDi4(a, b);
    DividesUnique(a, b, q, r);
  }
}
