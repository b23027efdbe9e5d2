/** Multiplication and left shift of 32- and 64-bit integers by shifts and additions. */
module Multiplication {
  import opened Bits
  import opened Words
  import opened WideShifts
  import opened WordTypes

  /** `x` and `y` agree modulo 2^32, with the difference spelled out. */
  lemma SameMod32(x: int, y: int, k: int)
    requires x == y + k * W
    ensures Mod32(x) == Mod32(y)
  {
    DivModUnique(x, W, k + y / W, y % W);
  }

  lemma LowBit(x: Word)
    ensures BitOp32(And, x, 1) == x % 2 && Shr(x, 1) == x / 2
  {
    WordPowers();
    assert Pow2(1) == 2 && Pow2(0) == 1;
    AndMask(0, 1, 31, x, x, x / 2, x % 2, 0, 1);
  }

  lemma ShlOne(x: Word) returns (t: int)
    ensures Shl(x, 1) == 2 * x - t * W && (t == 0 || t == 1)
  {
    assert Pow2(1) == 2;
    t := if x < 0x8000_0000 then 0 else 1;
  }

  /** `__mulsi3`: add and shift until the multiplier is used up. */
  method MulSi3(x: Word, y: Word) returns (a0: Word)
    ensures a0 == Mod32(x * y)
  {
    hide BitOp32, Shl, Shr, Mod32;
    var a2: Word, a1: Word := x, y;
    a0 := 0;
    ghost var k: int := 0;
    while true
      invariant a0 as int + a2 as int * a1 == x as int * y + k * W
      decreases a1
    {
      LowBit(a1);
      ghost var b, s: int := a1 % 2, 0;
      ghost var t := ShlOne(a2);
      ghost var before: int := a0;
      if BitOp32(And, a1, 1) != 0 {
        s := if a0 as int + a2 >= W then 1 else 0;
        a0 := AddWords(a0, a2);
      }
      AddAndShift(before, a2, a1, b, s, t);
      k := k - s - t * (a1 / 2);
      a1 := Shr(a1, 1);
      a2 := Shl(a2, 1);
      if a1 == 0 {
        break;
      }
    }
    SameMod32(a0, x * y, k);
    Small(a0);
  }

  lemma Small(x: Word)
    ensures Mod32(x) == x
  {
  }

  function AddWords(x: Word, y: Word): (s: Word)
    ensures s == if x + y >= W then x + y - W else x + y
  {
    Mod32(x + y)
  }

  /** Moving one bit of the multiplier `c` into the sum. */
  lemma AddAndShift(a: int, m: int, c: nat, b: nat, s: int, t: int)
    requires b == c % 2
    ensures a + b * m - s * W + (2 * m - t * W) * (c / 2) == a + m * c - (s + t * (c / 2)) * W
    ensures b * m == if b == 0 then 0 else m
  {
    var h := c / 2;
    assert c == 2 * h + b;
    calc {
      a + b * m - s * W + (2 * m - t * W) * h;
      { Distribute2(m, t, h); }
      a + b * m - s * W + 2 * (m * h) - t * h * W;
      { Distribute3(m, h, b); }
      a + m * (2 * h + b) - s * W - t * h * W;
    }
  }

  lemma Distribute2(m: int, t: int, h: int)
    ensures (2 * m - t * W) * h == 2 * (m * h) - t * h * W
  {
  }

  lemma Distribute3(m: int, h: int, b: int)
    ensures m * (2 * h + b) == 2 * (m * h) + b * m
  {
  }

  /** The loop of `__multi3`: the exact double-word product of two words. */
  method LowProduct(u: Word, v: Word) returns (w: Halves)
    ensures w.All() == u * v
  {
    hide BitOp32, Shl, Shr, ShiftIn;
    var uLow: Word, vLow: Word, wLow: Word, wHigh: Word, wHighTmp: Word := u, v, 0, 0, 0;
    ProductBound(u, v);
    while true
      invariant wHigh * W + wLow + (wHighTmp * W + uLow) * vLow == u * v
      decreases vLow
    {
      LowBit(vLow);
      ghost var w0, m: int := wHigh * W + wLow, wHighTmp * W + uLow;
      ghost var top := DoubleWord(wHighTmp, uLow);
      AddAndShift(w0, m, vLow, vLow % 2, 0, 0);
      ProductFits(w0, m, vLow / 2, vLow % 2, u * v);
      var newWLow := AddWords(wLow, uLow);
      var wHighTmp2x := Shl(wHighTmp, 1);
      wHighTmp := AddWords(wHighTmp, wHigh);
      if BitOp32(And, vLow, 1) != 0 {
        var carry: Word := if newWLow < wLow then 1 else 0;
        wLow := newWLow;
        wHigh := AddWords(carry, wHighTmp);
      }
      assert wHigh * W + wLow == w0 + (vLow % 2) * m;
      var uLowMsb := Shr(uLow, 31);
      vLow := Shr(vLow, 1);
      uLow := Shl(uLow, 1);
      wHighTmp := BitOp32(Or, uLowMsb, wHighTmp2x);
      if vLow == 0 {
        break;
      }
    }
    w := Halves(wHigh, wLow);
  }

  lemma ProductBound(u: Word, v: Word)
    ensures 0 <= u * v <= (W - 1) * (W - 1)
  {
    MulMono(u, W - 1, v);
    MulMono(v, W - 1, W - 1);
    MulMono(0, u, v);
  }

  /** `(high:low) << 1`, by the word operations of the loop. */
  lemma DoubleWord(high: Word, low: Word) returns (top: int)
    ensures BitOp32(Or, Shr(low, 31), Shl(high, 1)) * W + Shl(low, 1) == 2 * (high * W + low) - top * WW
    ensures 0 <= top < 2 && (high * W + low < WW / 2 ==> top == 0)
  {
    hide BitOp32, Pow2, Shl, Shr;
    TopBit(low);
    OrIn(high, Shr(low, 31));
    top := ShlOne(high);
  }

  lemma TopBit(x: Word)
    ensures Shr(x, 31) < 2 && Shl(x, 1) == 2 * x - Shr(x, 31) * W
  {
    WordPowers();
    assert Pow2(1) == 2;
  }

  lemma OrIn(x: Word, b: Word)
    requires b < 2
    ensures BitOp32(Or, b, Shl(x, 1)) == Shl(x, 1) + b
  {
    WordPowers();
    assert Pow2(1) == 2;
    var h := if x >= 0x8000_0000 then x - 0x8000_0000 else x;
    var t := ShlOne(x);
    hide Pow2, Shl;
    OrDisjoint(1, 31, Shl(x, 1), h, b);
  }

  lemma ProductFits(w: nat, m: nat, h: nat, b: nat, p: int)
    requires w + b * m + (2 * m) * h == p && p < WW && b < 2
    ensures w + b * m < WW
    ensures h > 0 ==> 2 * m < WW
    ensures b * m == if b == 0 then 0 else m
  {
    if h > 0 {
      MulMono(1, h, 2 * m);
    }
  }

  /** `__multi3`, which is `__muldi3` on RV32: the product modulo 2^64. */
  method Multi3(u: DWord, v: DWord) returns (r: DWord)
    ensures r == Mod64(u * v)
  {
    hide Mod32, AddWords;
    var uu, vv := Split(u), Split(v);
    var w := LowProduct(uu.low, vv.low);
    ghost var low := w;
    NoCross(w.high, vv.low, uu.high);
    if uu.high != 0 {
      var p := MulSi3(vv.low, uu.high);
      AddCross(low.high, w.high, vv.low * uu.high, p);
      w := w.(high := AddWords(w.high, p));
    }
    NoCross(low.high + vv.low * uu.high, uu.low, vv.high);
    if vv.high != 0 {
      var p := MulSi3(uu.low, vv.high);
      AddCross(low.high + vv.low * uu.high, w.high, uu.low * vv.high, p);
      w := w.(high := AddWords(w.high, p));
    }
    r := w.All();
    CrossProducts(uu, vv, low, w);
  }

  /** A cross product with a zero factor adds nothing. */
  lemma NoCross(x: int, y: Word, z: Word)
    ensures z == 0 ==> Mod32(x + y * z) == Mod32(x)
    ensures 0 <= x < W ==> Mod32(x) == x
  {
  }

  lemma AddCross(x: int, s: Word, y: int, p: Word)
    requires s == Mod32(x) && p == Mod32(y)
    ensures AddWords(s, p) == Mod32(x + y)
  {
    SameMod32(Mod32(x) + Mod32(y), x + y, -(x / W) - y / W);
  }

  lemma CrossProducts(u: Halves, v: Halves, low: Halves, w: Halves)
    requires low.All() == u.low * v.low && w.low == low.low
    requires w.high == Mod32(low.high + v.low * u.high + u.low * v.high)
    ensures w.All() == Mod64(u.All() * v.All())
  {
    ghost var p, q, x, y := u.low * v.low, u.high * v.high, v.low * u.high, u.low * v.high;
    FourProducts(u.high, u.low, v.high, v.low);
    DoubleMod(u.All() * v.All(), q, x + y, low, w);
  }

  lemma FourProducts(a: int, b: int, c: int, d: int)
    ensures (a * W + b) * (c * W + d) == a * c * WW + (d * a + b * c) * W + b * d
  {
  }

  lemma DoubleMod(x: int, q: int, c: int, low: Halves, w: Halves)
    requires x == q * WW + c * W + low.All() && w.low == low.low && w.high == Mod32(low.high + c)
    ensures w.All() == Mod64(x)
  {
    DivModUnique(x, WW, q + (low.high + c) / W, w.All());
  }

  /** `__ashldi3`, for every shift count of a 64-bit integer. */
  function Ashldi3(u: DWord, b: nat): DWord
    requires b < 64
  {
    if b == 0 then u
    else
      var uu := Split(u);
      if 32 - b <= 0 then
        Halves(Shl(uu.low, b - 32), 0).All()
      else
        var carries := Shr(uu.low, 32 - b);
        Halves(BitOp32(Or, Shl(uu.high, b), carries), Shl(uu.low, b)).All()
  }

  /** Shifting left by `b` multiplies by `2^b`, as `__multi3(u, 2^b)` does. */
  lemma ShiftMultiplies(u: DWord, b: nat)
    requires b < 64
    ensures Ashldi3(u, b) == Mod64(u * Pow2(b))
  {
    var h, l := u / W, u % W;
    hide BitOp32, Shl, Shr;
    if b == 0 {
      assert Pow2(0) == 1;
      DivModUnique(u, WW, 0, u);
    } else if 32 - b <= 0 {
      Pow2Add(b - 32, 32);
      WordPowers();
      ShlMod(l, b - 32);
      hide Pow2;
      HighProduct(u, h, l, Pow2(b - 32), Pow2(b));
    } else {
      Funnel(h, l, 32 - b);
      hide Pow2;
      DivMod(h, Pow2(32 - b));
      DivMod(l, Pow2(32 - b));
      WideProduct(u, h, l, Pow2(b), Pow2(32 - b), h / Pow2(32 - b), h % Pow2(32 - b), l / Pow2(32 - b),
        l % Pow2(32 - b));
    }
  }

  lemma ShlMod(x: Word, s: nat)
    requires s < 32
    ensures Shl(x, s) == Mod32(x * Pow2(s))
  {
  }

  lemma HighProduct(u: DWord, h: Word, l: Word, p: nat, g: nat)
    requires u == h * W + l && g == p * W
    ensures Mod32(l * p) * W == Mod64(u * g)
  {
    var k := l * p / W;
    calc {
      u * g;
      { ExpandHigh(h, l, p); }
      h * p * WW + l * p * W;
      (h * p + k) * WW + Mod32(l * p) * W;
    }
    DivModUnique(u * g, WW, h * p + k, Mod32(l * p) * W);
  }

  lemma ExpandHigh(h: int, l: int, p: int)
    ensures (h * W + l) * (p * W) == h * p * WW + l * p * W
  {
  }

  lemma WideProduct(u: DWord, h: Word, l: Word, p: nat, c: nat, hq: nat, hr: nat, lq: nat, lr: nat)
    requires u == h * W + l && c * p == W && h == hq * c + hr && l == lq * c + lr
    requires hr * p + lq < W && lr * p < W
    ensures (hr * p + lq) * W + lr * p == Mod64(u * p)
  {
    calc {
      u * p;
      { ExpandWide(h, l, p); }
      h * p * W + l * p;
      { ExpandPart(hq, c, hr, p); ExpandPart(lq, c, lr, p); }
      (hq * W + hr * p) * W + (lq * W + lr * p);
      hq * WW + ((hr * p + lq) * W + lr * p);
    }
    DivModUnique(u * p, WW, hq, (hr * p + lq) * W + lr * p);
  }

  lemma ExpandWide(h: int, l: int, p: int)
    ensures (h * W + l) * p == h * p * W + l * p
  {
  }

  lemma ExpandPart(q: int, c: int, r: int, p: int)
    ensures (q * c + r) * p == q * (c * p) + r * p
  {
  }
}
