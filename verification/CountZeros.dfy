/** The bit-counting helpers: branch-free binary searches for the highest and lowest set bit. */
module CountZeros {
  import opened Bits
  import opened Words
  import opened WordTypes

  /** `r` is the number of zero bits above the highest set bit of a non-zero `a`. */
  ghost predicate LeadingZeros(a: Word, r: nat) {
    r < 32 && Pow2(31 - r) <= a < Pow2(32 - r)
  }

  /** `r` is the number of zero bits below the lowest set bit of a non-zero `a`. */
  ghost predicate TrailingZeros(a: Word, r: nat) {
    r < 32 && a % Pow2(r) == 0 && a / Pow2(r) % 2 == 1
  }

  /** The masks of `__clzsi2`: the upper half of the bits that are left. */
  function HighMask(k: nat): Word {
    if k == 4 then 0xFFFF_0000 else if k == 3 then 0xFF00 else if k == 2 then 0xF0 else if k == 1 then 0xC else 2
  }

  lemma HighMaskOk(k: nat, x: Word)
    requires k < 5 && x < Pow2(2 * Pow2(k))
    ensures BitOp32(And, x, HighMask(k)) == 0 <==> x < Pow2(Pow2(k))
  {
    WordPowers();
    SmallPowers();
    if k == 4 {
      UpperHalf(16, 0, 65536, x, 0xFFFF_0000);
    } else if k == 3 {
      UpperHalf(8, 16, 256, x, 0xFF00);
    } else if k == 2 {
      UpperHalf(4, 24, 16, x, 0xF0);
    } else if k == 1 {
      UpperHalf(2, 28, 4, x, 0xC);
    } else {
      UpperHalf(1, 30, 2, x, 2);
    }
  }

  lemma UpperHalf(m: nat, n: nat, p: nat, x: Word, mask: Word)
    requires p == Pow2(m) && m + (m + n) == 32 && x < p * p && mask == (p - 1) * p
    ensures BitOp32(And, x, mask) == 0 <==> x < p
  {
    if x < p {
      assert 0 == 0 * p;
      AndMask(m, m, n, x, 0, 0, 0, x, mask);
    } else {
      QuotientPositive(x, p);
      AndMask(m, m, n, x, x / p, 0, x / p, x % p, mask);
      MulMono(1, x / p, p);
    }
  }

  /** The masks of `__ctzsi2`: the low half of the bits that are left. */
  function LowMask(k: nat): Word {
    if k == 4 then 0xFFFF else if k == 3 then 0xFF else if k == 2 then 0xF else if k == 1 then 3 else 1
  }

  lemma LowMaskOk(k: nat, x: Word)
    requires k < 5
    ensures BitOp32(And, x, LowMask(k)) == x % Pow2(Pow2(k))
  {
    hide BitOp32;
    WordPowers();
    SmallPowers();
    match k
    case 4 => LowerPart(16, 16, 65536, x);
    case 3 => LowerPart(8, 24, 256, x);
    case 2 => LowerPart(4, 28, 16, x);
    case 1 => LowerPart(2, 30, 4, x);
    case _ => LowerPart(1, 31, 2, x);
  }

  lemma LowerPart(m: nat, n: nat, p: nat, x: Word)
    requires p == Pow2(m) && m + n == 32 && p <= W
    ensures BitOp32(And, x, p - 1) == x % p
  {
    var c := Pow2(n);
    assert p > 0 && p * c == W by {
      WordPowers();
      Pow2Add(m, n);
    }
    hide Pow2, BitOp32;
    QuotientBelow(x, p, c);
    DivMod(x, p);
    LowField(m, n, p, x, x / p, x % p);
  }

  lemma LowField(m: nat, n: nat, p: nat, x: Word, q: nat, r: nat)
    requires p == Pow2(m) && m + n == 32 && x == q * p + r && r < p && q < Pow2(n)
    requires p <= W
    ensures BitOp32(And, x, p - 1) == r
  {
    assert Pow2(0) == 1;
    hide Pow2, Bitwise;
    AndMask(0, m, n, x, x, q, r, 0, p - 1);
  }

  lemma SmallPowers()
    ensures Pow2(0) == 1 && Pow2(1) == 2 && Pow2(2) == 4 && Pow2(3) == 8 && Pow2(4) == 16 && Pow2(8) == 256
    ensures Pow2(24) == 0x100_0000 && Pow2(28) == 0x1000_0000 && Pow2(30) == 0x4000_0000 && Pow2(31) == 0x8000_0000
  {
    WordPowers();
    Pow2Add(16, 8);
    Pow2Add(24, 4);
    Pow2Add(28, 2);
  }

  /** `x & -(c)`: all of `x` or nothing. */
  lemma Select(x: Word)
    ensures BitOp32(And, x, 0xFFFF_FFFF) == x && BitOp32(And, x, 0) == 0
    ensures BitOp32(Or, x, 0) == x && BitOp32(Or, 0, x) == x
  {
    WordPowers();
    BitwiseOnes(32, x);
    BitwiseZeroRight(And, 32, x);
    BitwiseZeroRight(Or, 32, x);
  }

  /** Unsigned negation. */
  function Neg(x: Word): Word {
    Mod32(0 - x as int)
  }

  /** The highest set bit of `a` is among the low `w` bits of `x`, which is `a` shifted right by `32 - w - r`. */
  ghost predicate ClzSearch(a: Word, x: Word, w: nat, r: nat) {
    && w + r <= 32 && x < Pow2(w)
    && x * Pow2(32 - w - r) <= a < (x + 1) * Pow2(32 - w - r)
    && (a != 0 ==> x > 0)
    && (a == 0 ==> r == 32 - w)
  }

  /** One halving step. */
  lemma ClzHalve(a: Word, x: Word, h: nat, r: nat, x': Word, r': nat)
    requires h > 0 && ClzSearch(a, x, 2 * h, r)
    requires x < Pow2(h) ==> x' == x && r' == r + h
    requires x >= Pow2(h) ==> x' == x / Pow2(h) && r' == r
    ensures ClzSearch(a, x', h, r')
  {
    hide Pow2;
    if x >= Pow2(h) {
      var p, q := Pow2(h), Pow2(32 - 2 * h - r);
      Pow2Add(h, 32 - 2 * h - r);
      Pow2Add(h, h);
      assert h + h == 2 * h && h + (32 - 2 * h - r) == 32 - h - r;
      QuotientPositive(x, p);
      Narrow(a, x, p, q, x', x % p);
    }
  }

  lemma QuotientPositive(x: nat, p: nat)
    requires x >= p > 0
    ensures x / p > 0 && x == x / p * p + x % p
    ensures x < p * p ==> x / p < p
  {
    var k, m := x / p, x % p;
    assert x == k * p + m;
    if k <= 0 {
      MulMono(k, 0, p);
    }
    if k >= p {
      MulMono(p, k, p);
    }
  }

  lemma Narrow(a: nat, x: nat, p: nat, q: nat, k: nat, m: nat)
    requires x == k * p + m && m < p && x * q <= a < (x + 1) * q
    ensures k * (p * q) <= a < (k + 1) * (p * q)
  {
    MulMono(k * p, x, q);
    MulMono(x + 1, (k + 1) * p, q);
    assert k * p * q == k * (p * q);
    assert (k + 1) * p * q == (k + 1) * (p * q);
  }

  /** The last two bits decide. */
  lemma ClzFinish(a: Word, x: Word, r: nat, res: nat)
    requires ClzSearch(a, x, 2, r)
    requires res == if x >= 2 then r else r + 2 - x
    ensures a != 0 ==> LeadingZeros(a, res)
    ensures a == 0 ==> res == 32
  {
    SmallPowers();
    if a != 0 {
      var q := Pow2(30 - r);
      assert Pow2(31 - r) == 2 * q && Pow2(32 - r) == 4 * q;
      MulMono(if x >= 2 then 2 else 1, x, q);
      MulMono(x + 1, if x >= 2 then 4 else 2, q);
    }
  }

  /** `t = (c << k)` and `x >>= h - t` for a half width `h = 2^k`. */
  lemma HalfStep(c: bool, k: nat, h: nat, x: Word)
    requires k < 5 && h == Pow2(k)
    ensures Shl(Flag(c), k) == if c then h else 0
    ensures 0 <= h - Shl(Flag(c), k) < 32
    ensures Shr(x, h - Shl(Flag(c), k)) == if c then x else x / Pow2(h)
  {
    assert h <= 16 by {
      Pow2Mono(k, 4);
      SmallPowers();
    }
    hide Pow2;
    assert Pow2(0) == 1 by {
      SmallPowers();
    }
    assert x / 1 == x;
  }

  lemma ClzBelow(a: Word, x: Word, w: nat, r: nat)
    requires ClzSearch(a, x, w, r)
    ensures x < Pow2(w) && r <= 32
  {
  }

  lemma ClzInit(a: Word)
    ensures ClzSearch(a, a, 32, 0)
  {
    WordPowers();
  }

  /** One group of three lines of `__clzsi2`: test the upper half, drop one half, count. */
  method ClzStep(ghost a: Word, x: Word, r: Word, k: nat) returns (x': Word, r': Word)
    requires k < 5 && ClzSearch(a, x, 2 * Pow2(k), r)
    ensures ClzSearch(a, x', Pow2(k), r')
  {
    hide ClzSearch, BitOp32, Shl, Shr;
    ClzBelow(a, x, 2 * Pow2(k), r);
    SmallPowers();
    HighMaskOk(k, x);
    HalfStep(BitOp32(And, x, HighMask(k)) == 0, k, Pow2(k), x);
    var t := Shl(Flag(BitOp32(And, x, HighMask(k)) == 0), k);
    x' := Shr(x, (match k case 4 => 16 case 3 => 8 case 2 => 4 case 1 => 2 case _ => 1) - t);
    r' := r + t;
    ClzHalve(a, x, Pow2(k), r, x', r');
  }

  method ClzSi2(a: Word) returns (res: Word)
    ensures a != 0 ==> LeadingZeros(a, res)
    ensures a == 0 ==> res == 32
  {
    hide ClzSearch, LeadingZeros, BitOp32;
    ClzInit(a);
    SmallPowers();
    var x, r := ClzStep(a, a, 0, 4);
    x, r := ClzStep(a, x, r, 3);
    x, r := ClzStep(a, x, r, 2);
    x, r := ClzStep(a, x, r, 1);
    ClzBelow(a, x, 2, r);
    HighMaskOk(0, x);
    Select(Mod32(2 - x as int));
    res := r + BitOp32(And, Mod32(2 - x as int), Neg(Flag(BitOp32(And, x, 2) == 0)));
    ClzFinish(a, x, r, res);
  }

  /** The lowest set bit of `a` is among the low `w` bits of `x`, and `a` is `x` shifted left by `r`. */
  ghost predicate CtzSearch(a: Word, x: Word, w: nat, r: nat) {
    && w + r <= 32 && a == x * Pow2(r)
    && (a != 0 ==> x % Pow2(w) != 0)
    && (a == 0 ==> x == 0 && r == 32 - w)
  }

  lemma CtzInit(a: Word)
    ensures CtzSearch(a, a, 32, 0)
  {
    WordPowers();
  }

  lemma CtzHalve(a: Word, x: Word, h: nat, r: nat, x': Word, r': nat)
    requires h > 0 && CtzSearch(a, x, 2 * h, r)
    requires x % Pow2(h) == 0 ==> x' == x / Pow2(h) && r' == r + h
    requires x % Pow2(h) != 0 ==> x' == x && r' == r
    ensures CtzSearch(a, x', h, r')
  {
    hide Pow2;
    if x % Pow2(h) == 0 {
      Pow2Add(h, h);
      Pow2Add(r, h);
      DropFactor(a, x, Pow2(h), Pow2(r));
    }
  }

  lemma DropFactor(a: nat, x: nat, p: nat, q: nat)
    requires p > 0 && a == x * q && x % p == 0
    ensures a == x / p * (q * p)
    ensures p * p > 0 && (x % (p * p) != 0 ==> x / p % p != 0)
    ensures x / p == 0 ==> x == 0
  {
    var y := x / p;
    DivMod(x, p);
    MulAssoc(y, p, q);
    MulMono(1, p, p);
    if y % p == 0 {
      MultipleOfMultiple(x, y, p);
    }
  }

  lemma MultipleOfMultiple(x: nat, y: nat, p: nat)
    requires p > 0 && x == y * p && y % p == 0
    ensures p * p > 0 && x % (p * p) == 0
  {
    var k := y / p;
    MulAssoc(k, p, p);
    MulMono(1, p, p);
    DivModUnique(x, p * p, k, 0);
  }

  lemma OddMultiple(a: nat, p: nat, k: nat)
    requires p > 0 && a == k * p && k % 2 == 1
    ensures a % p == 0 && a / p % 2 == 1
  {
    DivModUnique(a, p, k, 0);
  }

  lemma EvenMultiple(a: nat, p: nat, x: nat)
    requires a == x * p && x % 2 == 0
    ensures a == x / 2 * (2 * p)
  {
    assert x == x / 2 * 2;
    MulAssoc(x / 2, 2, p);
  }

  lemma CtzFinish(a: Word, x: Word, r: nat, res: nat)
    requires CtzSearch(a, x, 2, r)
    requires res == if x % 2 == 1 then r else r + 2 - x % 4 / 2
    ensures a != 0 ==> TrailingZeros(a, res)
    ensures a == 0 ==> res == 32
  {
    assert Pow2(2) == 4 && Pow2(r + 1) == 2 * Pow2(r);
    assert a != 0 ==> x % 4 != 0;
    hide Pow2;
    if a != 0 {
      if x % 2 == 1 {
        OddMultiple(a, Pow2(r), x);
      } else {
        EvenMultiple(a, Pow2(r), x);
        OddMultiple(a, Pow2(r + 1), x / 2);
      }
    }
  }

  lemma CtzBounds(a: Word, x: Word, w: nat, r: nat)
    requires CtzSearch(a, x, w, r)
    ensures r <= 32
  {
  }

  lemma HalfStepDown(c: bool, k: nat, h: nat, x: Word)
    requires k < 5 && h == Pow2(k)
    ensures Shl(Flag(c), k) == if c then h else 0
    ensures Shl(Flag(c), k) < 32 && Shr(x, Shl(Flag(c), k)) == if c then x / Pow2(h) else x
  {
    assert h <= 16 by {
      Pow2Mono(k, 4);
      SmallPowers();
    }
    hide Pow2;
    assert Pow2(0) == 1 by {
      SmallPowers();
    }
    assert x / 1 == x;
  }

  method CtzStep(ghost a: Word, x: Word, r: Word, k: nat) returns (x': Word, r': Word)
    requires k < 5 && CtzSearch(a, x, 2 * Pow2(k), r)
    ensures CtzSearch(a, x', Pow2(k), r')
  {
    hide CtzSearch, BitOp32, Shl, Shr;
    CtzBounds(a, x, 2 * Pow2(k), r);
    SmallPowers();
    LowMaskOk(k, x);
    HalfStepDown(BitOp32(And, x, LowMask(k)) == 0, k, Pow2(k), x);
    var t := Shl(Flag(BitOp32(And, x, LowMask(k)) == 0), k);
    x' := Shr(x, t);
    r' := r + t;
    CtzHalve(a, x, Pow2(k), r, x', r');
  }

  lemma HalfWidths()
    ensures 2 * Pow2(4) == 32 && 2 * Pow2(3) == Pow2(4) && 2 * Pow2(2) == Pow2(3) && 2 * Pow2(1) == Pow2(2)
      && 2 == Pow2(1)
  {
    SmallPowers();
  }

  method CtzSi2(a: Word) returns (res: Word)
    ensures a != 0 ==> TrailingZeros(a, res)
    ensures a == 0 ==> res == 32
  {
    hide *;
    CtzInit(a);
    HalfWidths();
    var x, r := CtzStep(a, a, 0, 4);
    x, r := CtzStep(a, x, r, 3);
    x, r := CtzStep(a, x, r, 2);
    x, r := CtzStep(a, x, r, 1);
    CtzBounds(a, x, 2, r);
    ghost var x0 := x;
    x := BitOp32(And, x, 3);
    CtzTail(x0, x);
    res := r + BitOp32(And, Mod32(2 - Shr(x, 1) as int), Neg(Flag(BitOp32(And, x, 1) == 0)));
    CtzFinish(a, x0, r, res);
  }

  lemma ShrOne(y: Word)
    ensures Shr(y, 1) == y / 2
  {
    assert Pow2(1) == 2;
  }

  lemma CtzTail(x: Word, y: Word)
    requires y == BitOp32(And, x, 3)
    ensures y < 4
    ensures BitOp32(And, Mod32(2 - Shr(y, 1) as int), Neg(Flag(BitOp32(And, y, 1) == 0)))
         == if x % 2 == 1 then 0 else 2 - x % 4 / 2
  {
    hide BitOp32, Shr;
    SmallPowers();
    LowMaskOk(1, x);
    LowMaskOk(0, y);
    assert y == x % 4 && BitOp32(And, y, 1) == y % 2;
    assert Shr(y, 1) == y / 2 by {
      ShrOne(y);
    }
    Select(Mod32(2 - y / 2));
  }

  /** `(p & ~f) | (q & f)` for a mask `f` of all ones or all zeros. */
  lemma Choose(c: bool, p: Word, q: Word)
    ensures Neg(Flag(c)) == if c then 0xFFFF_FFFF else 0
    ensures BitOp32(Or, BitOp32(And, p, 0xFFFF_FFFF - Neg(Flag(c))), BitOp32(And, q, Neg(Flag(c))))
      == if c then q else p
    ensures BitOp32(Or, BitOp32(And, q, Neg(Flag(c))), BitOp32(And, p, 0xFFFF_FFFF - Neg(Flag(c))))
      == if c then q else p
    ensures BitOp32(And, Neg(Flag(c)), 32) == if c then 32 else 0
  {
    hide BitOp32;
    Select(p);
    Select(q);
    AndSymmetric(Neg(Flag(c)));
  }

  lemma AndSymmetric(f: Word)
    requires f == 0 || f == 0xFFFF_FFFF
    ensures BitOp32(And, f, 32) == if f == 0 then 0 else 32
  {
    WordPowers();
    BitwiseOnes(32, 32);
    BitwiseZeroRight(And, 32, 32);
  }

  ghost predicate LeadingZeros64(a: DWord, r: nat) {
    r < 64 && Pow2(63 - r) <= a < Pow2(64 - r)
  }

  ghost predicate TrailingZeros64(a: DWord, r: nat) {
    r < 64 && a % Pow2(r) == 0 && a / Pow2(r) % 2 == 1
  }

  /** The double-word versions pick the half that decides, by masks instead of branches. */
  method ClzDi2(a: DWord) returns (res: Word)
    ensures a != 0 ==> LeadingZeros64(a, res)
    ensures a == 0 ==> res == 64
  {
    hide *;
    var x := Split(a);
    var f := Neg(Flag(x.high == 0));
    Choose(x.high == 0, x.high, x.low);
    var n := ClzSi2(BitOp32(Or, BitOp32(And, x.high, 0xFFFF_FFFF - f), BitOp32(And, x.low, f)));
    SmallCount(x, n);
    res := n + BitOp32(And, f, 32);
  }

  lemma SmallCount(x: Halves, n: nat)
    requires x.high != 0 ==> LeadingZeros(x.high, n)
    requires x.high == 0 && x.low != 0 ==> LeadingZeros(x.low, n)
    requires x.high == 0 && x.low == 0 ==> n == 32
    ensures n <= 32
    ensures var r := if x.high == 0 then n + 32 else n;
      if x.All() == 0 then x.high == 0 && r == 64 else LeadingZeros64(x.All(), r)
  {
    WordPowers();
    hide Pow2;
    if x.high != 0 {
      Pow2Add(31 - n, 32);
      Pow2Add(32 - n, 32);
      MulMono(Pow2(31 - n), x.high, W);
      MulMono(x.high, Pow2(32 - n) - 1, W);
    }
  }

  method CtzDi2(a: DWord) returns (res: Word)
    ensures a != 0 ==> TrailingZeros64(a, res)
    ensures a == 0 ==> res == 64
  {
    hide *;
    var x := Split(a);
    var f := Neg(Flag(x.low == 0));
    Choose(x.low == 0, x.low, x.high);
    var n := CtzSi2(BitOp32(Or, BitOp32(And, x.high, f), BitOp32(And, x.low, 0xFFFF_FFFF - f)));
    CtzOfHalf(x, n);
    res := n + BitOp32(And, f, 32);
  }

  lemma CtzOfHalf(x: Halves, n: nat)
    requires x.low != 0 ==> TrailingZeros(x.low, n)
    requires x.low == 0 && x.high != 0 ==> TrailingZeros(x.high, n)
    requires x.low == 0 && x.high == 0 ==> n == 32
    ensures n <= 32
    ensures var r := if x.low == 0 then n + 32 else n;
      if x.All() == 0 then x.low == 0 && r == 64 else TrailingZeros64(x.All(), r)
  {
    WordPowers();
    if x.low != 0 {
      Pow2Add(31 - n, n + 1);
      AddEvenMultiple(x.high, x.low, Pow2(n), Pow2(31 - n));
    } else if x.high != 0 {
      ShiftedTrailing(x.high, n);
    }
  }

  lemma ShiftedTrailing(h: Word, n: nat)
    requires TrailingZeros(h, n)
    ensures TrailingZeros64(h * W, n + 32)
  {
    WordPowers();
    hide Pow2;
    Pow2Add(n, 32);
    DivMod(h, Pow2(n));
    MulAssoc(h / Pow2(n), Pow2(n), W);
    OddMultiple(h * W, Pow2(n + 32), h / Pow2(n));
  }

  lemma AddEvenMultiple(h: nat, x: nat, p: nat, c: nat)
    requires p > 0 && c * (2 * p) == W && x % p == 0 && x / p % 2 == 1
    ensures (h * W + x) % p == 0 && (h * W + x) / p % 2 == 1
  {
    var k := x / p;
    calc {
      h * W + x;
      h * (c * (2 * p)) + k * p;
      { MulAssoc(h, c, 2 * p); DoubleProduct(h * c, p); }
      2 * (h * c * p) + k * p;
      { Regroup(h * c, k, p); }
      (2 * (h * c) + k) * p;
    }
    OddMultiple(h * W + x, p, 2 * (h * c) + k);
  }

  lemma Regroup(u: int, k: int, p: int)
    ensures 2 * (u * p) + k * p == (2 * u + k) * p
  {
  }

  /** `x & (x - 1) == 0` exactly for powers of two (and zero). */
  lemma {:induction false} PowerOfTwoTest(n: nat, x: nat)
    requires 0 < x < Pow2(n)
    ensures Bitwise(And, n, x, x - 1) == 0 <==> exists k: nat :: IsPower(x, k)
  {
    if x % 2 == 1 {
      AndSelf(n - 1, x / 2);
      assert (x - 1) / 2 == x / 2;
      if x == 1 {
        assert IsPower(1, 0);
      }
      if k: nat :| IsPower(x, k) {
        assert x == Pow2(k);
      }
    } else {
      PowerOfTwoTest(n - 1, x / 2);
      assert (x - 1) / 2 == x / 2 - 1;
      if k: nat :| IsPower(x / 2, k) {
        assert Pow2(k + 1) == 2 * Pow2(k);
        assert IsPower(x, k + 1);
      }
      if k: nat :| IsPower(x, k) {
        assert k > 0;
        assert IsPower(x / 2, k - 1);
      }
    }
  }

  ghost predicate IsPower(x: nat, k: nat) {
    x == Pow2(k)
  }

  lemma {:induction false} AndSelf(n: nat, x: nat)
    requires x < Pow2(n)
    ensures Bitwise(And, n, x, x) == x
  {
    if n > 0 {
      AndSelf(n - 1, x / 2);
    }
  }
}
