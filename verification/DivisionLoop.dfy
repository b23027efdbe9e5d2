/** The shift-subtract loop of `__udivmoddi4`. */
module DivisionLoop {
  import opened Bits
  import opened Words
  import opened WideShifts
  import opened WordTypes

  /** `q` and `r` are quotient and remainder of `a` by `b`. */
  ghost predicate Divides(a: nat, b: nat, q: nat, r: nat) {
    a == q * b + r && r < b
  }

  lemma DividesUnique(a: nat, b: nat, q: nat, r: nat)
    requires Divides(a, b, q, r)
    ensures q == a / b && r == a % b
  {
    DivModUnique(a, b, q, r);
  }

  /** `(di_int)x >> 63`: all ones when the top bit is set. */
  function SignMask(x: DWord): DWord {
    if x >= 0x8000_0000_0000_0000 then 0xFFFF_FFFF_FFFF_FFFF else 0
  }

  lemma Masked(x: DWord)
    ensures BitOp64(And, x, 0xFFFF_FFFF_FFFF_FFFF) == x && BitOp64(And, x, 0) == 0
    ensures BitOp64(And, 0xFFFF_FFFF_FFFF_FFFF, 1) == 1 && BitOp64(And, 0, 1) == 0
  {
    WordPowers();
    BitwiseOnes(64, x);
    BitwiseOnes(64, 1);
    BitwiseZeroRight(And, 64, x);
    BitwiseZeroRight(And, 64, 1);
  }

  /** What a turn of the loop has done: `head` is the part of the dividend already divided, `tail` the part still to
   *  come, and `quotient` the digits found so far except the one in `carry`. */
  datatype Progress = Progress(head: nat, tail: nat, quotient: nat)

  /** The dividend is `head` followed by the `s` bits of `tail`; `q` holds `tail` at the top and the digits below. */
  ghost predicate Remaining(n: nat, s: nat, q: nat, g: Progress) {
    && s < 64 && g.quotient < Pow2(63 - s) && g.tail < Pow2(s)
    && n == g.head * Pow2(s) + g.tail && q == g.tail * Pow2(64 - s) + g.quotient
  }

  ghost predicate Dividing(n: DWord, d: DWord, s: nat, q: DWord, r: DWord, carry: Word, g: Progress) {
    && Remaining(n, s, q, g) && carry < 2
    && Divides(g.head, d, 2 * g.quotient + carry, r)
    && (d >= 0x8000_0000_0000_0000 && s > 0 ==> s == 1 && 0x4000_0000_0000_0000 <= r < 0x8000_0000_0000_0000)
  }

  /** The first partial remainder is below the divisor, also where the loop could overflow 64 bits. */
  ghost predicate StartsBelow(n: DWord, d: DWord, s: nat) {
    && n / Pow2(s) < d
    && (d >= 0x8000_0000_0000_0000 ==> s == 1 && n >= 0x8000_0000_0000_0000)
  }

  lemma DividingInit(n: Halves, d: DWord, s: nat, q: Halves, r: Halves) returns (g: Progress)
    requires Shifted(n, s, q, r) && StartsBelow(n.All(), d, s)
    ensures 0 < s < 64
    ensures Dividing(n.All(), d, s, q.All(), r.All(), 0, g)
  {
    g := Progress(r.All(), n.All() % Pow2(s), 0);
    assert Pow2(1) == 2;
    hide Pow2;
    DivMod(n.All(), Pow2(s));
  }

  lemma NextBitPowers(s: nat)
    requires 0 < s < 64
    ensures Pow2(s) == 2 * Pow2(s - 1) && Pow2(65 - s) == 2 * Pow2(64 - s) && Pow2(64 - s) == 2 * Pow2(63 - s)
    ensures Pow2(s - 1) * Pow2(65 - s) == WW
  {
    WordPowers();
    Pow2Add(s - 1, 65 - s);
    assert s - 1 + (65 - s) == 64;
  }

  /** The next bit of the dividend is the top bit of `q`. */
  lemma NextBit(n: nat, m: nat, h: nat, c: nat, half: nat, e: nat, q: nat, p: nat) returns (bit: nat, e': nat)
    requires h * c == WW && c == 2 * half && 2 * p < half && e < 2 * h
    requires n == m * (2 * h) + e && q == e * half + p
    ensures bit < 2 && e' < h && n == (2 * m + bit) * h + e'
    ensures 2 * q == bit * WW + e' * c + 2 * p
    ensures 0 <= e' * c + 2 * p < WW - 1
  {
    bit := if e < h then 0 else 1;
    e' := e - bit * h;
    calc {
      m * (2 * h) + e;
      { DoubleProduct(m, h); MulAssoc(2, m, h); }
      2 * m * h + bit * h + e';
      { Distribute(2 * m, bit, h); }
      (2 * m + bit) * h + e';
    }
    NextBitValue(bit, h, c, e', e, half, q, p);
  }

  lemma Distribute(x: int, y: int, z: int)
    ensures (x + y) * z == x * z + y * z
  {
  }

  lemma NextBitValue(bit: nat, h: nat, c: nat, l: nat, e: nat, half: nat, q: nat, p: nat)
    requires h * c == WW && l < h && e == bit * h + l && c == 2 * half && 2 * p < half && q == e * half + p
    ensures 2 * q == bit * WW + l * c + 2 * p
    ensures 0 <= l * c + 2 * p < WW - 1
  {
    DoubleProduct(e, half);
    calc {
      e * c;
      (bit * h + l) * c;
      bit * h * c + l * c;
      { MulAssoc(bit, h, c); }
      bit * WW + l * c;
    }
    MulMono(l, h - 1, c);
    MulSucc(h, c);
  }

  /**
   * The branch-free comparison: after one more bit, the sign of `d - r - 1` modulo 2^64 says whether `r >= d`.
   */
  lemma SignDecides(d: DWord, r: DWord)
    requires d > 0 && r < 2 * d
    requires d >= 0x8000_0000_0000_0000 ==> r >= 0x8000_0000_0000_0000
    ensures SignMask(Mod64(d - r - 1)) == if r >= d then 0xFFFF_FFFF_FFFF_FFFF else 0
  {
    if r >= d {
      DivModUnique(d - r - 1, WW, -1, WW + d - r - 1);
    }
  }

  lemma NextRemaining(n: nat, s: nat, q: nat, g: Progress, top: nat, carry: nat, q': DWord) returns (g': Progress)
    requires Remaining(n, s, q, g) && s > 0
    requires top < 2 && carry < 2 && 2 * q + carry == top * WW + q'
    ensures g'.head == 2 * g.head + top && g'.quotient == 2 * g.quotient + carry
    ensures Remaining(n, s - 1, q', g')
  {
    NextBitPowers(s);
    hide Pow2;
    var bit, tail := NextBit(n, g.head, Pow2(s - 1), Pow2(65 - s), Pow2(64 - s), g.tail, q, g.quotient);
    g' := Progress(2 * g.head + top, tail, 2 * g.quotient + carry);
    assert 64 - (s - 1) == 65 - s && 63 - (s - 1) == 64 - s && bit == top;
  }

  /** One turn of the loop keeps `Dividing`. */
  lemma DividingStep(n: DWord, d: DWord, s: nat, q: DWord, r: DWord, carry: Word, g: Progress, q': DWord, r': DWord,
                     top: nat) returns (g': Progress)
    requires Dividing(n, d, s, q, r, carry, g) && s > 0
    requires top < 2 && 2 * q + carry == top * WW + q'
    requires 2 * r + top == r' || 2 * r + top == r' + WW
    ensures r' < 2 * d && (d >= 0x8000_0000_0000_0000 ==> r' >= 0x8000_0000_0000_0000)
    ensures r' >= d ==> Dividing(n, d, s - 1, q', r' - d, 1, g')
    ensures r' < d ==> Dividing(n, d, s - 1, q', r', 0, g')
  {
    hide Remaining;
    g' := NextRemaining(n, s, q, g, top, carry, q');
    NextRemainder(2 * g.quotient + carry, d, r, top);
  }

  lemma NextRemainder(k: nat, d: nat, r: nat, bit: nat)
    ensures 2 * (k * d + r) + bit == 2 * k * d + (2 * r + bit) == (2 * k + 1) * d + (2 * r + bit - d)
  {
    MulAssoc(2, k, d);
    Distribute(2 * k, 1, d);
  }

  /** The four shift lines of the loop body. */
  lemma ShiftPair(q: Halves, r: Halves, carry: Word) returns (top: nat)
    requires carry < 2
    ensures top < 2 && top == Shr(q.high, 31)
    ensures 2 * q.All() + carry == top * WW + Halves(ShiftIn(q.high, Shr(q.low, 31)), ShiftIn(q.low, carry)).All()
    ensures var r' := Halves(ShiftIn(r.high, Shr(r.low, 31)), ShiftIn(r.low, top)).All();
      2 * r.All() + top == r' || 2 * r.All() + top == r' + WW
  {
    hide ShiftIn, Shr;
    top := Shr(q.high, 31);
    ShiftInOk(q.high, 0);
    ShiftInOk(r.high, 0);
    ShiftInDouble(q, carry);
    ShiftInDouble(r, top);
  }

  lemma DividingEnd(n: DWord, d: DWord, q: DWord, r: DWord, carry: Word, g: Progress)
    requires Dividing(n, d, 0, q, r, carry, g)
    ensures Divides(n, d, BitOp64(Or, Mod64(2 * q), carry), r)
  {
    RemainingEnd(n, q, g);
    assert carry < 2 && Divides(g.head, d, 2 * g.quotient + carry, r);
    hide *;
    OrBit(g.quotient, carry);
  }

  lemma RemainingEnd(n: nat, q: nat, g: Progress)
    requires Remaining(n, 0, q, g)
    ensures n == g.head && q == g.quotient && q < Pow2(63)
  {
    assert Pow2(0) == 1;
    hide Pow2;
    assert g.tail == 0;
    MulZeroOne(g.head, Pow2(64));
  }

  lemma MulZeroOne(x: int, y: int)
    ensures x * 1 == x && 0 * y == 0
  {
  }

  lemma OrBit(p: nat, b: Word)
    requires p < Pow2(63) && b < 2
    ensures BitOp64(Or, Mod64(2 * p), b) == 2 * p + b
  {
    assert p < 0x8000_0000_0000_0000 by {
      WordPowers();
    }
    assert Mod64(2 * p) == 2 * p;
    assert Pow2(1) == 2;
    hide BitOp64, Pow2, Mod64;
    Or64(1, p, 2 * p, b);
  }

  /** The branch-free last lines of the loop body. */
  lemma SubtractStep(n: DWord, d: DWord, s: nat, q: DWord, r: DWord, mask: DWord, g: Progress)
    requires d > 0 && r < 2 * d && mask == SignMask(Mod64(d - r - 1))
    requires d >= 0x8000_0000_0000_0000 ==> r >= 0x8000_0000_0000_0000
    requires r >= d ==> Dividing(n, d, s, q, r - d, 1, g)
    requires r < d ==> Dividing(n, d, s, q, r, 0, g)
    ensures BitOp64(And, d, mask) <= r && Mod64(r - BitOp64(And, d, mask)) == r - BitOp64(And, d, mask)
    ensures BitOp64(And, mask, 1) < 2 && Mod32(BitOp64(And, mask, 1)) == BitOp64(And, mask, 1)
    ensures Dividing(n, d, s, q, r - BitOp64(And, d, mask), BitOp64(And, mask, 1), g)
  {
    hide Dividing, BitOp64, SignMask;
    SignDecides(d, r);
    Masked(d);
  }

  /** The loop: from `n = r:q` with `sr` bits still in `q` to quotient and remainder. */
  method ShiftSubtract(ghost n: Halves, d: Halves, q0: Halves, r0: Halves, sr0: Word) returns (q: DWord, rem: DWord)
    requires Shifted(n, sr0, q0, r0) && StartsBelow(n.All(), d.All(), sr0)
    ensures Divides(n.All(), d.All(), q, rem)
  {
    hide *;
    ghost var g := DividingInit(n, d.All(), sr0, q0, r0);
    var q', r, sr: Word, carry: Word := q0, r0, sr0, 0;
    while sr > 0
      invariant sr < 64 && carry < 2
      invariant Dividing(n.All(), d.All(), sr, q'.All(), r.All(), carry, g)
    {
      ghost var q1, r1, c1 := q', r, carry;
      r := r.(high := ShiftIn(r.high, Shr(r.low, 31)));
      r := r.(low := ShiftIn(r.low, Shr(q'.high, 31)));
      q' := q'.(high := ShiftIn(q'.high, Shr(q'.low, 31)));
      q' := q'.(low := ShiftIn(q'.low, carry));
      var s := SignMask(Mod64(d.All() - r.All() - 1));
      g := LoopTurn(n.All(), d.All(), sr, q1, r1, c1, g, q', r, s);
      carry := Mod32(BitOp64(And, s, 1));
      r := Split(Mod64(r.All() - BitOp64(And, d.All(), s)));
      sr := sr - 1;
    }
    DividingEnd(n.All(), d.All(), q'.All(), r.All(), carry, g);
    q, rem := BitOp64(Or, Mod64(2 * q'.All()), carry), r.All();
  }

  /** A whole turn of the loop. */
  lemma LoopTurn(n: DWord, d: DWord, sr: nat, q: Halves, r: Halves, carry: Word, g: Progress, q': Halves, r': Halves,
    mask: DWord)
    returns (g': Progress)
    requires Dividing(n, d, sr, q.All(), r.All(), carry, g) && sr > 0 && carry < 2
    requires q' == Halves(ShiftIn(q.high, Shr(q.low, 31)), ShiftIn(q.low, carry))
    requires r' == Halves(ShiftIn(r.high, Shr(r.low, 31)), ShiftIn(r.low, Shr(q.high, 31)))
    requires mask == SignMask(Mod64(d - r'.All() - 1))
    ensures Mod32(BitOp64(And, mask, 1)) < 2
    ensures Dividing(n, d, sr - 1, q'.All(), Mod64(r'.All() - BitOp64(And, d, mask)), Mod32(BitOp64(And, mask, 1)), g')
  {
    hide Dividing, BitOp64, SignMask, Pow2, ShiftIn, Shr, Mod64, Mod32, Halves.All;
    var top := ShiftPair(q, r, carry);
    g' := DividingStep(n, d, sr, q.All(), r.All(), carry, g, q'.All(), r'.All(), top);
    SubtractStep(n, d, sr - 1, q'.All(), r'.All(), mask, g');
  }
}
