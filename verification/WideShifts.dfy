/** Shifting a double word, held in two halves, by a distance known only at run time. */
module WideShifts {
  import opened Bits
  import opened Words
  import opened WordTypes

  /** `r` is `x >> s` and `q` is `x << (64 - s)`. */
  ghost predicate Shifted(x: Halves, s: nat, q: Halves, r: Halves) {
    && 0 < s < 64
    && r.All() == x.All() / Pow2(s)
    && q.All() == x.All() % Pow2(s) * Pow2(64 - s)
  }

  /** What two adjacent shifts and an `|` make of the pair `high`, `low` for a distance `0 < s < 32`. */
  lemma Funnel(high: Word, low: Word, s: nat)
    requires 0 < s < 32
    ensures Pow2(s) * Pow2(32 - s) == W
    ensures high % Pow2(s) * Pow2(32 - s) + low / Pow2(s) < W
    ensures BitOp32(Or, Shl(high, 32 - s), Shr(low, s)) == high % Pow2(s) * Pow2(32 - s) + low / Pow2(s)
    ensures Shl(low, 32 - s) == low % Pow2(s) * Pow2(32 - s) < W
  {
    var p, c := Pow2(s), Pow2(32 - s);
    hide BitOp32, Pow2;
    assert p * c == W by {
      Pow2Add(s, 32 - s);
      WordPowers();
    }
    ShlField(high, s);
    ShlField(low, s);
    ShrField(low, p, c);
    MulMono(high % p, p - 1, c);
    MulSucc(p, c);
    Or32(32 - s, high % p, Shl(high, 32 - s), Shr(low, s));
  }

  lemma MulSucc(p: int, c: int)
    ensures (p - 1) * c == p * c - c
  {
  }

  lemma ShlField(x: Word, s: nat)
    requires 0 < s < 32 && Pow2(s) * Pow2(32 - s) == W
    ensures Shl(x, 32 - s) == x % Pow2(s) * Pow2(32 - s) < W
  {
    hide Pow2;
    ShlProduct(x, Pow2(s), Pow2(32 - s), x / Pow2(s), x % Pow2(s));
  }

  lemma ShlProduct(x: nat, p: nat, c: nat, q: nat, r: nat)
    requires p * c == W && x == q * p + r && r < p
    ensures x * c % W == r * c < W
  {
    calc {
      x * c;
      (q * p + r) * c;
      q * p * c + r * c;
      { MulAssoc(q, p, c); }
      q * W + r * c;
    }
    MulMono(r, p - 1, c);
    MulSucc(p, c);
    DivModUnique(x * c, W, q, r * c);
  }

  lemma ShrField(x: Word, p: nat, c: nat)
    requires p * c == W
    ensures p > 0 && x / p < c
  {
    QuotientBelow(x, p, c);
  }

  /** `x >> s` and `x << (64 - s)` for a distance below the word size. */
  lemma ShortShift(x: Halves, s: nat)
    requires 0 < s < 32
    ensures Halves(Shr(x.high, s), BitOp32(Or, Shl(x.high, 32 - s), Shr(x.low, s))).All() == x.All() / Pow2(s)
    ensures x.low % Pow2(s) == x.All() % Pow2(s)
    ensures Shifted(x, s, Halves(Shl(x.low, 32 - s), 0),
              Halves(Shr(x.high, s), BitOp32(Or, Shl(x.high, 32 - s), Shr(x.low, s))))
  {
    hide Pow2, BitOp32, Shl, Shifted;
    WordPowers();
    Pow2Add(32 - s, 32);
    Funnel(x.high, x.low, s);
    ShortResult(x, s, Shr(x.high, s), BitOp32(Or, Shl(x.high, 32 - s), Shr(x.low, s)), Shl(x.low, 32 - s));
  }

  lemma ShortResult(x: Halves, s: nat, high: Word, low: Word, q: Word)
    requires 0 < s < 32 && Pow2(s) * Pow2(32 - s) == W && Pow2(64 - s) == Pow2(32 - s) * W
    requires high == x.high / Pow2(s) && low == x.high % Pow2(s) * Pow2(32 - s) + x.low / Pow2(s)
    requires q == x.low % Pow2(s) * Pow2(32 - s)
    ensures Halves(high, low).All() == x.All() / Pow2(s) && x.low % Pow2(s) == x.All() % Pow2(s)
    ensures Shifted(x, s, Halves(q, 0), Halves(high, low))
  {
    hide Pow2;
    ShortShiftParts(x.high, x.low, Pow2(s), Pow2(32 - s));
  }

  lemma ShortShiftParts(h: Word, l: Word, p: nat, c: nat)
    requires p > 0 && p * c == W
    ensures (h * W + l) / p == h / p * W + (h % p * c + l / p)
    ensures (h * W + l) % p == l % p && l % p * c * W == l % p * (c * W)
  {
    DivMod(h, p);
    DivMod(l, p);
    ShortShiftProduct(h, l, p, c, h / p, h % p, l / p, l % p);
  }

  lemma ShortShiftProduct(h: Word, l: Word, p: nat, c: nat, hq: nat, hr: nat, lq: nat, lr: nat)
    requires p * c == W && h == hq * p + hr && l == lq * p + lr && lr < p
    ensures (h * W + l) / p == hq * W + (hr * c + lq)
    ensures (h * W + l) % p == lr
    ensures lr * c * W == lr * (c * W)
  {
    calc {
      h * W + l;
      (hq * p + hr) * W + (lq * p + lr);
      hq * W * p + hr * W + lq * p + lr;
      { Swap(hr, p, c); }
      hq * W * p + hr * c * p + lq * p + lr;
      { Collect(hq * W, hr * c, lq, p); }
      (hq * W + (hr * c + lq)) * p + lr;
    }
    DivModUnique(h * W + l, p, hq * W + (hr * c + lq), lr);
  }

  lemma Swap(x: int, p: int, c: int)
    ensures x * (p * c) == x * c * p
  {
  }

  lemma Collect(x: int, y: int, z: int, p: int)
    ensures x * p + y * p + z * p == (x + (y + z)) * p
  {
  }

  /** The same for a distance of exactly one word. */
  lemma WordShift(x: Halves)
    ensures Shifted(x, 32, Halves(x.low, 0), Halves(0, x.high))
  {
    WordPowers();
    DivModUnique(x.All(), W, x.high, x.low);
  }

  /** The same for a distance above the word size. */
  lemma LongShift(x: Halves, s: nat)
    requires 32 < s < 64
    ensures Shifted(x, s, Halves(BitOp32(Or, Shl(x.high, 64 - s), Shr(x.low, s - 32)), Shl(x.low, 64 - s)),
              Halves(0, Shr(x.high, s - 32)))
  {
    var k := s - 32;
    var p, c := Pow2(k), Pow2(32 - k);
    WordPowers();
    hide Pow2, BitOp32, Shl;
    Pow2Add(k, 32);
    Funnel(x.high, x.low, k);
    LongShiftParts(x.high, x.low, p, c, Pow2(s));
  }

  lemma LongShiftParts(h: Word, l: Word, p: nat, c: nat, g: nat)
    requires p > 0 && p * c == W && g == p * W
    ensures (h * W + l) / g == h / p && (h * W + l) % g * c == (h % p * c + l / p) * W + l % p * c
  {
    DivMod(h, p);
    DivMod(l, p);
    LongShiftProduct(h, l, p, c, g, h / p, h % p, l / p, l % p);
  }

  lemma LongShiftProduct(h: Word, l: Word, p: nat, c: nat, g: nat, hq: nat, hr: nat, lq: nat, lr: nat)
    requires p > 0 && p * c == W && h == hq * p + hr && hr < p && l == lq * p + lr && g == p * W
    ensures (h * W + l) / g == hq
    ensures (h * W + l) % g * c == (hr * c + lq) * W + lr * c
  {
    MulAssoc(hq, p, W);
    MulMono(hr, p - 1, W);
    DivModUnique(h * W + l, g, hq, hr * W + l);
    calc {
      (hr * W + l) * c;
      hr * W * c + l * c;
      hr * W * c + (lq * p + lr) * c;
      { MulAssoc(lq, p, c); Swap(hr, c, W); }
      hr * c * W + lq * W + lr * c;
    }
  }
}
