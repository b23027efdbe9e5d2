/** The byte-wise sums of table words are exactly the 32-bit shifts. */
module ShiftTables {
  import opened Bits
  import opened Machine
  import opened Tables
  import opened BasicMacros
  import opened ShiftMacros
  import opened Words
  import opened WordTypes

  /** `words` is row `s` of table `k`. */
  ghost predicate IsRow(words: seq<Word>, k: Shift, s: nat)
    requires s < 32
  {
    |words| == 256 && forall i :: 0 <= i < 256 ==> words[i] == ShiftEntry(k, s, i)
  }

  lemma WrapAdd(x: nat, y: nat)
    ensures Wrap(x % W + y % W) == (x + y) % W
  {
    var q, r := x / W, x % W;
    var q', r' := y / W, y % W;
    if r + r' < W {
      DivModUnique(x + y, W, q + q', r + r');
    } else {
      DivModUnique(x + y, W, q + q' + 1, r + r' - W);
    }
  }

  /** One byte of the shiftee: keeping the low bits of its entry loses nothing modulo 2^32. */
  lemma EntryTerm(b: Byte, s: nat, lo: nat, hi: nat)
    requires s < 32 && lo > 0 && lo * hi == W
    ensures 0 <= Shl(b, s) % lo * hi < W
    ensures Shl(b, s) % lo * hi == b * Pow2(s) * hi % W
  {
    KeptBits(Shl(b, s), lo, hi);
    ModMul(b * Pow2(s), hi);
  }

  /** The four summands, before the sum is reduced. */
  lemma SllSummands(words: seq<Word>, s: nat, x: Word)
    requires s < 32 && IsRow(words, Sll, s)
    ensures words[ByteOf(x, 3)] % 256 * 0x100_0000 == ByteOf(x, 3) * Pow2(s) * 0x100_0000 % W
    ensures words[ByteOf(x, 2)] % 65536 * 65536 == ByteOf(x, 2) * Pow2(s) * 65536 % W
    ensures words[ByteOf(x, 1)] * 256 % W == ByteOf(x, 1) * Pow2(s) * 256 % W
    ensures words[ByteOf(x, 0)] == ByteOf(x, 0) * Pow2(s) % W
  {
    SllTerms(words, s, x);
    hide IsRow, ByteOf, Pow2, Shl;
    EntryTerm(ByteOf(x, 3), s, 256, 0x100_0000);
    EntryTerm(ByteOf(x, 2), s, 65536, 65536);
    ModMul(ByteOf(x, 1) * Pow2(s), 256);
    ShlIs(ByteOf(x, 1), s);
    ShlIs(ByteOf(x, 0), s);
  }

  lemma ShlIs(x: Word, s: nat)
    requires s < 32
    ensures Shl(x, s) == x * Pow2(s) % W
  {
  }

  lemma WrapSum(t3: nat, t2: nat, t1: nat, t0: nat)
    ensures Wrap(Wrap(Wrap(t3 % W + t2 % W) + t1 % W) + t0 % W) == (t3 + t2 + t1 + t0) % W
  {
    hide Wrap;
    WrapAdd(t3, t2);
    WrapAdd(t3 + t2, t1);
    WrapAdd(t3 + t2 + t1, t0);
  }

  lemma SllSumOk(words: seq<Word>, s: nat, x: Word)
    requires s < 32 && IsRow(words, Sll, s)
    ensures SllSum(words, x) == ShiftWord(Sll, x, s)
  {
    SllSummands(words, s, x);
    WordBytes(x);
    ShlIs(x, s);
    hide IsRow, ByteOf, Pow2, Shl, Wrap;
    var b0, b1, b2, b3, p := ByteOf(x, 0), ByteOf(x, 1), ByteOf(x, 2), ByteOf(x, 3), Pow2(s);
    WrapSum(b3 * p * 0x100_0000, b2 * p * 65536, b1 * p * 256, b0 * p);
    SumTimes(b0, b1, b2, b3, p);
  }

  lemma SumTimes(b0: int, b1: int, b2: int, b3: int, p: int)
    ensures b3 * p * 0x100_0000 + b2 * p * 65536 + b1 * p * 256 + b0 * p
         == (b0 + 256 * b1 + 65536 * b2 + 0x100_0000 * b3) * p
  {
  }

  lemma SllTerms(words: seq<Word>, s: nat, x: Word)
    requires s < 32 && IsRow(words, Sll, s)
    ensures words[ByteOf(x, 0)] == Shl(ByteOf(x, 0), s)
    ensures words[ByteOf(x, 1)] == Shl(ByteOf(x, 1), s)
    ensures words[ByteOf(x, 2)] == Shl(ByteOf(x, 2), s)
    ensures words[ByteOf(x, 3)] == Shl(ByteOf(x, 3), s)
  {
  }

  /** The part of a byte that stays, and the part that crosses into the byte below, when shifted right by `b`. */
  function Stay(x: Byte, b: nat): (h: Byte)
    requires b < 8
  {
    QuotientRange(x, Pow2(b));
    x / Pow2(b)
  }

  function Cross(x: Byte, b: nat): (l: Byte)
    requires b < 8
  {
    CrossRange(x, b);
    x % Pow2(b) * Pow2(8 - b)
  }

  lemma Halves(b: nat)
    requires b < 8
    ensures Pow2(b) * Pow2(8 - b) == 256
  {
    Pow2Add(b, 8 - b);
    assert Pow2(8) == 256;
  }

  lemma CrossRange(x: Byte, b: nat)
    requires b < 8
    ensures 0 <= x % Pow2(b) * Pow2(8 - b) <= 256 - Pow2(8 - b)
  {
    Halves(b);
    CrossBound(x % Pow2(b), Pow2(b), Pow2(8 - b));
  }

  lemma CrossBound(m: nat, p: nat, l: nat)
    requires m < p && p * l == 256
    ensures 0 <= m * l <= 256 - l
  {
    MulMono(m, p - 1, l);
    assert (p - 1) * l == p * l - l;
  }

  /** A staying part and a crossing part never carry into each other. */
  lemma Disjoint(x: Byte, y: Byte, b: nat)
    requires b < 8
    ensures Stay(x, b) + Cross(y, b) < 256
  {
    CrossRange(y, b);
    Halves(b);
    QuotientBelow(x, Pow2(b), Pow2(8 - b));
  }

  lemma SplitByte(x: Byte, b: nat)
    requires b < 8
    ensures 256 * x == (256 * Stay(x, b) + Cross(x, b)) * Pow2(b)
  {
    Halves(b);
    DivMod(x, Pow2(b));
    SplitProduct(x, x / Pow2(b), x % Pow2(b), Cross(x, b), Pow2(b), Pow2(8 - b));
  }

  lemma SplitProduct(x: int, h: int, m: int, c: int, p: nat, l: nat)
    requires x == h * p + m && c == m * l && p * l == 256
    ensures 256 * x == (256 * h + c) * p
  {
    assert m * l * p == m * (p * l);
  }

  /** Two bytes `h`, `l` placed `a` bytes below the top of a word. */
  function Place(h: Byte, l: Byte, a: nat): Word
    requires a < 4
  {
    if a == 0 then WordOf(0, 0, l, h)
    else if a == 1 then WordOf(0, l, h, 0)
    else if a == 2 then WordOf(l, h, 0, 0)
    else WordOf(h, 0, 0, 0)
  }

  lemma BytePowers(a: nat)
    requires a < 4
    ensures Pow2(8 * a) == if a == 0 then 1 else if a == 1 then 256 else if a == 2 then 65536 else 0x100_0000
  {
    SplitPowers();
    assert Pow2(8) == 256;
  }

  /** Shifting by `s` is shifting by `s % 8` and then by whole bytes. */
  lemma ShiftInTwo(x: nat, s: nat, y: nat, r: nat)
    requires x == y * Pow2(s % 8) + r && r < Pow2(s % 8)
    ensures x / Pow2(s) == y / Pow2(8 * (s / 8))
  {
    var p, q := Pow2(s % 8), Pow2(8 * (s / 8));
    Pow2Add(s % 8, 8 * (s / 8));
    assert Pow2(s) == p * q;
    DivModUnique(x, p, y, r);
    DivDiv(x, p, q);
  }

  /** A table entry: at most two bytes of the word are not zero. */
  lemma EntryBytes(x: Byte, s: nat)
    requires s < 32
    ensures Shr(x * 0x100_0000, s) == Place(Stay(x, s % 8), Cross(x, s % 8), s / 8)
  {
    var b, a := s % 8, s / 8;
    var h: int, l: int := Stay(x, b), Cross(x, b);
    SplitByte(x, b);
    var y := 65536 * (256 * h + l);
    MulAssoc(65536, 256 * h + l, Pow2(b));
    ShiftInTwo(x * 0x100_0000, s, y, 0);
    BytePowers(a);
    PlaceByDivision(h, l, a);
  }

  lemma PlaceByDivision(h: Byte, l: Byte, a: nat)
    requires a < 4
    ensures 65536 * (256 * h + l)
         / (if a == 0 then 1 else if a == 1 then 256 else if a == 2 then 65536 else 0x100_0000) == Place(h, l, a)
  {
  }

  /** `x` without its lowest crossing bits, byte by byte. */
  function Kept(x: Word, b: nat): Word
    requires b < 8
  {
    Disjoint(ByteOf(x, 0), ByteOf(x, 1), b);
    Disjoint(ByteOf(x, 1), ByteOf(x, 2), b);
    Disjoint(ByteOf(x, 2), ByteOf(x, 3), b);
    var h0: int, h1: int, h2: int := Stay(ByteOf(x, 0), b), Stay(ByteOf(x, 1), b), Stay(ByteOf(x, 2), b);
    WordOf(h0 + Cross(ByteOf(x, 1), b), h1 + Cross(ByteOf(x, 2), b), h2 + Cross(ByteOf(x, 3), b), Stay(ByteOf(x, 3), b))
  }

  lemma KeptIsQuotient(x: Word, b: nat)
    requires b < 8
    ensures x == Kept(x, b) * Pow2(b) + ByteOf(x, 0) % Pow2(b)
  {
    hide ByteOf, Pow2;
    var x0, x1, x2, x3 := ByteOf(x, 0), ByteOf(x, 1), ByteOf(x, 2), ByteOf(x, 3);
    SplitByte(x1, b);
    SplitByte(x2, b);
    SplitByte(x3, b);
    WordBytes(x);
    DivMod(x0, Pow2(b));
    CollectBytes(Stay(x0, b), x0 % Pow2(b), x1, Stay(x1, b), Cross(x1, b),
      x2, Stay(x2, b), Cross(x2, b), x3, Stay(x3, b), Cross(x3, b), Pow2(b));
  }

  lemma CollectBytes(h0: int, m0: int, x1: int, h1: int, l1: int, x2: int, h2: int, l2: int,
                     x3: int, h3: int, l3: int, p: int)
    requires 256 * x1 == (256 * h1 + l1) * p
    requires 256 * x2 == (256 * h2 + l2) * p
    requires 256 * x3 == (256 * h3 + l3) * p
    ensures h0 * p + m0 + 256 * x1 + 65536 * x2 + 0x100_0000 * x3
         == (h0 + l1 + 256 * (h1 + l2) + 65536 * (h2 + l3) + 0x100_0000 * h3) * p + m0
  {
  }

  /** The whole shift, by whole bytes of `Kept`. */
  lemma LogicalShiftBytes(x: Word, s: nat)
    requires s < 32
    ensures Shr(x, s) == Kept(x, s % 8)
         / (if s / 8 == 0 then 1 else if s / 8 == 1 then 256 else if s / 8 == 2 then 65536 else 0x100_0000)
  {
    KeptIsQuotient(x, s % 8);
    ShiftInTwo(x, s, Kept(x, s % 8), ByteOf(x, 0) % Pow2(s % 8));
    BytePowers(s / 8);
  }

  lemma PlaceBytes(h: Byte, l: Byte, a: nat)
    requires a < 4
    ensures var w := Place(h, l, a);
      && ByteOf(w, 3) == (if a == 0 then h else 0)
      && ByteOf(w, 2) == (if a == 0 then l else if a == 1 then h else 0)
      && ByteOf(w, 1) == (if a == 1 then l else if a == 2 then h else 0)
  {
    if a == 0 {
      BytesWord(0, 0, l, h);
    } else if a == 1 {
      BytesWord(0, l, h, 0);
    } else if a == 2 {
      BytesWord(l, h, 0, 0);
    } else {
      BytesWord(h, 0, 0, 0);
    }
  }

  lemma SmallBytes(x: nat)
    requires x < 256
    ensures ByteOf(x, 0) == x && ByteOf(x, 3) == 0
  {
  }

  /** Disjoint bits: the byte additions of the macro do not carry, in any of the four byte positions. */
  lemma LowPartBytes(h0: Byte, l0: Byte, h1: Byte, l1: Byte, h2: Byte, l2: Byte, a: nat)
    requires a < 4
    requires h0 + l1 < 256 && h1 + l2 < 256
    ensures LowPart(Place(h2, l2, a), Place(h1, l1, a), Place(h0, l0, a))
         == if a == 0 then WordOf(h0 + l1, h1 + l2, h2, 0)
            else if a == 1 then WordOf(h1 + l2, h2, 0, 0)
            else if a == 2 then WordOf(h2, 0, 0, 0)
            else 0
  {
    hide ByteOf, Place;
    PlaceBytes(h0, l0, a);
    PlaceBytes(h1, l1, a);
    PlaceBytes(h2, l2, a);
    SmallBytes(h0 + l1);
    SmallBytes(h1 + l2);
    SmallBytes(h2);
    SmallBytes(0);
  }

  /** Dropping `a` low bytes. */
  lemma DropBytes(b0: Byte, b1: Byte, b2: Byte, b3: Byte)
    ensures WordOf(b0, b1, b2, b3) / 256 == WordOf(b1, b2, b3, 0)
    ensures WordOf(b0, b1, b2, b3) / 65536 == WordOf(b2, b3, 0, 0)
    ensures WordOf(b0, b1, b2, b3) / 0x100_0000 == WordOf(b3, 0, 0, 0)
  {
  }

  /** The low part and the top entry add up to the shifted word, as integers. */
  lemma RightParts(words: seq<Word>, s: nat, x: Word)
    requires s < 32 && IsRow(words, Srl, s)
    ensures LowPart(words[ByteOf(x, 2)], words[ByteOf(x, 1)], words[ByteOf(x, 0)]) as int + words[ByteOf(x, 3)]
         == Shr(x, s)
  {
    var b, a := s % 8, s / 8;
    var x0, x1, x2, x3 := ByteOf(x, 0), ByteOf(x, 1), ByteOf(x, 2), ByteOf(x, 3);
    var h0: int, h1: int, h2: int, h3: int := Stay(x0, b), Stay(x1, b), Stay(x2, b), Stay(x3, b);
    var l1, l2, l3 := Cross(x1, b), Cross(x2, b), Cross(x3, b);
    hide ByteOf, Shr, LowPart, Stay, Cross, Pow2;
    EntryBytes(x0, s);
    EntryBytes(x1, s);
    EntryBytes(x2, s);
    EntryBytes(x3, s);
    Disjoint(x0, x1, b);
    Disjoint(x1, x2, b);
    Disjoint(x2, x3, b);
    LowPartBytes(h0, Cross(x0, b), h1, l1, h2, l2, a);
    LogicalShiftBytes(x, s);
    Combined(h0, h1, l1, h2, l2, h3, l3, a);
  }

  /** The bytes of the low part and of the top entry side by side. */
  lemma Combined(h0: Byte, h1: Byte, l1: Byte, h2: Byte, l2: Byte, h3: Byte, l3: Byte, a: nat)
    requires a < 4 && h0 + l1 < 256 && h1 + l2 < 256 && h2 + l3 < 256
    ensures (if a == 0 then WordOf(h0 + l1, h1 + l2, h2, 0) else if a == 1 then WordOf(h1 + l2, h2, 0, 0)
             else if a == 2 then WordOf(h2, 0, 0, 0) else 0) as int + Place(h3, l3, a)
         == WordOf(h0 + l1, h1 + l2, h2 + l3, h3)
            / (if a == 0 then 1 else if a == 1 then 256 else if a == 2 then 65536 else 0x100_0000)
  {
    DropBytes(h0 + l1, h1 + l2, h2 + l3, h3);
  }

  lemma RightSumLogical(words: seq<Word>, s: nat, x: Word)
    requires s < 32 && IsRow(words, Srl, s)
    ensures RightSum(words, words, x) == ShiftWord(Srl, x, s)
  {
    RightParts(words, s, x);
  }

  /** The sign bits an arithmetic shift brings in. */
  function SignFill(x: Word, s: nat): int
    requires s < 32
  {
    if x < 0x8000_0000 then 0 else W - Pow2(32 - s)
  }

  lemma ArithmeticIsLogical(x: Word, s: nat)
    requires s < 32
    ensures ArithmeticShift(x, s) == Shr(x, s) + SignFill(x, s)
  {
    hide Pow2;
    PowersOfWord(s);
    DivMod(x, Pow2(s));
    FillQuotient(x, Pow2(s), Pow2(32 - s), x / Pow2(s), x % Pow2(s));
  }

  lemma FillQuotient(x: int, p: nat, q: nat, k: nat, r: nat)
    requires p * q == W && x == k * p + r && r < p
    ensures (x - W) / p == k - q
  {
    assert x - W == (k - q) * p + r;
    DivModUnique(x - W, p, k - q, r);
  }

  lemma PowersOfWord(s: nat)
    requires s < 32
    ensures Pow2(s) * Pow2(32 - s) == W
  {
    Pow2Add(s, 32 - s);
    SplitPowers();
    Pow2Add(16, 16);
  }

  lemma RightSumArithmetic(words: seq<Word>, top: seq<Word>, s: nat, x: Word)
    requires s < 32 && IsRow(words, Srl, s) && IsRow(top, Sra, s)
    ensures RightSum(words, top, x) == ShiftWord(Sra, x, s)
  {
    hide Shr, ArithmeticShift, LowPart;
    var b3: int := ByteOf(x, 3);
    RightParts(words, s, x);
    ArithmeticIsLogical(x, s);
    ArithmeticIsLogical(b3 * 0x100_0000, s);
    assert b3 * 0x100_0000 < 0x8000_0000 <==> x < 0x8000_0000;
  }

  /** Only the top byte matters when shifting by 24. */
  lemma ShiftBy24(x: Word)
    ensures ShiftWord(Sra, x, 24) == ShiftEntry(Sra, 24, ByteOf(x, 3))
    ensures ShiftWord(Srl, x, 24) == ByteOf(x, 3)
  {
    SplitPowers();
    ArithmeticIsLogical(x, 24);
    ArithmeticIsLogical(ByteOf(x, 3) * 0x100_0000, 24);
  }
}
