/** 32- and 64-bit unsigned words and the C operators on them. */
module Words {
  import opened Bits
  import opened WordTypes

  const WW: int := 0x1_0000_0000_0000_0000

  type DWord = x: int | 0 <= x < 0x1_0000_0000_0000_0000

  function Magnitude(x: int): nat {
    if x < 0 then -x else x
  }

  function Flag(b: bool): Word {
    if b then 1 else 0
  }

  /** The `udwords` union: a double word and its two halves. */
  datatype Halves = Halves(high: Word, low: Word) {
    function All(): DWord {
      high * W + low
    }
  }

  function Split(x: DWord): (h: Halves)
    ensures h.All() == x
  {
    Halves(x / W, x % W)
  }

  lemma WordPowers()
    ensures Pow2(16) == 65536 && Pow2(31) == 0x8000_0000 && Pow2(32) == W && Pow2(64) == WW
    ensures Pow2(63) == 0x8000_0000_0000_0000
  {
    assert Pow2(8) == 256;
    Pow2Add(8, 8);
    Pow2Add(16, 16);
    Pow2Add(32, 32);
    assert Pow2(32) == 2 * Pow2(31);
    assert Pow2(64) == 2 * Pow2(63);
  }

  function Shl(x: Word, s: nat): Word
    requires s < 32
  {
    x * Pow2(s) % W
  }

  function Shr(x: Word, s: nat): (r: Word)
    requires s < 32
    ensures r <= x
  {
    DivRange(x, Pow2(s));
    x / Pow2(s)
  }

  lemma DivRange(x: nat, p: nat)
    requires p > 0
    ensures 0 <= x / p <= x
  {
    DivRangeAux(x, p, x / p, x % p);
  }

  lemma DivRangeAux(x: nat, p: nat, q: int, r: nat)
    requires p > 0 && x == q * p + r && r < p
    ensures 0 <= q <= x
  {
    if q < 0 {
      MulMono(q, -1, p);
    } else {
      MulMono(1, p, q);
    }
  }

  function BitOp32(op: BitOp, x: Word, y: Word): Word {
    BitwiseBound(op, 32, x, y);
    WordPowers();
    Bitwise(op, 32, x, y)
  }

  function BitOp64(op: BitOp, x: DWord, y: DWord): DWord {
    BitwiseBound(op, 64, x, y);
    WordPowers();
    Bitwise(op, 64, x, y)
  }

  /** Addition and subtraction modulo 2^32 and 2^64. */
  function Mod32(x: int): Word {
    x % W
  }

  function Mod64(x: int): DWord {
    x % WW
  }

  /** `x | y` for a word `h << m` and a word below `2^m`. */
  lemma Or32(m: nat, h: nat, x: Word, y: Word)
    requires m <= 32 && x == h * Pow2(m) && h < Pow2(32 - m) && y < Pow2(m)
    ensures BitOp32(Or, x, y) == x + y
  {
    OrDisjoint(m, 32 - m, x, h, y);
  }

  lemma Or64(m: nat, h: nat, x: DWord, y: DWord)
    requires m <= 64 && x == h * Pow2(m) && h < Pow2(64 - m) && y < Pow2(m)
    ensures BitOp64(Or, x, y) == x + y
  {
    OrDisjoint(m, 64 - m, x, h, y);
  }

  /** Shifting left by one and putting a bit in. */
  function ShiftIn(x: Word, b: Word): Word {
    BitOp32(Or, Shl(x, 1), b)
  }

  lemma ShiftInOk(x: Word, b: Word)
    requires b < 2
    ensures Shr(x, 31) < 2
    ensures Shr(x, 31) * W + ShiftIn(x, b) == 2 * x + b
  {
    WordPowers();
    var t := x / 0x8000_0000;
    assert Pow2(1) == 2;
    DivModUnique(2 * x, W, t, 2 * (x - t * 0x8000_0000));
    Or32(1, x - t * 0x8000_0000, Shl(x, 1), b);
  }

  /** Shifting a double word left by one. */
  lemma ShiftInDouble(x: Halves, b: Word)
    requires b < 2
    ensures ShiftIn(x.high, Shr(x.low, 31)) * W + ShiftIn(x.low, b) + Shr(x.high, 31) * WW == 2 * x.All() + b
  {
    ShiftInOk(x.low, b);
    ShiftInOk(x.high, Shr(x.low, 31));
  }
}
