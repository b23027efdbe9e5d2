/** The look-up tables the lowered code indexes, and the program that generates the large one. */
module Tables {
  import opened Bits
  import opened Machine
  import opened Words
  import opened WordTypes

  datatype Shift = Sll | Srl | Sra

  function Signed(x: Word): int {
    if x < 0x8000_0000 then x else x - W
  }

  function Unsigned(x: int): (w: Word)
    requires -0x8000_0000 <= x < 0x8000_0000
    ensures Signed(w) == x
  {
    if x < 0 then x + W else x
  }

  /** `x` shifted by `s` places; `/` rounds down, so the signed case is an arithmetic shift. */
  function ShiftWord(k: Shift, x: Word, s: nat): Word
    requires s < 32
  {
    match k
    case Sll => Shl(x, s)
    case Srl => Shr(x, s)
    case Sra => ArithmeticShift(x, s)
  }

  function ArithmeticShift(x: Word, s: nat): Word {
    QuotientRange(Signed(x), Pow2(s));
    Unsigned(Signed(x) / Pow2(s))
  }

  lemma QuotientRange(x: int, p: nat)
    requires p > 0
    ensures 0 <= x ==> 0 <= x / p <= x
    ensures x < 0 ==> x <= x / p < 0
  {
    QuotientSign(x, p, x / p, x % p);
  }

  lemma QuotientSign(x: int, p: int, q: int, r: nat)
    requires x == q * p + r && r < p && p > 0
    ensures 0 <= x ==> 0 <= q <= x
    ensures x < 0 ==> x <= q < 0
  {
    var y := q * p;
    if q < 0 {
      assert y <= -p && y <= q by {
        MulMono(q, -1, p);
        NegProduct(q, p);
      }
    } else {
      assert q <= y by {
        MulMono(1, p, q);
        assert p * q == y;
      }
    }
    if x < 0 {
      assert x <= q by {
        if q <= -1 {
          assert y + r <= q by { NegQuotient(q, p, r); }
        }
      }
    }
  }

  lemma NegProduct(q: int, p: int)
    requires q < 0 && p > 0
    ensures q * p <= q
  {
  }

  lemma NegQuotient(q: int, p: int, r: nat)
    requires q < 0 && r < p && p > 0
    ensures q * p + r <= q
  {
    var k := -1 - q;
    assert q * p == -p - k * p;
    assert k <= k * p by { MulMono(1, p, k); }
  }

  /** `a` is what the bits of `x` mean in two's complement. */
  ghost predicate Signs(a: int, x: Word) {
    -0x8000_0000 <= a < 0x8000_0000 && Congruent(a, x, W)
  }

  lemma SignsExactly(a: int, x: Word)
    ensures Signs(a, x) <==> a == Signed(x)
  {
    var k := if x < 0x8000_0000 then 0 else -1;
    assert Signed(x) == x + k * W;
    if Signs(a, x) {
      CongruentNear(a, Signed(x), x, W);
    }
  }

  /** Shifting left multiplies; shifting right divides, rounding down, the word or the number it stands for. */
  ghost predicate ShiftMeans(k: Shift, x: Word, s: nat, v: Word) {
    match k
    case Sll => Congruent(v, x * Pow2(s), W)
    case Srl => v * Pow2(s) <= x < (v + 1) * Pow2(s)
    case Sra => forall a: int, b: int :: Signs(a, x) && Signs(b, v) ==> b * Pow2(s) <= a < (b + 1) * Pow2(s)
  }

  lemma ShiftExactly(k: Shift, x: Word, s: nat, v: Word)
    requires s < 32
    ensures ShiftMeans(k, x, s, v) <==> v == ShiftWord(k, x, s)
  {
    hide Pow2, Signs;
    match k
    case Sll =>
      CongruentExactly(v, x * Pow2(s), W);
    case Srl =>
      DivExactly(x, Pow2(s), v);
    case Sra =>
      SignsExactly(Signed(x), x);
      SignsExactly(Signed(v), v);
      forall a: int, b: int | Signs(a, x) && Signs(b, v)
        ensures a == Signed(x) && b == Signed(v)
      {
        SignsExactly(a, x);
        SignsExactly(b, v);
      }
      DivExactly(Signed(x), Pow2(s), Signed(v));
  }

  lemma DivExactly(x: int, p: nat, q: int)
    requires p > 0
    ensures q * p <= x < (q + 1) * p <==> q == x / p
  {
    var q', r' := x / p, x % p;
    assert x == q' * p + r' && (q + 1) * p == q * p + p;
    assert (q' + 1) * p == q' * p + p;
    if q * p <= x < (q + 1) * p {
      DivModUnique(x, p, q, x - q * p);
    }
  }

  /** Entry `(row, col)` of the three word tables. */
  function ShiftEntry(k: Shift, row: nat, col: Byte): Word
    requires row < 32
  {
    ShiftWord(k, if k == Sll then col else col * 0x100_0000, row)
  }

  function LogicTable(n: nat): BitOp {
    if n == 0 then And else if n == 1 then Or else Xor
  }

  function ShiftTable(n: nat): Shift {
    if n == 0 then Sll else if n == 1 then Srl else Sra
  }

  const LUT_SIZE: nat := 294912

  /** Where each table starts inside `_logic_shift_table`. */
  function LogicOffset(op: BitOp): nat {
    match op case And => 0 case Or => 65536 case Xor => 131072
  }

  function ShiftOffset(k: Shift): nat {
    match k case Sll => 196608 case Srl => 229376 case Sra => 262144
  }

  /** Byte `k` of the generated file. */
  function LutByte(k: nat): Byte
    requires k < LUT_SIZE
  {
    if k < 196608 then
      BitwiseBound(LogicTable(k / 65536), 8, k % 65536 / 256, k % 256);
      assert Pow2(8) == 256;
      Bitwise(LogicTable(k / 65536), 8, k % 65536 / 256, k % 256)
    else
      var w := (k - 196608) / 4;
      ByteOf(ShiftEntry(ShiftTable(w / 8192), w % 8192 / 256, w % 256), k % 4)
  }

  /** Byte `k` of a table with 256 columns and entries of `size` bytes. */
  function CellByte(entry: (nat, nat) -> Word, size: nat, k: nat): Byte {
    if size == 1 then ByteOf(entry(k / 256, k % 256), 0)
    else ByteOf(entry(k / 4 / 256, k / 4 % 256), k % 4)
  }

  function TableBytes(entry: (nat, nat) -> Word, size: nat, n: nat): seq<Byte> {
    seq(n, k requires 0 <= k < n => CellByte(entry, size, k))
  }

  /** `gen_table` with 256 columns: the low `size` bytes of each entry, in row order, appended to the file. */
  method GenTable(file: seq<Byte>, rows: nat, size: nat, entry: (nat, nat) -> Word) returns (r: seq<Byte>)
    requires size == 1 || size == 4
    ensures r == file + TableBytes(entry, size, rows * 256 * size)
  {
    r := file;
    for j := 0 to rows
      invariant r == file + TableBytes(entry, size, j * 256 * size)
    {
      for i := 0 to 256
        invariant r == file + TableBytes(entry, size, (j * 256 + i) * size)
      {
        var res := entry(j, i);
        r := r + if size == 1 then [ByteOf(res, 0)]
          else [ByteOf(res, 0), ByteOf(res, 1), ByteOf(res, 2), ByteOf(res, 3)];
        AppendEntry(entry, size, j, i);
      }
    }
  }

  lemma AppendEntry(entry: (nat, nat) -> Word, size: nat, j: nat, i: nat)
    requires size == 1 || size == 4
    requires i < 256
    ensures TableBytes(entry, size, (j * 256 + i + 1) * size)
         == TableBytes(entry, size, (j * 256 + i) * size)
          + if size == 1 then [ByteOf(entry(j, i), 0)]
            else [ByteOf(entry(j, i), 0), ByteOf(entry(j, i), 1), ByteOf(entry(j, i), 2), ByteOf(entry(j, i), 3)]
  {
    var k := j * 256 + i;
    assert k / 256 == j && k % 256 == i;
    if size == 4 {
      assert (4 * k + 1) / 4 == (4 * k + 2) / 4 == (4 * k + 3) / 4 == 4 * k / 4 == k;
    }
  }

  function LogicWord(op: BitOp, j: nat, i: nat): Word {
    BitwiseBound(op, 8, j, i);
    assert Pow2(8) == 256;
    Bitwise(op, 8, j, i)
  }

  /** The expressions of the generator, totalised outside the loop bounds. */
  function LogicCell(op: BitOp): (nat, nat) -> Word {
    (j, i) => LogicWord(op, j, i)
  }

  function ShiftCell(k: Shift): (nat, nat) -> Word {
    (j, i) => if j < 32 && i < 256 then ShiftEntry(k, j, i) else 0
  }

  /** A file that agrees with the look-up table as far as it goes. */
  ghost predicate Matches(file: seq<Byte>) {
    |file| <= LUT_SIZE && forall k :: 0 <= k < |file| ==> file[k] == LutByte(k)
  }

  lemma AppendLogic(file: seq<Byte>, t: nat)
    requires t < 3 && |file| == 65536 * t && Matches(file)
    ensures Matches(file + TableBytes(LogicCell(LogicTable(t)), 1, 65536))
  {
    hide Bitwise, Pow2, LogicTable, LutByte;
    var more := TableBytes(LogicCell(LogicTable(t)), 1, 65536);
    forall k | |file| <= k < |file| + 65536
      ensures (file + more)[k] == LutByte(k)
    {
      var m := k - |file|;
      assert more[m] == CellByte(LogicCell(LogicTable(t)), 1, m);
      LogicCellByte(t, m);
    }
  }

  lemma LogicCellByte(t: nat, m: nat)
    requires t < 3 && m < 65536
    ensures CellByte(LogicCell(LogicTable(t)), 1, m) == LutByte(65536 * t + m)
  {
    hide Bitwise;
    var k := 65536 * t + m;
    assert k / 65536 == t && k % 65536 == m && k % 256 == m % 256;
    BitwiseBound(LogicTable(t), 8, m / 256, m % 256);
    assert Pow2(8) == 256;
    hide Pow2, LogicTable;
  }

  lemma AppendShift(file: seq<Byte>, t: nat)
    requires t < 3 && |file| == 196608 + 32768 * t && Matches(file)
    ensures Matches(file + TableBytes(ShiftCell(ShiftTable(t)), 4, 32768))
  {
    var more := TableBytes(ShiftCell(ShiftTable(t)), 4, 32768);
    forall k | |file| <= k < |file| + 32768
      ensures (file + more)[k] == LutByte(k)
    {
      var m := k - |file|;
      var w := (k - 196608) / 4;
      assert w == 8192 * t + m / 4 && k % 4 == m % 4;
      assert w / 8192 == t && w % 8192 == m / 4 && w % 256 == m / 4 % 256;
      assert more[m] == CellByte(ShiftCell(ShiftTable(t)), 4, m);
    }
  }

  /** From `at` on, the byte at each of 256 rows and columns has the bits that the operator makes of row and column. */
  ghost predicate LogicPart(file: seq<Byte>, at: nat, op: BitOp) {
    && at + 65536 <= |file|
    && forall k :: at <= k < at + 65536 ==> Joins(op, 8, (k - at) / 256, (k - at) % 256, file[k])
  }

  /** The little-endian word at row `j` and column `i`. */
  function WordAt(file: seq<Byte>, at: nat, j: nat, i: nat): Word
    requires at + 32768 <= |file| && j < 32 && i < 256
  {
    var k := at + 1024 * j + 4 * i;
    WordOf(file[k], file[k + 1], file[k + 2], file[k + 3])
  }

  /** From `at` on, that word is the column shifted by the row, for the right shifts as the top byte of a word. */
  ghost predicate ShiftPart(file: seq<Byte>, at: nat, kind: Shift) {
    && at + 32768 <= |file|
    && forall j, i :: 0 <= j < 32 && 0 <= i < 256 ==>
         ShiftMeans(kind, if kind == Sll then i else i * 0x100_0000, j, WordAt(file, at, j, i))
  }

  lemma LogicParts(file: seq<Byte>, t: nat)
    requires |file| == LUT_SIZE && Matches(file) && t < 3
    ensures LogicPart(file, 65536 * t, LogicTable(t))
  {
    hide Bitwise, Joins;
    var at := 65536 * t;
    forall k | at <= k < at + 65536
      ensures Joins(LogicTable(t), 8, (k - at) / 256, (k - at) % 256, file[k])
    {
      assert k / 65536 == t && k % 65536 == k - at && k % 256 == (k - at) % 256;
      BitwiseJoins(LogicTable(t), 8, (k - at) / 256, (k - at) % 256);
    }
  }

  lemma ShiftParts(file: seq<Byte>, t: nat)
    requires |file| == LUT_SIZE && Matches(file) && t < 3
    ensures ShiftPart(file, 196608 + 32768 * t, ShiftTable(t))
  {
    hide ShiftMeans, ShiftEntry, Matches;
    var at, kind := 196608 + 32768 * t, ShiftTable(t);
    forall j, i | 0 <= j < 32 && 0 <= i < 256
      ensures ShiftMeans(kind, if kind == Sll then i else i * 0x100_0000, j, WordAt(file, at, j, i))
    {
      ShiftWordAt(file, t, j, i);
      ShiftEntryMeans(kind, j, i);
    }
  }

  lemma ShiftWordAt(file: seq<Byte>, t: nat, j: nat, i: nat)
    requires |file| == LUT_SIZE && Matches(file) && t < 3 && j < 32 && i < 256
    ensures WordAt(file, 196608 + 32768 * t, j, i) == ShiftEntry(ShiftTable(t), j, i)
  {
    hide ShiftEntry;
    var w := 8192 * t + 256 * j + i;
    assert w / 8192 == t && w % 8192 / 256 == j && w % 256 == i;
    hide ByteOf, ShiftTable;
    forall b | 0 <= b < 4
      ensures file[196608 + 4 * w + b] == ByteOf(ShiftEntry(ShiftTable(t), j, i), b)
    {
      FourthOf(w, b);
      assert file[196608 + 4 * w + b] == LutByte(196608 + 4 * w + b);
    }
    WordBytes(ShiftEntry(ShiftTable(t), j, i));
  }

  lemma FourthOf(w: nat, b: nat)
    requires b < 4
    ensures (4 * w + b) / 4 == w && (196608 + 4 * w + b) % 4 == b
  {
  }

  lemma ShiftEntryMeans(kind: Shift, j: nat, i: Byte)
    requires j < 32
    ensures ShiftMeans(kind, if kind == Sll then i else i * 0x100_0000, j, ShiftEntry(kind, j, i))
  {
    hide ShiftMeans;
    ShiftExactly(kind, if kind == Sll then i else i * 0x100_0000, j, ShiftEntry(kind, j, i));
  }

  /** The generator's `main`: six tables, one after the other. */
  method GenLut() returns (file: seq<Byte>)
    ensures |file| == LUT_SIZE
    ensures forall k :: 0 <= k < LUT_SIZE ==> file[k] == LutByte(k)
    ensures LogicPart(file, 0, And) && LogicPart(file, 65536, Or) && LogicPart(file, 131072, Xor)
    ensures ShiftPart(file, 196608, Sll) && ShiftPart(file, 229376, Srl) && ShiftPart(file, 262144, Sra)
  {
    hide LogicPart, ShiftPart;
    file := GenTable([], 256, 1, LogicCell(And));
    AppendLogic([], 0);
    AppendLogic(file, 1);
    file := GenTable(file, 256, 1, LogicCell(Or));
    AppendLogic(file, 2);
    file := GenTable(file, 256, 1, LogicCell(Xor));
    AppendShift(file, 0);
    file := GenTable(file, 32, 4, ShiftCell(Sll));
    AppendShift(file, 1);
    file := GenTable(file, 32, 4, ShiftCell(Srl));
    AppendShift(file, 2);
    file := GenTable(file, 32, 4, ShiftCell(Sra));
    AllParts(file);
  }

  lemma AllParts(file: seq<Byte>)
    requires |file| == LUT_SIZE && Matches(file)
    ensures LogicPart(file, 0, And) && LogicPart(file, 65536, Or) && LogicPart(file, 131072, Xor)
    ensures ShiftPart(file, 196608, Sll) && ShiftPart(file, 229376, Srl) && ShiftPart(file, 262144, Sra)
  {
    hide LogicPart, ShiftPart, Matches;
    LogicParts(file, 0);
    LogicParts(file, 1);
    LogicParts(file, 2);
    ShiftParts(file, 0);
    ShiftParts(file, 1);
    ShiftParts(file, 2);
  }
}
