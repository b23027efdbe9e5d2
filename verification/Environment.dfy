/** Where the tables live, and what the lowered code may assume about memory and `sp`. */
module Environment {
  import opened Bits
  import opened Machine
  import opened Tables
  import opened Macros
  import opened BasicMacros
  import opened ShiftMacros
  import opened ShiftTables
  import opened CompareMacros
  import opened LogicMacros
  import opened Words
  import opened WordTypes

  /** The address ranges of the read-only tables. */
  predicate InTables(t: Layout, a: int) {
    || t.same <= a < t.same + 8
    || t.zero <= a < t.zero + 256
    || t.slt <= a < t.slt + 8
    || t.sltu <= a < t.sltu + 8
    || t.or1 <= a < t.or1 + 4
    || t.lut <= a < t.lut + LUT_SIZE
  }

  predicate InCheck(t: Layout, a: int) {
    t.check <= a < t.check + 256
  }

  /** The linker places every table inside the address space and the check array apart from them. */
  ghost predicate GoodLayout(t: Layout) {
    && t.check + 256 <= W && t.same + 8 <= W && t.zero + 256 <= W && t.slt + 8 <= W
    && t.sltu + 8 <= W && t.or1 + 4 <= W && t.lut + LUT_SIZE <= W
    && forall a: Word :: InCheck(t, a) ==> !InTables(t, a)
  }

  function LutImage(): (image: seq<Byte>)
    ensures |image| == LUT_SIZE
  {
    seq(LUT_SIZE, k requires 0 <= k < LUT_SIZE => LutByte(k))
  }

  /** Every table holds its contents; the big one holds exactly the generated file. */
  ghost predicate TablesLoaded(d: Data, t: Layout) {
    && Holds(d, t.same, SAME) && Holds(d, t.zero, ZeroTable())
    && Holds(d, t.slt, SLT1) && Holds(d, t.sltu, SLTU1) && Holds(d, t.or1, OR1)
    && Holds(d, t.lut, LutImage())
  }

  predicate InScratch(sp: Word, a: int) {
    sp - 28 <= a < sp
  }

  /** The 28 bytes below `sp` exist and are used for nothing else. */
  ghost predicate StackOk(sp: Word, t: Layout) {
    28 <= sp && forall a: Word :: InScratch(sp, a) ==> !InTables(t, a) && !InCheck(t, a)
  }

  ghost predicate Ready(d: Data, t: Layout) {
    GoodLayout(t) && StackOk(d.Get(SP), t) && TablesLoaded(d, t)
  }

  /** A range that avoids the scratch words lies on one side of them. */
  lemma RangeApart(sp: Word, base: Word, size: nat)
    requires 28 <= sp && base + size <= W && 0 < size
    requires forall a: Word :: InScratch(sp, a) ==> !(base <= a < base + size)
    ensures Apart(sp, base, size)
  {
    if base < sp && sp - 28 < base + size {
      var a := if base < sp - 28 then sp - 28 else base;
      assert InScratch(sp, a);
    }
  }

  lemma ReadyApart(d: Data, t: Layout)
    requires Ready(d, t)
    ensures var sp := d.Get(SP);
      && Apart(sp, t.check, 256) && Apart(sp, t.same, 8) && Apart(sp, t.zero, 256) && Apart(sp, t.slt, 8)
      && Apart(sp, t.sltu, 8) && Apart(sp, t.or1, 4) && Apart(sp, t.lut, LUT_SIZE)
  {
    var sp := d.Get(SP);
    RangeApart(sp, t.check, 256);
    RangeApart(sp, t.same, 8);
    RangeApart(sp, t.zero, 256);
    RangeApart(sp, t.slt, 8);
    RangeApart(sp, t.sltu, 8);
    RangeApart(sp, t.or1, 4);
    RangeApart(sp, t.lut, LUT_SIZE);
  }

  lemma HoldsSlice(d: Data, base: Word, bytes: seq<Byte>, off: nat, n: nat)
    requires Holds(d, base, bytes) && off + n <= |bytes| && base + off < W
    ensures Holds(d, base + off, bytes[off..off + n])
  {
  }

  lemma ApartSlice(sp: Word, base: Word, size: nat, off: nat, n: nat)
    requires Apart(sp, base, size) && off + n <= size && base + off < W
    ensures Apart(sp, base + off, n)
  {
  }

  /** Row `j` of a logic table. */
  function LogicRowBytes(op: BitOp, j: Byte): (row: seq<Byte>)
    ensures |row| == 256
  {
    LutImage()[LogicOffset(op) + 256 * j..LogicOffset(op) + 256 * j + 256]
  }

  /** The file's byte for row `j` and column `x` of a table of bitwise operations. */
  lemma LogicByte(op: BitOp, j: Byte, x: Byte)
    ensures LogicOffset(op) + 256 * j + x < LUT_SIZE
    ensures LutByte(LogicOffset(op) + 256 * j + x) == Bitwise(op, 8, j, x)
  {
    hide Bitwise;
    var k := LogicOffset(op) + 256 * j + x;
    assert LogicTable(k / 65536) == op && k % 65536 / 256 == j && k % 256 == x;
  }

  lemma LogicRowEntry(op: BitOp, j: Byte, x: Byte)
    ensures LogicRowBytes(op, j)[x] == Bitwise(op, 8, j, x)
  {
    hide Bitwise, LutByte;
    LogicByte(op, j, x);
  }

  function LogicTableImage(op: BitOp): (tab: seq<Byte>)
    ensures |tab| == 65536
  {
    LutImage()[LogicOffset(op)..LogicOffset(op) + 65536]
  }

  lemma LogicTableEntry(op: BitOp, x: Byte, y: Byte)
    ensures LogicTableImage(op)[256 * x + y] == Bitwise(op, 8, x, y)
  {
    hide Bitwise, LutByte;
    LogicByte(op, x, y);
  }

  /** The four table bytes make up the 32-bit result. */
  lemma BytewiseIsBitwise(op: BitOp, x: Word, y: Word)
    ensures Bytewise(LogicTableImage(op), x, y) == BitOp32(op, x, y)
    ensures Joins(op, 32, x, y, Bytewise(LogicTableImage(op), x, y))
  {
    hide LogicTableImage, Bitwise, Joins;
    BitwiseJoins(op, 32, x, y);
    var x0, x1, x2, x3 := ByteOf(x, 0), ByteOf(x, 1), ByteOf(x, 2), ByteOf(x, 3);
    var y0, y1, y2, y3 := ByteOf(y, 0), ByteOf(y, 1), ByteOf(y, 2), ByteOf(y, 3);
    LogicTableEntry(op, x0, y0);
    LogicTableEntry(op, x1, y1);
    LogicTableEntry(op, x2, y2);
    LogicTableEntry(op, x3, y3);
    assert Pow2(8) == 256;
    BitwiseSplit(op, 8, 24, x, x / 256, x0, y, y / 256, y0);
    BitwiseSplit(op, 8, 16, x / 256, x / 256 / 256, x1, y / 256, y / 256 / 256, y1);
    BitwiseSplit(op, 8, 8, x / 256 / 256, x3, x2, y / 256 / 256, y3, y2);
  }

  /** `not`'s table row is the byte complement. */
  lemma NotRow(d: Data, t: Layout)
    requires Ready(d, t)
    ensures NotReady(t, LogicRowBytes(Xor, 255), d)
  {
    NotRowBytes();
    NotRowHeld(d, t);
    hide LogicRowBytes, Holds, Apart, Ready;
  }

  lemma NotRowBytes()
    ensures forall x: Byte :: LogicRowBytes(Xor, 255)[x] == 255 - x
  {
    hide LogicRowBytes, Bitwise;
    assert Pow2(8) == 256;
    forall x: Byte
      ensures LogicRowBytes(Xor, 255)[x] == 255 - x
    {
      LogicRowEntry(Xor, 255, x);
      BitwiseOnes(8, x);
    }
  }

  lemma NotRowHeld(d: Data, t: Layout)
    requires Ready(d, t)
    ensures t.lut + LUT_SIZE <= W
    ensures Holds(d, LutAddr(t, LogicOffset(Xor) + 0xff00), LogicRowBytes(Xor, 255))
    ensures Apart(d.Get(SP), LutAddr(t, LogicOffset(Xor) + 0xff00), 256)
  {
    ReadyApart(d, t);
    var off := LogicOffset(Xor) + 0xff00;
    hide LutImage, Holds, Apart;
    HoldsSlice(d, t.lut, LutImage(), off, 256);
    ApartSlice(d.Get(SP), t.lut, LUT_SIZE, off, 256);
  }

  /** The shift-amount row is reduction modulo 32. */
  lemma ShamtRow(d: Data, t: Layout)
    requires Ready(d, t)
    ensures ShamtReady(t, LogicRowBytes(And, 31), d)
  {
    ReadyApart(d, t);
    var off := LogicOffset(And) + 0x1f00;
    HoldsSlice(d, t.lut, LutImage(), off, 256);
    ApartSlice(d.Get(SP), t.lut, LUT_SIZE, off, 256);
    forall x: Byte
      ensures LogicRowBytes(And, 31)[x] == x % 32
    {
      LogicRowEntry(And, 31, x);
      AndThirtyOne(x);
    }
  }

  lemma AndThirtyOne(x: Byte)
    ensures Bitwise(And, 8, 31, x) == x % 32
  {
    assert Pow2(5) == 32 && Pow2(3) == 8;
    BitwiseSplit(And, 5, 3, 31, 0, 31, x, x / 32, x % 32);
    BitwiseZeroRight(And, 3, x / 32);
    BitwiseOnes(5, x % 32);
  }

  function RowWords(k: Shift, s: nat): (words: seq<Word>)
    requires s < 32
    ensures IsRow(words, k, s)
  {
    seq(256, i requires 0 <= i < 256 => ShiftEntry(k, s, i))
  }

  lemma EntryByte(k: Shift, s: nat, i: Byte, off: nat, b: nat)
    requires s < 32 && b < 4 && off == ShiftOffset(k) + 1024 * s + 4 * (i as int)
    ensures off + b < LUT_SIZE && LutByte(off + b) == ByteOf(ShiftEntry(k, s, i), b)
  {
    hide ShiftEntry, ByteOf;
    var w := (off + b - 196608) / 4;
    assert w / 8192 == match k case Sll => 0 case Srl => 1 case Sra => 2;
    assert w % 8192 / 256 == s && w % 256 == i && (off + b) % 4 == b;
  }

  /** Four consecutive bytes of a word table are its entry. */
  lemma EntryLoaded(d: Data, t: Layout, k: Shift, s: nat, i: Byte)
    requires s < 32 && t.lut + LUT_SIZE <= W && Holds(d, t.lut, LutImage())
    ensures d.LoadWord(RowAddr(t, k, s) + 4 * (i as int)) == ShiftEntry(k, s, i)
  {
    hide ShiftEntry, LutByte, LutImage, ByteOf, Holds, Data.LoadWord;
    var off := ShiftOffset(k) + 1024 * s + 4 * (i as int);
    EntryByte(k, s, i, off, 0);
    EntryByte(k, s, i, off, 1);
    EntryByte(k, s, i, off, 2);
    EntryByte(k, s, i, off, 3);
    WordFromImage(d, t, off, ShiftEntry(k, s, i));
  }

  lemma WordFromImage(d: Data, t: Layout, off: nat, v: Word)
    requires t.lut + LUT_SIZE <= W && Holds(d, t.lut, LutImage()) && off + 3 < LUT_SIZE
    requires LutByte(off) == ByteOf(v, 0) && LutByte(off + 1) == ByteOf(v, 1)
    requires LutByte(off + 2) == ByteOf(v, 2) && LutByte(off + 3) == ByteOf(v, 3)
    ensures d.LoadWord(t.lut + off) == v
  {
    hide LutByte, LutImage, ByteOf;
    ImageByte(d, t, off);
    ImageByte(d, t, off + 1);
    ImageByte(d, t, off + 2);
    ImageByte(d, t, off + 3);
    WordLoaded(d, t.lut + off, ByteOf(v, 0), ByteOf(v, 1), ByteOf(v, 2), ByteOf(v, 3));
    WordBytes(v);
  }

  lemma ImageByte(d: Data, t: Layout, k: nat)
    requires t.lut + LUT_SIZE <= W && Holds(d, t.lut, LutImage()) && k < LUT_SIZE
    ensures d.Load(t.lut + k) == LutByte(k)
  {
    assert d.Load(t.lut + k) == LutImage()[k];
  }

  lemma RowLoaded(d: Data, t: Layout, k: Shift, s: nat)
    requires s < 32 && Ready(d, t)
    ensures RowReady(d, RowAddr(t, k, s), RowWords(k, s))
  {
    ReadyApart(d, t);
    ApartSlice(d.Get(SP), t.lut, LUT_SIZE, ShiftOffset(k) + 1024 * s, 1024);
    forall i | 0 <= i < 256
      ensures d.LoadWord(RowAddr(t, k, s) + 4 * i) == RowWords(k, s)[i]
    {
      EntryLoaded(d, t, k, s, i);
    }
  }
}
