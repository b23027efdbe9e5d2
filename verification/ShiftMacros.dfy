/** The shift macros: table rows of words, combined byte by byte. */
module ShiftMacros {
  import opened Bits
  import opened Machine
  import opened Tables
  import opened Macros
  import opened BasicMacros
  import opened Words
  import opened WordTypes

  /** A table row of words stored at `row`. */
  ghost predicate HoldsWords(d: Data, row: Word, words: seq<Word>) {
    row + 4 * |words| <= W && forall x :: 0 <= x < |words| ==> d.LoadWord(row + 4 * x) == words[x]
  }

  lemma HoldsWordsKept(d: Data, d': Data, row: Word, words: seq<Word>, lo: int, hi: int)
    requires HoldsWords(d, row, words) && MemKept(d, d', lo, hi)
    requires hi <= row || row + 4 * |words| <= lo
    ensures HoldsWords(d', row, words)
  {
    forall x | 0 <= x < |words|
      ensures d'.LoadWord(row + 4 * x) == words[x]
    {
      WordKept(d, d', row + 4 * x, lo, hi);
    }
  }

  lemma ShiftByteOk(base: Reg, k: nat, words: seq<Word>, d: Data) returns (d': Data)
    requires k < 4 && base != TP && 28 <= d.Get(SP)
    requires |words| == 256 && HoldsWords(d, d.Get(base), words)
    ensures d' == Run(ShiftByte(base, k), d)
    ensures d'.Get(TP) == words[d.Load(d.Get(SP) + A + k)]
    ensures forall r: Reg :: r != TP ==> d'.Get(r) == d.Get(r)
    ensures d'.mem == d.mem
  {
    hide Run, Slli, Shl, Data.LoadWord;
    var x: int := d.Load(d.Get(SP) + A + k);
    var d1 := Exec(Lbu(TP, SP, A + k), d);
    TimesFour(x);
    var d2 := SlliSmallOk(TP, TP, 2, d1);
    var d3 := Exec(Add(TP, base, TP), d2);
    SameMemory(d, d3);
    d' := Exec(Lw(TP, TP, 0), d3);
    assert d.LoadWord(d.Get(base) + 4 * x) == words[x];
    Run1(Lbu(TP, SP, A + k), d);
    Run2(Add(TP, base, TP), Lw(TP, TP, 0), d2);
    RunAppend([Lbu(TP, SP, A + k)] + Slli(TP, TP, 2), [Add(TP, base, TP), Lw(TP, TP, 0)], d);
    RunAppend([Lbu(TP, SP, A + k)], Slli(TP, TP, 2), d);
  }

  lemma GetshamtOk(t: Layout, rs1: Reg, tab: seq<Byte>, d: Data) returns (d': Data)
    requires 28 <= d.Get(SP) && t.lut + LUT_SIZE <= W
    requires |tab| == 256 && Holds(d, t.lut + 0x1f00, tab) && Apart(d.Get(SP), t.lut + 0x1f00, 256)
    ensures d' == Run(Getshamt(t, S0, rs1), d)
    ensures d'.Get(S0) == tab[d.Get(rs1) % 256]
    ensures forall r: Reg :: r != TP && r != S0 ==> d'.Get(r) == d.Get(r)
    ensures MemKept(d, d', d.Get(SP) + B, d.Get(SP) + A)
  {
    hide Run, La, Data.LoadWord;
    var sp, x := d.Get(SP), d.Get(rs1) % 256;
    var d1 := Exec(Sb(rs1, SP, B), d);
    HoldsKept(d, d1, t.lut + 0x1f00, tab, sp + B, sp + A);
    var d2 := Exec(Lbu(S0, SP, B), d1);
    var d3 := LaOk(TP, t.lut + 0x1f00, d2);
    var d4 := Exec(Add(S0, S0, TP), d3);
    SameMemory(d1, d4);
    d' := Exec(Lbu(S0, S0, 0), d4);
    SameMemory(d1, d');
    assert d1.Load(t.lut + 0x1f00 + x) == tab[x];
    Run2(Sb(rs1, SP, B), Lbu(S0, SP, B), d);
    Run2(Add(S0, S0, TP), Lbu(S0, S0, 0), d3);
    RunAppend([Sb(rs1, SP, B), Lbu(S0, SP, B)] + La(TP, t.lut + 0x1f00), [Add(S0, S0, TP), Lbu(S0, S0, 0)], d);
    RunAppend([Sb(rs1, SP, B), Lbu(S0, SP, B)], La(TP, t.lut + 0x1f00), d);
  }

  /** `s0` holds a shift amount; it is replaced by 1024 times that amount. */
  lemma ScaleOk(s: nat, d: Data) returns (d': Data)
    requires s < 32 && d.Get(S0) == s && 28 <= d.Get(SP)
    ensures d' == Run([Sw(X0, SP, B), Sb(S0, SP, B + 1), Lw(S0, SP, B)] + Slli(S0, S0, 2), d)
    ensures d'.Get(S0) == 1024 * s
    ensures forall r: Reg :: r != S0 ==> d'.Get(r) == d.Get(r)
    ensures MemKept(d, d', d.Get(SP) + B, d.Get(SP) + A)
  {
    hide Run, Slli, Shl, Data.LoadWord;
    var sp := d.Get(SP);
    var d1 := SwOk(X0, B, d);
    LoadedBytes(d1, sp + B, 0);
    var d2 := Exec(Sb(S0, SP, B + 1), d1);
    SmallWord(d2, sp + B, s);
    var d3 := Exec(Lw(S0, SP, B), d2);
    TimesFour(256 * s);
    d' := SlliSmallOk(S0, S0, 2, d3);
    SameMemory(d2, d');
    Run3(Sw(X0, SP, B), Sb(S0, SP, B + 1), Lw(S0, SP, B), d);
    RunAppend([Sw(X0, SP, B), Sb(S0, SP, B + 1), Lw(S0, SP, B)], Slli(S0, S0, 2), d);
  }

  lemma SmallWord(d: Data, a: int, s: nat)
    requires 0 <= a < W - 3 && s < 256
    requires d.Load(a) == ByteOf(0, 0) && d.Load(a + 1) == ByteOf(s, 0)
    requires d.Load(a + 2) == ByteOf(0, 2) && d.Load(a + 3) == ByteOf(0, 3)
    ensures d.LoadWord(a) == 256 * s
  {
    ZeroBytes();
    LowByte(s);
    hide ByteOf, Data.Load;
  }

  lemma ShiftRowOk(t: Layout, table: Shift, rs2: Reg, tab: seq<Byte>, d: Data) returns (d': Data)
    requires 28 <= d.Get(SP) && t.lut + LUT_SIZE <= W
    requires |tab| == 256 && Holds(d, t.lut + 0x1f00, tab) && Apart(d.Get(SP), t.lut + 0x1f00, 256)
    requires forall x: Byte :: tab[x] == x % 32
    ensures d' == Run(ShiftRow(t, table, rs2), d)
    ensures d'.Get(S0) == t.lut + ShiftOffset(table) + 1024 * (d.Get(rs2) % 32)
    ensures forall r: Reg :: r != TP && r != S0 ==> d'.Get(r) == d.Get(r)
    ensures MemKept(d, d', d.Get(SP) + B, d.Get(SP) + A)
  {
    hide Run, La, Slli, Getshamt, ShiftRow, Data.LoadWord;
    var d1 := GetshamtOk(t, rs2, tab, d);
    ModTwice(d.Get(rs2));
    var d2 := ScaleOk(d.Get(rs2) % 32, d1);
    var d3 := LaOk(TP, LutAddr(t, ShiftOffset(table)), d2);
    d' := Exec(Add(S0, S0, TP), d3);
    SameMemory(d2, d');
    ShiftRowCode(t, table, rs2, d, d2, d3);
  }

  lemma ModTwice(x: Word)
    ensures x % 256 % 32 == x % 32
  {
  }

  lemma ShiftRowCode(t: Layout, table: Shift, rs2: Reg, d: Data, d2: Data, d3: Data)
    requires d2 ==
      Run([Sw(X0, SP, B), Sb(S0, SP, B + 1), Lw(S0, SP, B)] + Slli(S0, S0, 2), Run(Getshamt(t, S0, rs2), d))
    requires d3 == Run(La(TP, LutAddr(t, ShiftOffset(table))), d2)
    ensures Run(ShiftRow(t, table, rs2), d) == Exec(Add(S0, S0, TP), d3)
  {
    hide Run, La, Slli, Getshamt, Exec, LutAddr;
    var a := LutAddr(t, ShiftOffset(table));
    Run1(Add(S0, S0, TP), d3);
    RunAppend(La(TP, a), [Add(S0, S0, TP)], d2);
    var scale := [Sw(X0, SP, B), Sb(S0, SP, B + 1), Lw(S0, SP, B)] + Slli(S0, S0, 2);
    RunAppend(Getshamt(t, S0, rs2) + scale, La(TP, a) + [Add(S0, S0, TP)], d);
    RunAppend(Getshamt(t, S0, rs2), scale, d);
  }

  /** `sh`, seen from outside its scratch word. */
  lemma ShOk(rs2: Reg, rs1: Reg, off: Imm12, d: Data) returns (d': Data)
    requires off < 2047 && rs1 != TP && 28 <= d.Get(SP)
    ensures d' == Run(Sh(rs2, rs1, off), d)
    ensures forall r: Reg :: r != TP ==> d'.Get(r) == d.Get(r)
    ensures forall a: Word :: !(d.Get(SP) + C <= a < d.Get(SP) + B) ==>
      d'.Load(a) == HalfStored(d, d.Addr(rs1, off), d.Addr(rs1, off + 1), d.Get(rs2), a)
  {
    hide Run, Getbyte, Data.LoadWord;
    var d1 := Exec(Sb(rs2, rs1, off), d);
    var d2 := GetbyteOk(TP, rs2, 1, d1);
    d' := Exec(Sb(TP, rs1, off + 1), d2);
    LowByte(ByteOf(d.Get(rs2), 1));
    Run1(Sb(rs2, rs1, off), d);
    Run1(Sb(TP, rs1, off + 1), d2);
    RunAppend([Sb(rs2, rs1, off)] + Getbyte(TP, rs2, 1), [Sb(TP, rs1, off + 1)], d);
    RunAppend([Sb(rs2, rs1, off)], Getbyte(TP, rs2, 1), d);
  }

  /** The byte at `a` after the halfword `v` is stored at `a0` and `a1`. */
  function HalfStored(d: Data, a0: Word, a1: Word, v: Word, a: Word): Byte {
    if a == a1 then ByteOf(v, 1) else if a == a0 then ByteOf(v, 0) else d.Load(a)
  }

  /** The shiftee is in VAR_A and `s0` points at its table row. */
  ghost predicate ShiftReady(d: Data, sp: Word, row: Word, words: seq<Word>, x: Word) {
    && d.Get(SP) == sp && d.Get(S0) == row
    && |words| == 256 && HoldsWords(d, row, words) && Apart(sp, row, 1024)
    && d.LoadWord(sp + A) == x
  }

  lemma ShiftReadyKept(d: Data, d': Data, sp: Word, row: Word, words: seq<Word>, x: Word)
    requires ShiftReady(d, sp, row, words, x) && MemKept(d, d', sp + D, sp + A)
    requires d'.Get(SP) == sp && d'.Get(S0) == row
    ensures ShiftReady(d', sp, row, words, x)
  {
    hide Data.LoadWord;
    HoldsWordsKept(d, d', row, words, sp + D, sp + A);
    WordKept(d, d', sp + A, sp + D, sp + A);
  }

  lemma FetchOk(k: nat, sp: Word, row: Word, words: seq<Word>, x: Word, d: Data) returns (d': Data)
    requires k < 4 && ShiftReady(d, sp, row, words, x)
    ensures d' == Run(ShiftByte(S0, k), d) && ShiftReady(d', sp, row, words, x)
    ensures d'.Get(TP) == words[ByteOf(x, k)]
    ensures forall r: Reg :: r != TP ==> d'.Get(r) == d.Get(r)
    ensures d'.mem == d.mem
  {
    hide Run, ShiftByte, ByteOf, Data.LoadWord;
    LoadedBytes(d, sp + A, x);
    d' := ShiftByteOk(S0, k, words, d);
    SameMemory(d, d');
    ShiftReadyKept(d, d', sp, row, words, x);
  }

  lemma SllByte3Ok(sp: Word, row: Word, words: seq<Word>, x: Word, d: Data) returns (d': Data)
    requires ShiftReady(d, sp, row, words, x)
    ensures d' == Run(SllByte3(), d) && ShiftReady(d', sp, row, words, x)
    ensures d'.Get(GP) == words[ByteOf(x, 3)] % 256 * 0x100_0000
    ensures forall r: Reg :: r != GP && r != TP ==> d'.Get(r) == d.Get(r)
    ensures d'.Load(sp + B) == ByteOf(0, 0) && d'.Load(sp + B + 1) == ByteOf(0, 1)
    ensures MemKept(d, d', sp + D, sp + A)
  {
    hide Run, ShiftByte, ByteOf, Data.LoadWord, WordOf;
    var d1 := SwOk(X0, B, d);
    ShiftReadyKept(d, d1, sp, row, words, x);
    LoadedBytes(d1, sp + B, 0);
    var d2 := FetchOk(3, sp, row, words, x, d1);
    SameMemory(d1, d2);
    var d3 := Exec(Sb(TP, SP, B + 3), d2);
    TopWord(d3, sp + B, words[ByteOf(x, 3)]);
    d' := Exec(Lw(GP, SP, B), d3);
    SameMemory(d3, d');
    ShiftReadyKept(d2, d', sp, row, words, x);
    Run1(Sw(X0, SP, B), d);
    Run2(Sb(TP, SP, B + 3), Lw(GP, SP, B), d2);
    RunAppend([Sw(X0, SP, B)] + ShiftByte(S0, 3), [Sb(TP, SP, B + 3), Lw(GP, SP, B)], d);
    RunAppend([Sw(X0, SP, B)], ShiftByte(S0, 3), d);
  }

  lemma TopWord(d: Data, a: int, v: Word)
    requires 0 <= a < W - 3
    requires d.Load(a) == ByteOf(0, 0) && d.Load(a + 1) == ByteOf(0, 1) && d.Load(a + 2) == ByteOf(0, 2)
    requires d.Load(a + 3) == ByteOf(v, 0)
    ensures d.LoadWord(a) == v % 256 * 0x100_0000
  {
  }

  lemma HighWord(d: Data, a: int, v: Word)
    requires 0 <= a < W - 3
    requires d.Load(a) == ByteOf(0, 0) && d.Load(a + 1) == ByteOf(0, 1)
    requires d.Load(a + 2) == ByteOf(v, 0) && d.Load(a + 3) == ByteOf(v, 1)
    ensures d.LoadWord(a) == v % 65536 * 65536
  {
    LowHalf(v);
    hide ByteOf, Data.Load;
  }

  lemma LowHalf(v: Word)
    ensures ByteOf(0, 0) == 0 && ByteOf(0, 1) == 0
    ensures v % 65536 == ByteOf(v, 0) + 256 * (ByteOf(v, 1) as int)
  {
    var q := v / 256;
    DivMod(v, 256);
    DivMod(q, 256);
    DivModUnique(v, 65536, q / 256, 256 * (q % 256) + v % 256);
  }

  lemma SllByte2Ok(sp: Word, row: Word, words: seq<Word>, x: Word, d: Data) returns (d': Data)
    requires ShiftReady(d, sp, row, words, x)
    requires d.Load(sp + B) == ByteOf(0, 0) && d.Load(sp + B + 1) == ByteOf(0, 1)
    ensures d' == Run(SllByte2(), d) && ShiftReady(d', sp, row, words, x)
    ensures d'.Get(GP) == Wrap(d.Get(GP) + words[ByteOf(x, 2)] % 65536 * 65536)
    ensures forall r: Reg :: r != GP && r != TP ==> d'.Get(r) == d.Get(r)
    ensures MemKept(d, d', sp + D, sp + A)
  {
    hide Run, ShiftByte, Sh, ByteOf, Data.LoadWord, WordOf;
    var d1 := FetchOk(2, sp, row, words, x, d);
    SameMemory(d, d1);
    var v := words[ByteOf(x, 2)];
    var d2 := ShOk(TP, SP, B + 2, d1);
    HighWord(d2, sp + B, v);
    var d3 := Exec(Lw(TP, SP, B), d2);
    d' := Exec(Add(GP, GP, TP), d3);
    SameMemory(d2, d');
    ShiftReadyKept(d1, d', sp, row, words, x);
    Run2(Lw(TP, SP, B), Add(GP, GP, TP), d2);
    RunAppend(ShiftByte(S0, 2) + Sh(TP, SP, B + 2), [Lw(TP, SP, B), Add(GP, GP, TP)], d);
    RunAppend(ShiftByte(S0, 2), Sh(TP, SP, B + 2), d);
  }

  lemma SllByte1Ok(sp: Word, row: Word, words: seq<Word>, x: Word, d: Data) returns (d': Data)
    requires ShiftReady(d, sp, row, words, x)
    ensures d' == Run(SllByte1(), d) && ShiftReady(d', sp, row, words, x)
    ensures d'.Get(GP) == Wrap(d.Get(GP) + words[ByteOf(x, 1)] * 256 % W)
    ensures forall r: Reg :: r != GP && r != TP ==> d'.Get(r) == d.Get(r)
    ensures MemKept(d, d', sp + D, sp + A)
  {
    hide Run, ShiftByte, Slli, ByteOf, Data.LoadWord;
    var d1 := FetchOk(1, sp, row, words, x, d);
    assert Pow2(8) == 256;
    var d2 := SlliSmallOk(TP, TP, 8, d1);
    d' := Exec(Add(GP, GP, TP), d2);
    SameMemory(d, d');
    ShiftReadyKept(d, d', sp, row, words, x);
    Run1(Add(GP, GP, TP), d2);
    RunAppend(ShiftByte(S0, 1) + Slli(TP, TP, 8), [Add(GP, GP, TP)], d);
    RunAppend(ShiftByte(S0, 1), Slli(TP, TP, 8), d);
  }

  /** The sum the `sll` macro computes from its four table words. */
  function SllSum(words: seq<Word>, x: Word): Word
    requires |words| == 256
  {
    var y3: int := words[ByteOf(x, 3)] % 256 * 0x100_0000;
    var y32: int := Wrap(y3 + words[ByteOf(x, 2)] % 65536 * 65536);
    var y321: int := Wrap(y32 + words[ByteOf(x, 1)] * 256 % W);
    Wrap(y321 + words[ByteOf(x, 0)])
  }

  lemma SllBytesOk(sp: Word, row: Word, words: seq<Word>, x: Word, d: Data) returns (d': Data)
    requires |words| == 256 && ShiftReady(d, sp, row, words, x)
    ensures d' == Run(SllBytes(), d)
    ensures Wrap(d'.Get(GP) + d'.Get(TP)) == SllSum(words, x)
    ensures forall r: Reg :: r != GP && r != TP ==> d'.Get(r) == d.Get(r)
    ensures MemKept(d, d', sp + D, sp + A)
  {
    hide Run, SllByte3, SllByte2, SllByte1, ShiftByte, ShiftReady, ByteOf, Data.LoadWord;
    var d1 := SllByte3Ok(sp, row, words, x, d);
    var d2 := SllByte2Ok(sp, row, words, x, d1);
    var d3 := SllByte1Ok(sp, row, words, x, d2);
    d' := FetchOk(0, sp, row, words, x, d3);
    SameMemory(d3, d');
    RunAppend(SllByte3() + SllByte2() + SllByte1(), ShiftByte(S0, 0), d);
    RunAppend(SllByte3() + SllByte2(), SllByte1(), d);
    RunAppend(SllByte3(), SllByte2(), d);
  }

  /** Saves `s0`, puts the shiftee into VAR_A. */
  lemma ShiftStartOk(rs1: Reg, d: Data) returns (d': Data)
    requires 28 <= d.Get(SP)
    ensures d' == Run([Sw(S0, SP, SAVE1), Sw(rs1, SP, A)], d)
    ensures forall r: Reg :: d'.Get(r) == d.Get(r)
    ensures d'.LoadWord(d.Get(SP) + A) == d.Get(rs1) && d'.LoadWord(d.Get(SP) + SAVE1) == d.Get(S0)
    ensures MemKept(d, d', d.Get(SP) + D, d.Get(SP))
  {
    hide Run, Data.LoadWord;
    var sp := d.Get(SP);
    var d1 := SwOk(S0, SAVE1, d);
    d' := SwOk(rs1, A, d1);
    WordKept(d1, d', sp + SAVE1, sp + A, sp + SAVE3);
    Run2(Sw(S0, SP, SAVE1), Sw(rs1, SP, A), d);
  }

  /** Restores `s0` and adds the two summands. */
  lemma ShiftEndOk(rd: Reg, d: Data) returns (d': Data)
    requires 28 <= d.Get(SP)
    ensures d' == Run([Lw(S0, SP, SAVE1), Add(rd, GP, TP)], d)
    ensures rd != X0 ==> d'.Get(rd) == Wrap(d.Get(GP) + d.Get(TP))
    ensures rd != S0 ==> d'.Get(S0) == d.LoadWord(d.Get(SP) + SAVE1)
    ensures forall r: Reg :: r != rd && r != S0 ==> d'.Get(r) == d.Get(r)
    ensures d'.mem == d.mem
  {
    hide Run, Data.LoadWord;
    Run2(Lw(S0, SP, SAVE1), Add(rd, GP, TP), d);
    d' := Exec(Add(rd, GP, TP), Exec(Lw(S0, SP, SAVE1), d));
  }

  /** The row of the look-up table the macros select for shift amount `s`. */
  function RowAddr(t: Layout, table: Shift, s: nat): int {
    t.lut + ShiftOffset(table) + 1024 * s
  }

  /** The table that reduces a shift amount modulo 32 is in place. */
  ghost predicate ShamtReady(t: Layout, tab: seq<Byte>, d: Data) {
    && 28 <= d.Get(SP) && t.lut + LUT_SIZE <= W
    && |tab| == 256 && Holds(d, t.lut + 0x1f00, tab) && Apart(d.Get(SP), t.lut + 0x1f00, 256)
    && forall x: Byte :: tab[x] == x % 32
  }

  ghost predicate RowReady(d: Data, row: int, words: seq<Word>) {
    |words| == 256 && 0 <= row < W && HoldsWords(d, row, words) && Apart(d.Get(SP), row, 1024)
  }

  lemma SllMacroOk(t: Layout, rd: Reg, rs1: Reg, rs2: Reg, tab: seq<Byte>, words: seq<Word>, d: Data) returns (d': Data)
    requires ShamtReady(t, tab, d) && RowReady(d, RowAddr(t, Sll, d.Get(rs2) % 32), words)
    ensures d' == Run(SllMacro(t, rd, rs1, rs2), d)
    ensures rd != X0 ==> d'.Get(rd) == SllSum(words, d.Get(rs1))
    ensures forall r: Reg :: r != rd && r != GP && r != TP ==> d'.Get(r) == d.Get(r)
    ensures MemKept(d, d', d.Get(SP) + D, d.Get(SP))
  {
    hide Run, ShiftRow, SllBytes, SllSum, Data.LoadWord;
    var sp, row := d.Get(SP), RowAddr(t, Sll, d.Get(rs2) % 32);
    var d1 := ShiftStartOk(rs1, d);
    HoldsKept(d, d1, t.lut + 0x1f00, tab, sp + D, sp);
    HoldsWordsKept(d, d1, row, words, sp + D, sp);
    var d2 := ShiftRowOk(t, Sll, rs2, tab, d1);
    HoldsWordsKept(d1, d2, row, words, sp + B, sp + A);
    WordKept(d1, d2, sp + A, sp + B, sp + A);
    WordKept(d1, d2, sp + SAVE1, sp + B, sp + A);
    var d3 := SllBytesOk(sp, row, words, d.Get(rs1), d2);
    WordKept(d2, d3, sp + SAVE1, sp + D, sp + A);
    d' := ShiftEndOk(rd, d3);
    SameMemory(d3, d');
    var first, last := [Sw(S0, SP, SAVE1), Sw(rs1, SP, A)], [Lw(S0, SP, SAVE1), Add(rd, GP, TP)];
    RunAppend(first + ShiftRow(t, Sll, rs2) + SllBytes(), last, d);
    RunAppend(first + ShiftRow(t, Sll, rs2), SllBytes(), d);
    RunAppend(first, ShiftRow(t, Sll, rs2), d);
  }

  lemma FetchLowOk(sp: Word, row: Word, words: seq<Word>, x: Word, d: Data) returns (d': Data)
    requires |words| == 256 && ShiftReady(d, sp, row, words, x)
    ensures d' == Run(FetchLow(), d) && ShiftReady(d', sp, row, words, x)
    ensures d'.LoadWord(sp + B) == words[ByteOf(x, 2)]
    ensures d'.LoadWord(sp + C) == words[ByteOf(x, 1)]
    ensures d'.LoadWord(sp + D) == words[ByteOf(x, 0)]
    ensures forall r: Reg :: r != TP ==> d'.Get(r) == d.Get(r)
    ensures MemKept(d, d', sp + D, sp + A)
  {
    hide Run, ShiftByte, ByteOf, Data.LoadWord;
    var d1 := FetchOk(2, sp, row, words, x, d);
    var d2 := SwOk(TP, B, d1);
    SameMemory(d, d1);
    ShiftReadyKept(d1, d2, sp, row, words, x);
    var d3 := FetchOk(1, sp, row, words, x, d2);
    var d4 := SwOk(TP, C, d3);
    SameMemory(d2, d3);
    ShiftReadyKept(d3, d4, sp, row, words, x);
    WordKept(d3, d4, sp + B, sp + C, sp + B);
    var d5 := FetchOk(0, sp, row, words, x, d4);
    d' := SwOk(TP, D, d5);
    SameMemory(d4, d5);
    ShiftReadyKept(d5, d', sp, row, words, x);
    WordKept(d5, d', sp + B, sp + D, sp + C);
    WordKept(d5, d', sp + C, sp + D, sp + C);
    Run1(Sw(TP, SP, B), d1);
    Run1(Sw(TP, SP, C), d3);
    Run1(Sw(TP, SP, D), d5);
    RunAppend(ShiftByte(S0, 2), [Sw(TP, SP, B)], d);
    RunAppend(ShiftByte(S0, 1), [Sw(TP, SP, C)], d2);
    RunAppend(ShiftByte(S0, 0), [Sw(TP, SP, D)], d4);
    var y, z := ShiftByte(S0, 2) + [Sw(TP, SP, B)], ShiftByte(S0, 1) + [Sw(TP, SP, C)];
    RunAppend(y + z, ShiftByte(S0, 0) + [Sw(TP, SP, D)], d);
    RunAppend(y, z, d);
  }

  lemma LowByte0Ok(u: Word, v: Word, w: Word, d: Data) returns (d': Data)
    requires 28 <= d.Get(SP)
    requires d.LoadWord(d.Get(SP) + B) == u && d.LoadWord(d.Get(SP) + C) == v && d.LoadWord(d.Get(SP) + D) == w
    ensures d' == Run(LowByte0(), d)
    ensures d'.LoadWord(d.Get(SP) + D) == Sum0(u, v, w)
    ensures forall r: Reg :: r != GP && r != TP ==> d'.Get(r) == d.Get(r)
    ensures MemKept(d, d', d.Get(SP) + D, d.Get(SP) + C)
  {
    hide Run, ByteOf, Data.LoadWord;
    var sp := d.Get(SP);
    LoadedBytes(d, sp + B, u);
    LoadedBytes(d, sp + C, v);
    LoadedBytes(d, sp + D, w);
    var d1 := Exec(Lbu(GP, SP, B + 1), d);
    var d2 := Exec(Lbu(TP, SP, C + 2), d1);
    var d3 := Exec(Add(GP, GP, TP), d2);
    SameMemory(d, d3);
    var d4 := Exec(Lbu(TP, SP, D + 3), d3);
    var d5 := Exec(Add(GP, GP, TP), d4);
    SameMemory(d, d5);
    d' := SwOk(GP, D, d5);
    Run3(Lbu(GP, SP, B + 1), Lbu(TP, SP, C + 2), Add(GP, GP, TP), d);
    Run3(Lbu(TP, SP, D + 3), Add(GP, GP, TP), Sw(GP, SP, D), d3);
    RunAppend([Lbu(GP, SP, B + 1), Lbu(TP, SP, C + 2), Add(GP, GP, TP)],
      [Lbu(TP, SP, D + 3), Add(GP, GP, TP), Sw(GP, SP, D)], d);
  }

  /** The byte sums of the right shift, before anything is said about carries. */
  function Sum0(u: Word, v: Word, w: Word): Word {
    var b1: int, b2: int, b3: int := ByteOf(u, 1), ByteOf(v, 2), ByteOf(w, 3);
    b1 + b2 + b3
  }

  function Sum1(u: Word, v: Word): Word {
    var b2: int, b3: int := ByteOf(u, 2), ByteOf(v, 3);
    b2 + b3
  }

  lemma LowByte1Ok(u: Word, v: Word, s: Word, d: Data) returns (d': Data)
    requires 28 <= d.Get(SP)
    requires d.LoadWord(d.Get(SP) + B) == u && d.LoadWord(d.Get(SP) + C) == v && d.LoadWord(d.Get(SP) + D) == s
    ensures d' == Run(LowByte1(), d)
    ensures d'.Load(d.Get(SP) + D) == ByteOf(s, 0) && d'.Load(d.Get(SP) + D + 1) == ByteOf(Sum1(u, v), 0)
    ensures d'.Load(d.Get(SP) + D + 3) == ByteOf(s, 3)
    ensures forall r: Reg :: r != GP && r != TP ==> d'.Get(r) == d.Get(r)
    ensures MemKept(d, d', d.Get(SP) + D, d.Get(SP) + C)
  {
    hide Run, ByteOf, Data.LoadWord;
    var sp := d.Get(SP);
    LoadedBytes(d, sp + B, u);
    LoadedBytes(d, sp + C, v);
    LoadedBytes(d, sp + D, s);
    var d1 := Exec(Lbu(GP, SP, B + 2), d);
    var d2 := Exec(Lbu(TP, SP, C + 3), d1);
    var d3 := Exec(Add(GP, GP, TP), d2);
    SameMemory(d, d3);
    d' := Exec(Sb(GP, SP, D + 1), d3);
    Run4(Lbu(GP, SP, B + 2), Lbu(TP, SP, C + 3), Add(GP, GP, TP), Sb(GP, SP, D + 1), d);
  }

  /** What `gp` holds after the three low bytes have been combined. */
  function LowPart(u: Word, v: Word, w: Word): Word {
    WordOf(ByteOf(Sum0(u, v, w), 0), ByteOf(Sum1(u, v), 0), ByteOf(u, 3), ByteOf(Sum0(u, v, w), 3))
  }

  lemma LowBytesOk(u: Word, v: Word, w: Word, d: Data) returns (d': Data)
    requires 28 <= d.Get(SP)
    requires d.LoadWord(d.Get(SP) + B) == u && d.LoadWord(d.Get(SP) + C) == v && d.LoadWord(d.Get(SP) + D) == w
    ensures d' == Run(LowBytes(), d)
    ensures d'.Get(GP) == LowPart(u, v, w)
    ensures forall r: Reg :: r != GP && r != TP ==> d'.Get(r) == d.Get(r)
    ensures MemKept(d, d', d.Get(SP) + D, d.Get(SP) + C)
  {
    hide Run, LowByte0, LowByte1, ByteOf, WordOf, Sum0, Sum1, Data.LoadWord;
    var sp := d.Get(SP);
    var d1 := LowByte0Ok(u, v, w, d);
    WordKept(d, d1, sp + B, sp + D, sp + C);
    WordKept(d, d1, sp + C, sp + D, sp + C);
    var d2 := LowByte1Ok(u, v, Sum0(u, v, w), d1);
    WordKept(d1, d2, sp + B, sp + D, sp + C);
    LoadedBytes(d2, sp + B, u);
    var d3 := Exec(Lbu(GP, SP, B + 3), d2);
    SameMemory(d2, d3);
    var d4 := Exec(Sb(GP, SP, D + 2), d3);
    LowByte(ByteOf(u, 3));
    LoadedWord(d4, sp + D);
    d' := Exec(Lw(GP, SP, D), d4);
    SameMemory(d4, d');
    Run3(Lbu(GP, SP, B + 3), Sb(GP, SP, D + 2), Lw(GP, SP, D), d2);
    RunAppend(LowByte0() + LowByte1(), [Lbu(GP, SP, B + 3), Sb(GP, SP, D + 2), Lw(GP, SP, D)], d);
    RunAppend(LowByte0(), LowByte1(), d);
  }

  /** The sum the right-shift macro computes; the top word comes from its own row. */
  function RightSum(words: seq<Word>, top: seq<Word>, x: Word): Word
    requires |words| == 256 && |top| == 256
  {
    Wrap(LowPart(words[ByteOf(x, 2)], words[ByteOf(x, 1)], words[ByteOf(x, 0)]) + top[ByteOf(x, 3)])
  }

  function TopOffset(arith: bool): int {
    if arith then 32768 else 0
  }

  lemma SelectTopOk(arith: bool, d: Data) returns (d': Data)
    requires d.Get(S0) + TopOffset(arith) < W
    ensures d' == Run(SelectTop(arith), d)
    ensures d'.Get(S0) == d.Get(S0) + TopOffset(arith)
    ensures forall r: Reg :: r != S0 && r != TP ==> d'.Get(r) == d.Get(r)
    ensures d'.mem == d.mem
  {
    if arith {
      hide Run, La;
      var d1 := LaOk(TP, ShiftOffset(Sra) - ShiftOffset(Srl), d);
      d' := Exec(Add(S0, S0, TP), d1);
      Run1(Add(S0, S0, TP), d1);
      RunAppend(La(TP, ShiftOffset(Sra) - ShiftOffset(Srl)), [Add(S0, S0, TP)], d);
    } else {
      d' := d;
    }
  }

  lemma ShiftRightBytesOk(arith: bool, sp: Word, row: Word, words: seq<Word>, top: seq<Word>, x: Word, d: Data)
    returns (d': Data)
    requires |words| == 256 && ShiftReady(d, sp, row, words, x)
    requires RowReady(d, row + TopOffset(arith), top)
    ensures d' == Run(ShiftRightBytes(arith), d)
    ensures Wrap(d'.Get(GP) + d'.Get(TP)) == RightSum(words, top, x)
    ensures forall r: Reg :: r != GP && r != TP && r != S0 ==> d'.Get(r) == d.Get(r)
    ensures MemKept(d, d', sp + D, sp + A)
  {
    hide Run, FetchLow, LowBytes, SelectTop, ShiftByte, LowPart, ByteOf, Data.LoadWord;
    var u, v, w := words[ByteOf(x, 2)], words[ByteOf(x, 1)], words[ByteOf(x, 0)];
    var row2 := row + TopOffset(arith);
    var d1 := FetchLowOk(sp, row, words, x, d);
    var d2 := LowBytesOk(u, v, w, d1);
    var d3 := SelectTopOk(arith, d2);
    SameMemory(d2, d3);
    HoldsWordsKept(d, d3, row2, top, sp + D, sp + A);
    WordKept(d1, d3, sp + A, sp + D, sp + A);
    assert ShiftReady(d3, sp, row2, top, x);
    d' := FetchOk(3, sp, row2, top, x, d3);
    SameMemory(d3, d');
    RunAppend(FetchLow() + LowBytes() + SelectTop(arith), ShiftByte(S0, 3), d);
    RunAppend(FetchLow() + LowBytes(), SelectTop(arith), d);
    RunAppend(FetchLow(), LowBytes(), d);
  }

  function AmountOf(amount: Amount, d: Data): nat {
    match amount case InReg(r) => d.Get(r) % 32 case Imm(n) => n
  }

  function TopTable(arith: bool): Shift {
    if arith then Sra else Srl
  }

  /** The general right shift; immediate amounts other than 24 and register amounts take this path. */
  lemma ShiftRightOk(t: Layout, rd: Reg, rs1: Reg, amount: Amount, arith: bool,
                     tab: seq<Byte>, words: seq<Word>, top: seq<Word>, d: Data) returns (d': Data)
    requires (amount.Imm? ==> amount.n < 32) && amount != Imm(24)
    requires ShamtReady(t, tab, d)
    requires RowReady(d, RowAddr(t, Srl, AmountOf(amount, d)), words)
    requires RowReady(d, RowAddr(t, TopTable(arith), AmountOf(amount, d)), top)
    ensures d' == Run(ShiftRight(t, rd, rs1, amount, arith), d)
    ensures rd != X0 ==> d'.Get(rd) == RightSum(words, top, d.Get(rs1))
    ensures forall r: Reg :: r != rd && r != GP && r != TP ==> d'.Get(r) == d.Get(r)
    ensures MemKept(d, d', d.Get(SP) + D, d.Get(SP))
  {
    hide Run, ShiftRow, La, ShiftRightBytes, RightSum, Data.LoadWord;
    var sp, s := d.Get(SP), AmountOf(amount, d);
    var row, row2 := RowAddr(t, Srl, s), RowAddr(t, TopTable(arith), s);
    var d1 := ShiftStartOk(rs1, d);
    HoldsKept(d, d1, t.lut + 0x1f00, tab, sp + D, sp);
    var d2 := SelectRowOk(t, amount, tab, d1);
    HoldsWordsKept(d, d2, row, words, sp + D, sp);
    HoldsWordsKept(d, d2, row2, top, sp + D, sp);
    WordKept(d1, d2, sp + A, sp + B, sp + A);
    WordKept(d1, d2, sp + SAVE1, sp + B, sp + A);
    var d3 := ShiftRightBytesOk(arith, sp, row, words, top, d.Get(rs1), d2);
    WordKept(d2, d3, sp + SAVE1, sp + D, sp + A);
    d' := ShiftEndOk(rd, d3);
    SameMemory(d3, d');
    var first, last := [Sw(S0, SP, SAVE1), Sw(rs1, SP, A)], [Lw(S0, SP, SAVE1), Add(rd, GP, TP)];
    var select := SelectRow(t, amount);
    RunAppend(first + select + ShiftRightBytes(arith), last, d);
    RunAppend(first + select, ShiftRightBytes(arith), d);
    RunAppend(first, select, d);
  }

  lemma SelectRowOk(t: Layout, amount: Amount, tab: seq<Byte>, d: Data) returns (d': Data)
    requires (amount.Imm? ==> amount.n < 32) && ShamtReady(t, tab, d)
    ensures d' == Run(SelectRow(t, amount), d)
    ensures d'.Get(S0) == RowAddr(t, Srl, AmountOf(amount, d))
    ensures forall r: Reg :: r != TP && r != S0 ==> d'.Get(r) == d.Get(r)
    ensures MemKept(d, d', d.Get(SP) + B, d.Get(SP) + A)
  {
    hide Run, ShiftRow, La;
    match amount
    case InReg(r) =>
      d' := ShiftRowOk(t, Srl, r, tab, d);
    case Imm(n) =>
      d' := LaOk(S0, LutAddr(t, ShiftOffset(Srl) + n * 1024), d);
      SameMemory(d, d');
  }

  /** The fast path of an arithmetic shift by 24. */
  lemma FastSraOk(t: Layout, rd: Reg, rs1: Reg, top: seq<Word>, d: Data) returns (d': Data)
    requires rd != TP && 28 <= d.Get(SP) && t.lut + LUT_SIZE <= W
    requires RowReady(d, RowAddr(t, Sra, 24), top)
    ensures d' == Run(ShiftRight(t, rd, rs1, Imm(24), true), d)
    ensures rd != X0 ==> d'.Get(rd) == top[ByteOf(d.Get(rs1), 3)]
    ensures forall r: Reg :: r != rd && r != TP ==> d'.Get(r) == d.Get(r)
    ensures MemKept(d, d', d.Get(SP) + D, d.Get(SP))
  {
    hide Run, La, Slli, Exec, Data.LoadWord, ByteOf, ShiftRight;
    var sp, x := d.Get(SP), d.Get(rs1);
    var row := LutAddr(t, ShiftOffset(Sra) + 24 * 1024);
    var d1 := SwOk(rs1, A, d);
    LoadedBytes(d1, sp + A, x);
    HoldsWordsKept(d, d1, row, top, sp + D, sp);
    var d2 := LaOk(TP, row, d1);
    SameMemory(d1, d2);
    var d4;
    d4, d' := TopEntryOk(rd, ByteOf(x, 3), row, d2);
    SameMemory(d1, d');
    var b: int := ByteOf(x, 3);
    assert d1.LoadWord(row + 4 * b) == top[b];
    FastSraCode(t, rd, rs1, d, d2, d4);
  }

  /** The byte at the top of VAR_A selects a word of the row that `tp` points to. */
  lemma TopEntryOk(rd: Reg, b: Byte, row: Word, d: Data) returns (d4: Data, d': Data)
    requires rd != TP && d.Load(d.Addr(SP, A + 3)) == b && d.Get(TP) == row && row + 4 * b < W
    ensures d4 == Run(Slli(rd, rd, 2), Exec(Lbu(rd, SP, A + 3), d))
    ensures d' == Exec(Lw(rd, TP, 0), Exec(Add(TP, TP, rd), d4)) && d'.mem == d.mem
    ensures rd != X0 ==> d'.Get(rd) == d.LoadWord(row + 4 * b)
    ensures forall r: Reg :: r != rd && r != TP ==> d'.Get(r) == d.Get(r)
  {
    hide Run, Slli, Shl, Data.LoadWord;
    var d3 := Exec(Lbu(rd, SP, A + 3), d);
    TimesFour(b);
    d4 := SlliSmallOk(rd, rd, 2, d3);
    var d5 := Exec(Add(TP, TP, rd), d4);
    SameMemory(d, d5);
    d' := Exec(Lw(rd, TP, 0), d5);
  }

  lemma FastSraCode(t: Layout, rd: Reg, rs1: Reg, d: Data, d2: Data, d4: Data)
    requires d2 == Run(La(TP, LutAddr(t, ShiftOffset(Sra) + 24 * 1024)), Exec(Sw(rs1, SP, A), d))
    requires d4 == Run(Slli(rd, rd, 2), Exec(Lbu(rd, SP, A + 3), d2))
    ensures Run(ShiftRight(t, rd, rs1, Imm(24), true), d) == Exec(Lw(rd, TP, 0), Exec(Add(TP, TP, rd), d4))
  {
    hide Run, La, Slli, Exec, LutAddr;
    var row := LutAddr(t, ShiftOffset(Sra) + 24 * 1024);
    Run1(Sw(rs1, SP, A), d);
    Run1(Lbu(rd, SP, A + 3), d2);
    Run2(Add(TP, TP, rd), Lw(rd, TP, 0), d4);
    RunAppend([Lbu(rd, SP, A + 3)] + Slli(rd, rd, 2), [Add(TP, TP, rd), Lw(rd, TP, 0)], d2);
    RunAppend([Lbu(rd, SP, A + 3)], Slli(rd, rd, 2), d2);
    RunAppend([Sw(rs1, SP, A)] + La(TP, row), FastSra(rd), d);
    RunAppend([Sw(rs1, SP, A)], La(TP, row), d);
  }

  lemma SlliTopOk(rd: Reg, rs1: Reg, d: Data) returns (d': Data)
    requires 28 <= d.Get(SP)
    ensures d' == Run([Sw(X0, SP, A), Sb(rs1, SP, A + 3), Lw(rd, SP, A)], d)
    ensures forall r: Reg :: d'.Get(r) == if r == rd && rd != X0 then d.Get(rs1) % 256 * 0x100_0000 else d.Get(r)
    ensures MemKept(d, d', d.Get(SP) + D, d.Get(SP))
  {
    hide Run, Data.LoadWord, ByteOf;
    var sp := d.Get(SP);
    var d1 := SwOk(X0, A, d);
    LoadedBytes(d1, sp + A, 0);
    var d2 := Exec(Sb(rs1, SP, A + 3), d1);
    TopWord(d2, sp + A, d.Get(rs1));
    d' := Exec(Lw(rd, SP, A), d2);
    SameMemory(d2, d');
    Run3(Sw(X0, SP, A), Sb(rs1, SP, A + 3), Lw(rd, SP, A), d);
  }

  lemma SlliHighOk(rd: Reg, rs1: Reg, d: Data) returns (d': Data)
    requires 28 <= d.Get(SP) && rs1 != TP
    ensures d' == Run([Sw(X0, SP, A)] + Sh(rs1, SP, A + 2) + [Lw(rd, SP, A)], d)
    ensures forall r: Reg :: r != TP || rd == TP ==>
      d'.Get(r) == if r == rd && rd != X0 then d.Get(rs1) % 65536 * 65536 else d.Get(r)
    ensures MemKept(d, d', d.Get(SP) + D, d.Get(SP))
  {
    hide Run, Sh, Data.LoadWord, ByteOf;
    var sp := d.Get(SP);
    var d1 := SwOk(X0, A, d);
    LoadedBytes(d1, sp + A, 0);
    var d2 := ShOk(rs1, SP, A + 2, d1);
    HighWord(d2, sp + A, d.Get(rs1));
    d' := Exec(Lw(rd, SP, A), d2);
    SameMemory(d2, d');
    Run1(Sw(X0, SP, A), d);
    Run1(Lw(rd, SP, A), d2);
    RunAppend([Sw(X0, SP, A)] + Sh(rs1, SP, A + 2), [Lw(rd, SP, A)], d);
    RunAppend([Sw(X0, SP, A)], Sh(rs1, SP, A + 2), d);
  }

  /** `slli` for every immediate. */
  lemma SlliOk(rd: Reg, rs1: Reg, n: nat, d: Data) returns (d': Data)
    requires n < 32 && 28 <= d.Get(SP) && rd != TP && rs1 != TP
    ensures d' == Run(Slli(rd, rs1, n), d)
    ensures rd != X0 ==> d'.Get(rd) == ShiftWord(Sll, d.Get(rs1), n)
    ensures forall r: Reg :: r != rd && r != TP ==> d'.Get(r) == d.Get(r)
    ensures MemKept(d, d', d.Get(SP) + D, d.Get(SP))
  {
    if n == 0 {
      Run1(Addi(rd, rs1, 0), d);
      d' := Run(Slli(rd, rs1, n), d);
      SameMemory(d, d');
    } else if n >= 16 {
      d' := SlliLongOk(rd, rs1, n, d);
    } else {
      hide Run, Slli;
      d' := SlliSmallOk(rd, rs1, n, d);
      SameMemory(d, d');
    }
  }

  /** The forms that go through a scratch word. */
  lemma SlliLongOk(rd: Reg, rs1: Reg, n: nat, d: Data) returns (d': Data)
    requires 16 <= n < 32 && 28 <= d.Get(SP) && rd != TP && rs1 != TP
    ensures d' == Run(Slli(rd, rs1, n), d)
    ensures rd != X0 ==> d'.Get(rd) == ShiftWord(Sll, d.Get(rs1), n)
    ensures forall r: Reg :: r != rd && r != TP ==> d'.Get(r) == d.Get(r)
    ensures MemKept(d, d', d.Get(SP) + D, d.Get(SP))
  {
    hide Run, Sh, Doublings, Pow2, Data.LoadWord, Shl;
    var x := d.Get(rs1);
    SplitPowers();
    if n >= 24 {
      var d1 := SlliTopOk(rd, rs1, d);
      d' := SlliRestOk(rd, n - 24, d1);
      RunAppend([Sw(X0, SP, A), Sb(rs1, SP, A + 3), Lw(rd, SP, A)], Slli(rd, rd, n - 24), d);
      SameMemory(d1, d');
      SplitShift(x, 256, 0x100_0000, n - 24, 24);
    } else {
      var d1 := SlliHighOk(rd, rs1, d);
      d' := SlliRestOk(rd, n - 16, d1);
      RunAppend([Sw(X0, SP, A)] + Sh(rs1, SP, A + 2) + [Lw(rd, SP, A)], Slli(rd, rd, n - 16), d);
      SameMemory(d1, d');
      SplitShift(x, 65536, 65536, n - 16, 16);
    }
  }

  lemma SplitPowers()
    ensures Pow2(16) == 65536 && Pow2(24) == 0x100_0000
  {
    assert Pow2(8) == 256;
    Pow2Add(8, 8);
    Pow2Add(16, 8);
  }

  lemma SlliRestOk(rd: Reg, n: nat, d: Data) returns (d': Data)
    requires n < 16
    ensures d' == Run(Slli(rd, rd, n), d)
    ensures d'.mem == d.mem
    ensures forall r: Reg :: d'.Get(r) == if r == rd && rd != X0 then Shl(d.Get(rd), n) else d.Get(r)
  {
    if n == 0 {
      d' := d;
    } else {
      d' := SlliSmallOk(rd, rd, n, d);
    }
  }

  /** Moving the low bytes up first and shifting by the rest is a shift by the sum. */
  lemma SplitShift(x: Word, lo: nat, hi: nat, n: nat, m: nat)
    requires n + m < 32 && lo > 0 && lo * hi == W && hi == Pow2(m)
    ensures 0 <= x % lo * hi < W
    ensures Shl(x % lo * hi, n) == Shl(x, n + m)
  {
    var p, r, z := Pow2(n), x % lo, x * hi;
    KeptBits(x, lo, hi);
    ModMul(z, p);
    Pow2Add(n, m);
    Regroup(x, hi, p);
  }

  lemma KeptBits(x: Word, lo: nat, hi: nat)
    requires lo > 0 && lo * hi == W
    ensures 0 <= x % lo * hi < W
    ensures x % lo * hi == x * hi % W
  {
    var q, r := x / lo, x % lo;
    assert x == q * lo + r;
    assert x * hi == q * W + r * hi by {
      Distribute(q, lo, r, hi);
    }
    assert r * hi < W by {
      MulMono(r, lo - 1, hi);
    }
    assert 0 <= r * hi;
    DivModUnique(x * hi, W, q, r * hi);
  }

  lemma Distribute(q: int, lo: int, r: int, hi: int)
    ensures (q * lo + r) * hi == q * (lo * hi) + r * hi
  {
  }

  lemma Regroup(x: int, hi: int, p: int)
    ensures x * hi * p == x * (p * hi)
  {
  }
}
