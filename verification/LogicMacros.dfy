/** The bitwise macros: one table look-up for each pair of bytes. */
module LogicMacros {
  import opened Bits
  import opened Machine
  import opened Tables
  import opened Macros
  import opened BasicMacros
  import opened WordTypes

  /** The upper half of VAR_D is zero, so its low half is a 16-bit index. */
  ghost predicate IndexReady(d: Data) {
    28 <= d.Get(SP) && d.Load(d.Get(SP) + D + 2) == 0 && d.Load(d.Get(SP) + D + 3) == 0
  }

  lemma LogicIndexOk(k: nat, d: Data) returns (d': Data)
    requires k < 4 && IndexReady(d)
    ensures d' == Run([Lbu(TP, SP, A + k), Sb(TP, SP, D + 1), Lbu(TP, SP, B + k), Sb(TP, SP, D)], d)
    ensures forall r: Reg :: r != TP ==> d'.Get(r) == d.Get(r)
    ensures d'.LoadWord(d.Get(SP) + D) == 256 * d.Load(d.Get(SP) + A + k) + d.Load(d.Get(SP) + B + k)
    ensures MemKept(d, d', d.Get(SP) + D, d.Get(SP) + D + 2)
  {
    hide Run, Data.LoadWord, WordOf, ByteOf;
    var sp := d.Get(SP);
    var x, y := d.Load(sp + A + k), d.Load(sp + B + k);
    var d1 := Exec(Lbu(TP, SP, A + k), d);
    SameMemory(d, d1);
    var d2 := Exec(Sb(TP, SP, D + 1), d1);
    var d3 := Exec(Lbu(TP, SP, B + k), d2);
    SameMemory(d2, d3);
    d' := Exec(Sb(TP, SP, D), d3);
    LowByte(x);
    LowByte(y);
    IndexWord(d', sp + D, x, y);
    Run4(Lbu(TP, SP, A + k), Sb(TP, SP, D + 1), Lbu(TP, SP, B + k), Sb(TP, SP, D), d);
  }

  lemma IndexWord(d: Data, a: int, x: Byte, y: Byte)
    requires 0 <= a < W - 3
    requires d.Load(a) == y && d.Load(a + 1) == x && d.Load(a + 2) == 0 && d.Load(a + 3) == 0
    ensures d.LoadWord(a) == 256 * x + y
  {
  }

  /** Memory after one byte step: only the index and byte `k` of VAR_C change. */
  ghost predicate ByteStep(d: Data, d': Data, sp: Word, k: nat) {
    forall a: Word :: !(sp + D <= a < sp + D + 2) && a != sp + C + k ==> d'.Load(a) == d.Load(a)
  }

  lemma LogicByteOk(lut: Reg, k: nat, tab: seq<Byte>, d: Data) returns (d': Data)
    requires k < 4 && IndexReady(d) && lut != TP
    requires |tab| == 65536 && Holds(d, d.Get(lut), tab) && Apart(d.Get(SP), d.Get(lut), 65536)
    ensures d' == Run(LogicByte(lut, k), d)
    ensures forall r: Reg :: r != TP ==> d'.Get(r) == d.Get(r)
    ensures d'.Load(d.Get(SP) + C + k) == tab[256 * d.Load(d.Get(SP) + A + k) + d.Load(d.Get(SP) + B + k)]
    ensures ByteStep(d, d', d.Get(SP), k)
  {
    hide Run, Data.LoadWord, ByteOf;
    var sp := d.Get(SP);
    var d1 := LogicIndexOk(k, d);
    HoldsKept(d, d1, d.Get(lut), tab, sp + D, sp + D + 2);
    var index := d1.LoadWord(sp + D);
    assert d1.Load(d.Get(lut) + index) == tab[index];
    var d2 := Exec(Lw(TP, SP, D), d1);
    var d3 := Exec(Add(TP, lut, TP), d2);
    SameMemory(d1, d3);
    var d4 := Exec(Lbu(TP, TP, 0), d3);
    SameMemory(d3, d4);
    d' := Exec(Sb(TP, SP, C + k), d4);
    LowByte(tab[index]);
    Run4(Lw(TP, SP, D), Add(TP, lut, TP), Lbu(TP, TP, 0), Sb(TP, SP, C + k), d1);
    RunAppend([Lbu(TP, SP, A + k), Sb(TP, SP, D + 1), Lbu(TP, SP, B + k), Sb(TP, SP, D)],
      [Lw(TP, SP, D), Add(TP, lut, TP), Lbu(TP, TP, 0), Sb(TP, SP, C + k)], d);
  }

  /** The word whose bytes are the table entries for the bytes of `x` and `y`. */
  function Bytewise(tab: seq<Byte>, x: Word, y: Word): Word
    requires |tab| == 65536
  {
    WordOf(tab[256 * ByteOf(x, 0) + ByteOf(y, 0)], tab[256 * ByteOf(x, 1) + ByteOf(y, 1)],
           tab[256 * ByteOf(x, 2) + ByteOf(y, 2)], tab[256 * ByteOf(x, 3) + ByteOf(y, 3)])
  }

  lemma BytewiseLoaded(d: Data, a: int, tab: seq<Byte>, x: Word, y: Word)
    requires 0 <= a < W - 3 && |tab| == 65536
    requires d.Load(a) == tab[256 * ByteOf(x, 0) + ByteOf(y, 0)]
    requires d.Load(a + 1) == tab[256 * ByteOf(x, 1) + ByteOf(y, 1)]
    requires d.Load(a + 2) == tab[256 * ByteOf(x, 2) + ByteOf(y, 2)]
    requires d.Load(a + 3) == tab[256 * ByteOf(x, 3) + ByteOf(y, 3)]
    ensures d.LoadWord(a) == Bytewise(tab, x, y)
  {
  }

  /** What every byte step relies on and keeps. */
  ghost predicate StepReady(d: Data, lut: Reg, tab: seq<Byte>, sp: Word, row: Word, x: Word, y: Word) {
    && IndexReady(d) && d.Get(SP) == sp && d.Get(lut) == row
    && |tab| == 65536 && Holds(d, row, tab) && Apart(sp, row, 65536)
    && d.LoadWord(sp + A) == x && d.LoadWord(sp + B) == y
  }

  lemma LogicStepOk(lut: Reg, k: nat, tab: seq<Byte>, sp: Word, row: Word, x: Word, y: Word, d: Data) returns (d': Data)
    requires k < 4 && 28 <= sp && |tab| == 65536
    requires lut != TP && StepReady(d, lut, tab, sp, row, x, y)
    ensures d' == Run(LogicByte(lut, k), d) && StepReady(d', lut, tab, sp, row, x, y)
    ensures forall r: Reg :: r != TP ==> d'.Get(r) == d.Get(r)
    ensures d'.Load(sp + C + k) == tab[256 * ByteOf(x, k) + ByteOf(y, k)]
    ensures forall a: Word :: sp + C <= a < sp + B && a != sp + C + k ==> d'.Load(a) == d.Load(a)
    ensures MemKept(d, d', sp + D, sp + B)
  {
    hide Run, LogicByte, Data.LoadWord, ByteOf;
    LoadedBytes(d, sp + A, x);
    LoadedBytes(d, sp + B, y);
    d' := LogicByteOk(lut, k, tab, d);
    HoldsKept(d, d', row, tab, sp + D, sp + B);
    WordKept(d, d', sp + A, sp + D, sp + B);
    WordKept(d, d', sp + B, sp + D, sp + B);
  }

  lemma LogicBytesOk(lut: Reg, tab: seq<Byte>, sp: Word, row: Word, x: Word, y: Word, d: Data) returns (d': Data)
    requires 28 <= sp && |tab| == 65536
    requires lut != TP && StepReady(d, lut, tab, sp, row, x, y)
    ensures d' == Run(LogicBytes(lut), d)
    ensures forall r: Reg :: r != TP ==> d'.Get(r) == d.Get(r)
    ensures d'.LoadWord(sp + C) == Bytewise(tab, x, y)
    ensures MemKept(d, d', sp + D, sp + B)
  {
    hide Run, LogicByte, Data.LoadWord, ByteOf, Bytewise, StepReady;
    var d1 := LogicStepOk(lut, 3, tab, sp, row, x, y, d);
    var d2 := LogicStepOk(lut, 2, tab, sp, row, x, y, d1);
    var d3 := LogicStepOk(lut, 1, tab, sp, row, x, y, d2);
    d' := LogicStepOk(lut, 0, tab, sp, row, x, y, d3);
    BytewiseLoaded(d', sp + C, tab, x, y);
    RunAppend(LogicByte(lut, 3) + LogicByte(lut, 2) + LogicByte(lut, 1), LogicByte(lut, 0), d);
    RunAppend(LogicByte(lut, 3) + LogicByte(lut, 2), LogicByte(lut, 1), d);
    RunAppend(LogicByte(lut, 3), LogicByte(lut, 2), d);
  }

  lemma LogicOk(t: Layout, op: BitOp, rd: Reg, rs1: Reg, rs2: Reg, tab: seq<Byte>, d: Data) returns (d': Data)
    requires rd != X0 && rd != SP && rd != TP
    requires t.lut + LUT_SIZE <= W && |tab| == 65536
    requires Holds(d, LutAddr(t, LogicOffset(op)), tab) && Apart(d.Get(SP), LutAddr(t, LogicOffset(op)), 65536)
    ensures d' == Run(Logic(t, op, rd, rs1, rs2), d)
    ensures d'.Get(rd) == Bytewise(tab, d.Get(rs1), d.Get(rs2))
    ensures forall r: Reg :: r != rd && r != TP ==> d'.Get(r) == d.Get(r)
    ensures MemKept(d, d', d.Get(SP) + D, d.Get(SP))
  {
    hide Run, La, LogicBytes, Data.LoadWord, ByteOf, Bytewise, StepReady;
    var sp, row := d.Get(SP), LutAddr(t, LogicOffset(op));
    var d4 := LogicStartOk(rd, rs1, rs2, row, tab, d);
    var d5 := LogicBytesOk(rd, tab, sp, row, d.Get(rs1), d.Get(rs2), d4);
    d' := Exec(Lw(rd, SP, C), d5);
    Run1(Lw(rd, SP, C), d5);
    var start := [Sw(rs1, SP, A), Sw(rs2, SP, B)] + La(rd, row) + [Sw(X0, SP, D)];
    RunAppend(start + LogicBytes(rd), [Lw(rd, SP, C)], d);
    RunAppend(start, LogicBytes(rd), d);
  }

  /** Both operands in scratch words, the table address in `rd`, the index word cleared. */
  lemma LogicStartOk(rd: Reg, rs1: Reg, rs2: Reg, row: Word, tab: seq<Byte>, d: Data) returns (d': Data)
    requires rd != X0 && rd != SP && rd != TP
    requires |tab| == 65536 && Holds(d, row, tab) && Apart(d.Get(SP), row, 65536)
    ensures d' == Run([Sw(rs1, SP, A), Sw(rs2, SP, B)] + La(rd, row) + [Sw(X0, SP, D)], d)
    ensures StepReady(d', rd, tab, d.Get(SP), row, d.Get(rs1), d.Get(rs2))
    ensures forall r: Reg :: r != rd ==> d'.Get(r) == d.Get(r)
    ensures MemKept(d, d', d.Get(SP) + D, d.Get(SP))
  {
    hide Run, La, Data.LoadWord, ByteOf;
    var sp := d.Get(SP);
    var d1 := SwOk(rs1, A, d);
    var d2 := SwOk(rs2, B, d1);
    WordKept(d1, d2, sp + A, sp + B, sp + A);
    var d3 := LaOk(rd, row, d2);
    SameMemory(d2, d3);
    d' := SwOk(X0, D, d3);
    WordKept(d3, d', sp + A, sp + D, sp + C);
    WordKept(d3, d', sp + B, sp + D, sp + C);
    LoadedBytes(d', sp + D, 0);
    ZeroBytes();
    HoldsKept(d, d', row, tab, sp + D, sp);
    LogicStartCode(rd, rs1, rs2, row, d, d2, d3);
  }

  lemma LogicStartCode(rd: Reg, rs1: Reg, rs2: Reg, row: Word, d: Data, d2: Data, d3: Data)
    requires d2 == Exec(Sw(rs2, SP, B), Exec(Sw(rs1, SP, A), d)) && d3 == Run(La(rd, row), d2)
    ensures Run([Sw(rs1, SP, A), Sw(rs2, SP, B)] + La(rd, row) + [Sw(X0, SP, D)], d) == Exec(Sw(X0, SP, D), d3)
  {
    hide Run, La, Exec;
    Run2(Sw(rs1, SP, A), Sw(rs2, SP, B), d);
    Run1(Sw(X0, SP, D), d3);
    var first, la := [Sw(rs1, SP, A), Sw(rs2, SP, B)], La(rd, row);
    RunAppend(first + la, [Sw(X0, SP, D)], d);
    RunAppend(first, la, d);
  }
}
