/** Every expansion does what its source instruction does, outside the reserved registers and scratch memory. */
module LoweringProof {
  import opened Bits
  import opened Machine
  import opened Tables
  import opened Macros
  import opened BasicMacros
  import opened ShiftMacros
  import opened ShiftTables
  import opened CompareMacros
  import opened LogicMacros
  import opened Rv32i
  import opened Lowering
  import opened Environment
  import opened Words
  import opened WordTypes

  /** Agreement of two machine states, apart from `tp`, `gp`, the scratch words and the check array. */
  ghost predicate Agree(d: Data, d': Data, sp: Word, t: Layout) {
    && (forall r: Reg :: Free(r) ==> d'.Get(r) == d.Get(r))
    && (forall a: Word :: !InScratch(sp, a) && !InCheck(t, a) ==> d'.Load(a) == d.Load(a))
  }

  /** Only `rd`, the reserved registers and scratch memory change. */
  ghost predicate Sets(d: Data, d': Data, rd: Reg, v: Word) {
    && (rd != X0 ==> d'.Get(rd) == v)
    && (forall r: Reg :: r != rd && Free(r) ==> d'.Get(r) == d.Get(r))
    && MemKept(d, d', d.Get(SP) + D, d.Get(SP))
  }

  lemma AluOk(t: Layout, op: AluOp, rd: Reg, rs1: Reg, rs2: Reg, d: Data) returns (d': Data)
    requires Ready(d, t) && Free(rd) && Free(rs1) && rs2 != GP
    requires op.Logic? && rd != X0 ==> rd != SP
    ensures d' == Run(LowerAlu(t, op, rd, rs1, rs2), d)
    ensures Sets(d, d', rd, Alu(op, d.Get(rs1), d.Get(rs2)))
  {
    hide Run, Macros.Sub, SltTemplate, Macros.Logic, SllMacro, ShiftRight, BitOp32, ShiftWord;
    var x, y := d.Get(rs1), d.Get(rs2);
    match op
    case Sub =>
      NotRow(d, t);
      d' := SubOk(t, rd, rs1, rs2, LogicRowBytes(Xor, 255), d);
    case Slt =>
      d' := LessOk(t, false, rd, rs1, rs2, d);
    case Sltu =>
      d' := LessOk(t, true, rd, rs1, rs2, d);
    case Logic(b) =>
      d' := BitwiseOk(t, b, rd, rs1, rs2, d);
    case ShiftBy(k) =>
      d' := ShiftRegOk(t, k, rd, rs1, rs2, d);
  }

  lemma LessOk(t: Layout, unsigned: bool, rd: Reg, rs1: Reg, rs2: Reg, d: Data) returns (d': Data)
    requires Ready(d, t)
    ensures d' == Run(SltTemplate(t, if unsigned then t.sltu else t.slt, rd, rs1, rs2), d)
    ensures rd != X0 ==>
      d'.Get(rd) == Flag(if unsigned then d.Get(rs1) < d.Get(rs2) else Signed(d.Get(rs1)) < Signed(d.Get(rs2)))
    ensures forall r: Reg :: r != rd && Free(r) ==> d'.Get(r) == d.Get(r)
    ensures MemKept(d, d', d.Get(SP) + D, d.Get(SP))
  {
    hide Run, SltTemplate, SignIndex;
    ReadyApart(d, t);
    NotRow(d, t);
    SltTables(d.Get(rs1), d.Get(rs2));
    if unsigned {
      d' := SltTemplateOk(t, t.sltu, SLTU1, rd, rs1, rs2, LogicRowBytes(Xor, 255), d);
    } else {
      d' := SltTemplateOk(t, t.slt, SLT1, rd, rs1, rs2, LogicRowBytes(Xor, 255), d);
    }
  }

  lemma BitwiseOk(t: Layout, op: BitOp, rd: Reg, rs1: Reg, rs2: Reg, d: Data) returns (d': Data)
    requires Ready(d, t) && Free(rd) && (rd != X0 ==> rd != SP)
    ensures d' == Run(Macros.Logic(t, op, rd, rs1, rs2), d)
    ensures Sets(d, d', rd, BitOp32(op, d.Get(rs1), d.Get(rs2)))
  {
    if rd == X0 {
      d' := d;
    } else {
      hide Run, Macros.Logic, BitOp32, Bytewise, Ready, Holds, LutAddr, LogicTableImage;
      LogicLoaded(t, op, d);
      d' := LogicOk(t, op, rd, rs1, rs2, LogicTableImage(op), d);
      BytewiseIsBitwise(op, d.Get(rs1), d.Get(rs2));
    }
  }

  lemma LogicLoaded(t: Layout, op: BitOp, d: Data)
    requires Ready(d, t)
    ensures t.lut + LUT_SIZE <= W && Holds(d, LutAddr(t, LogicOffset(op)), LogicTableImage(op))
    ensures Apart(d.Get(SP), LutAddr(t, LogicOffset(op)), 65536)
  {
    hide Ready, Holds, Apart, LutImage;
    LutHeld(t, d);
    HoldsSlice(d, t.lut, LutImage(), LogicOffset(op), 65536);
    ApartSlice(d.Get(SP), t.lut, LUT_SIZE, LogicOffset(op), 65536);
  }

  lemma LutHeld(t: Layout, d: Data)
    requires Ready(d, t)
    ensures t.lut + LUT_SIZE <= W && Holds(d, t.lut, LutImage()) && Apart(d.Get(SP), t.lut, LUT_SIZE)
  {
    hide Holds, Apart, LutImage, InTables, InCheck;
    ReadyApart(d, t);
  }

  lemma ShiftRegOk(t: Layout, k: Shift, rd: Reg, rs1: Reg, rs2: Reg, d: Data) returns (d': Data)
    requires Ready(d, t)
    ensures d' == Run(LowerAlu(t, ShiftBy(k), rd, rs1, rs2), d)
    ensures Sets(d, d', rd, ShiftWord(k, d.Get(rs1), d.Get(rs2) % 32))
  {
    hide Run, SllMacro, ShiftRight, ShiftWord, SllSum, RightSum, RowWords, LogicRowBytes;
    var s, x := d.Get(rs2) % 32, d.Get(rs1);
    var tab := LogicRowBytes(And, 31);
    ShamtRow(d, t);
    RowLoaded(d, t, k, s);
    if k == Sll {
      d' := SllMacroOk(t, rd, rs1, rs2, tab, RowWords(Sll, s), d);
      SllSumOk(RowWords(Sll, s), s, x);
    } else {
      RowLoaded(d, t, Srl, s);
      d' := ShiftRightOk(t, rd, rs1, InReg(rs2), k == Sra, tab, RowWords(Srl, s), RowWords(k, s), d);
      RightRowsOk(k, s, x);
    }
  }

  lemma RightRowsOk(k: Shift, s: nat, x: Word)
    requires s < 32 && k != Sll
    ensures RightSum(RowWords(Srl, s), RowWords(k, s), x) == ShiftWord(k, x, s)
  {
    hide RightSum, ShiftWord, RowWords;
    if k == Srl {
      RightSumLogical(RowWords(Srl, s), s, x);
    } else {
      RightSumArithmetic(RowWords(Srl, s), RowWords(Sra, s), s, x);
    }
  }

  /** Right shifts by an immediate, including the fast paths for 24. */
  lemma ShiftImmRightOk(t: Layout, k: Shift, rd: Reg, rs1: Reg, n: nat, d: Data) returns (d': Data)
    requires Ready(d, t) && k != Sll && n < 32 && rd != TP
    ensures d' == Run(ShiftRight(t, rd, rs1, Imm(n), k == Sra), d)
    ensures rd != X0 ==> d'.Get(rd) == ShiftWord(k, d.Get(rs1), n)
    ensures forall r: Reg :: r != rd && Free(r) ==> d'.Get(r) == d.Get(r)
    ensures MemKept(d, d', d.Get(SP) + D, d.Get(SP))
  {
    hide Run, ShiftWord, RightSum, RowWords, LogicRowBytes;
    var x := d.Get(rs1);
    RowLoaded(d, t, k, n);
    if n != 24 {
      hide ShiftRight;
      ShamtRow(d, t);
      RowLoaded(d, t, Srl, n);
      d' := ShiftRightOk(t, rd, rs1, Imm(n), k == Sra, LogicRowBytes(And, 31), RowWords(Srl, n), RowWords(k, n), d);
      RightRowsOk(k, n, x);
    } else if k == Sra {
      hide ShiftRight;
      ShiftBy24(x);
      d' := FastSraOk(t, rd, rs1, RowWords(Sra, 24), d);
    } else {
      hide Getbyte;
      ShiftBy24(x);
      d' := GetbyteOk(rd, rs1, 3, d);
    }
  }

  lemma ImmediateOk(t: Layout, op: AluOp, rd: Reg, rs1: Reg, imm: Imm12, d: Data) returns (d': Data)
    requires Ready(d, t) && Free(rd) && Free(rs1)
    requires op.Logic? && rd != X0 ==> rd != SP
    ensures d' == Run(Li(TP, imm) + LowerAlu(t, op, rd, rs1, TP), d)
    ensures Sets(d, d', rd, Alu(op, d.Get(rs1), SignExtend(imm)))
  {
    hide Run, LowerAlu, Alu;
    var d1 := Exec(Addi(TP, X0, imm), d);
    Run1(Addi(TP, X0, imm), d);
    assert Ready(d1, t);
    d' := AluOk(t, op, rd, rs1, TP, d1);
    RunAppend(Li(TP, imm), LowerAlu(t, op, rd, rs1, TP), d);
  }

  /** Loads a byte into the top of a word by way of VAR_A. */
  lemma TopByteOk(x: Reg, rs1: Reg, off: Imm12, a: Word, d: Data) returns (d': Data)
    requires 28 <= d.Get(SP) && x != SP && a == d.Addr(rs1, off) && !InScratch(d.Get(SP), a)
    ensures d' == Run([Sw(X0, SP, A), Lbu(x, rs1, off), Sb(x, SP, A + 3), Lw(x, SP, A)], d)
    ensures forall r: Reg :: d'.Get(r) == if r == x && x != X0 then d.Load(a) % 256 * 0x100_0000 else d.Get(r)
    ensures MemKept(d, d', d.Get(SP) + D, d.Get(SP))
  {
    hide Run, ByteOf, Data.LoadWord;
    var sp := d.Get(SP);
    var d1 := SwOk(X0, A, d);
    LoadedBytes(d1, sp + A, 0);
    assert d1.Addr(rs1, off) == a && d1.Load(a) == d.Load(a);
    hide Data.Addr, InScratch;
    var d2 := Exec(Lbu(x, rs1, off), d1);
    d' := TopByteEndOk(x, d2);
    Run4(Sw(X0, SP, A), Lbu(x, rs1, off), Sb(x, SP, A + 3), Lw(x, SP, A), d);
  }

  lemma TopByteEndOk(x: Reg, d: Data) returns (d': Data)
    requires 28 <= d.Get(SP) && x != SP
    requires d.Load(d.Get(SP) + A) == ByteOf(0, 0) && d.Load(d.Get(SP) + A + 1) == ByteOf(0, 1)
    requires d.Load(d.Get(SP) + A + 2) == ByteOf(0, 2)
    ensures d' == Exec(Lw(x, SP, A), Exec(Sb(x, SP, A + 3), d))
    ensures forall r: Reg :: d'.Get(r) == if r == x && x != X0 then d.Get(x) % 256 * 0x100_0000 else d.Get(r)
    ensures MemKept(d, d', d.Get(SP) + A, d.Get(SP) + SAVE3)
  {
    hide ByteOf, Data.LoadWord;
    var d3 := Exec(Sb(x, SP, A + 3), d);
    TopWord(d3, d.Get(SP) + A, d.Get(x));
    d' := Exec(Lw(x, SP, A), d3);
  }

  lemma LbOk(t: Layout, rd: Reg, rs1: Reg, off: Imm12, d: Data) returns (d': Data)
    requires Ready(d, t) && Free(rd) && Free(rs1) && rd != SP
    requires !InScratch(d.Get(SP), d.Addr(rs1, off))
    ensures d' == Run(Macros.Lb(t, rd, rs1, off), d)
    ensures Sets(d, d', rd, ByteSigned(d.Load(d.Addr(rs1, off))))
  {
    hide Run, ShiftRight, ShiftWord, Data.Addr;
    var a := d.Addr(rs1, off);
    var d1 := TopByteOk(rd, rs1, off, a, d);
    StillReady(d, d1, t);
    d' := ShiftImmRightOk(t, Sra, rd, rd, 24, d1);
    SignedByte(d.Load(a));
    RunAppend([Sw(X0, SP, A), Lbu(rd, rs1, off), Sb(rd, SP, A + 3), Lw(rd, SP, A)],
      ShiftRight(t, rd, rd, Imm(24), true), d);
  }

  lemma SignedByte(b: Byte)
    ensures 0 <= b % 256 * 0x100_0000 < W
    ensures ShiftWord(Sra, b % 256 * 0x100_0000, 24) == ByteSigned(b)
  {
    SplitPowers();
  }

  lemma SignedHalf(b: Byte)
    ensures 0 <= b % 256 * 0x100_0000 < W
    ensures ShiftWord(Sra, b % 256 * 0x100_0000, 16) == HalfSigned(0, b)
  {
    SplitPowers();
  }

  lemma StillReady(d: Data, d': Data, t: Layout)
    requires Ready(d, t) && MemKept(d, d', d.Get(SP) + D, d.Get(SP)) && d'.Get(SP) == d.Get(SP)
    ensures Ready(d', t)
  {
    hide LutImage, ZeroTable;
    var sp := d.Get(SP);
    ReadyApart(d, t);
    HoldsKept(d, d', t.same, SAME, sp + D, sp);
    HoldsKept(d, d', t.zero, ZeroTable(), sp + D, sp);
    HoldsKept(d, d', t.slt, SLT1, sp + D, sp);
    HoldsKept(d, d', t.sltu, SLTU1, sp + D, sp);
    HoldsKept(d, d', t.or1, OR1, sp + D, sp);
    HoldsKept(d, d', t.lut, LutImage(), sp + D, sp);
  }

  /** The two byte addresses of a halfword. */
  lemma NextAddr(d: Data, r: Reg, off: Imm12)
    requires off < 2047
    ensures d.Addr(r, off + 1) == Wrap(d.Addr(r, off) + 1)
  {
  }

  lemma LhuOk(t: Layout, rd: Reg, rs1: Reg, off: Imm12, d: Data) returns (d': Data)
    requires 28 <= d.Get(SP) && Free(rd) && Free(rs1) && off < 2047
    requires !InScratch(d.Get(SP), d.Addr(rs1, off)) && !InScratch(d.Get(SP), Wrap(d.Addr(rs1, off) + 1))
    ensures d' == Run(Macros.Lhu(rd, rs1, off), d)
    ensures Sets(d, d', rd, HalfUnsigned(d.Load(d.Addr(rs1, off)), d.Load(Wrap(d.Addr(rs1, off) + 1))))
  {
    hide Run, ByteOf, Data.LoadWord;
    NextAddr(d, rs1, off);
    var a0, a1 := d.Addr(rs1, off), d.Addr(rs1, off + 1);
    var d1 := LhuHighOk(rs1, off, a1, d);
    assert d1.Addr(rs1, off) == a0 && d1.Load(a0) == d.Load(a0);
    hide Data.Addr, InScratch;
    var d2 := Exec(Lbu(rd, rs1, off), d1);
    d' := Exec(Add(rd, rd, TP), d2);
    Run2(Lbu(rd, rs1, off), Add(rd, rd, TP), d1);
    RunAppend([Sw(X0, SP, A), Lbu(TP, rs1, off + 1), Sb(TP, SP, A + 1), Lw(TP, SP, A)],
      [Lbu(rd, rs1, off), Add(rd, rd, TP)], d);
  }

  lemma LhuHighOk(rs1: Reg, off: Imm12, a: Word, d: Data) returns (d': Data)
    requires 28 <= d.Get(SP) && off < 2047
    requires a == d.Addr(rs1, off + 1) && !InScratch(d.Get(SP), a)
    ensures d' == Run([Sw(X0, SP, A), Lbu(TP, rs1, off + 1), Sb(TP, SP, A + 1), Lw(TP, SP, A)], d)
    ensures forall r: Reg :: d'.Get(r) == if r == TP then 256 * (d.Load(a) as int) else d.Get(r)
    ensures MemKept(d, d', d.Get(SP) + D, d.Get(SP))
  {
    hide Run, ByteOf, Data.LoadWord;
    var sp := d.Get(SP);
    var d1 := SwOk(X0, A, d);
    LoadedBytes(d1, sp + A, 0);
    assert d1.Addr(rs1, off + 1) == a && d1.Load(a) == d.Load(a);
    var d2 := Exec(Lbu(TP, rs1, off + 1), d1);
    hide Data.Addr, InScratch;
    d' := LhuEndOk(d2);
    Run4(Sw(X0, SP, A), Lbu(TP, rs1, off + 1), Sb(TP, SP, A + 1), Lw(TP, SP, A), d);
  }

  lemma LhuEndOk(d: Data) returns (d': Data)
    requires 28 <= d.Get(SP) && d.Get(TP) < 256
    requires d.Load(d.Get(SP) + A) == ByteOf(0, 0) && d.Load(d.Get(SP) + A + 2) == ByteOf(0, 2)
    requires d.Load(d.Get(SP) + A + 3) == ByteOf(0, 3)
    ensures d' == Exec(Lw(TP, SP, A), Exec(Sb(TP, SP, A + 1), d))
    ensures forall r: Reg :: d'.Get(r) == if r == TP then 256 * d.Get(TP) as int else d.Get(r)
    ensures MemKept(d, d', d.Get(SP) + A, d.Get(SP) + SAVE3)
  {
    hide ByteOf, Data.LoadWord;
    var d3 := Exec(Sb(TP, SP, A + 1), d);
    SmallWord(d3, d.Get(SP) + A, d.Get(TP));
    d' := Exec(Lw(TP, SP, A), d3);
  }

  lemma LhOk(t: Layout, rd: Reg, rs1: Reg, off: Imm12, d: Data) returns (d': Data)
    requires Ready(d, t) && Free(rd) && Free(rs1) && off < 2047
    requires !InScratch(d.Get(SP), d.Addr(rs1, off)) && !InScratch(d.Get(SP), Wrap(d.Addr(rs1, off) + 1))
    ensures d' == Run(Macros.Lh(t, rd, rs1, off), d)
    ensures Sets(d, d', rd, HalfSigned(d.Load(d.Addr(rs1, off)), d.Load(Wrap(d.Addr(rs1, off) + 1))))
  {
    hide Run, ShiftRight, ShiftWord;
    NextAddr(d, rs1, off);
    var a0, a1 := d.Addr(rs1, off), d.Addr(rs1, off + 1);
    var d1 := TopByteOk(GP, rs1, off + 1, a1, d);
    StillReady(d, d1, t);
    var d2 := ShiftImmRightOk(t, Sra, GP, GP, 16, d1);
    SignedHalf(d.Load(a1));
    assert d2.Addr(rs1, off) == a0 && d2.Load(a0) == d.Load(a0);
    hide Data.Addr, InScratch;
    d' := LhEndOk(rd, rs1, off, d.Load(a0), d.Load(a1), d2);
    var first := [Sw(X0, SP, A), Lbu(GP, rs1, off + 1), Sb(GP, SP, A + 3), Lw(GP, SP, A)];
    RunAppend(first + ShiftRight(t, GP, GP, Imm(16), true), [Lbu(rd, rs1, off), Add(rd, rd, GP)], d);
    RunAppend(first, ShiftRight(t, GP, GP, Imm(16), true), d);
  }

  lemma LhEndOk(rd: Reg, rs1: Reg, off: Imm12, b0: Byte, b1: Byte, d: Data) returns (d': Data)
    requires Free(rd) && d.Get(GP) == HalfSigned(0, b1) && d.Load(d.Addr(rs1, off)) == b0
    ensures d' == Run([Lbu(rd, rs1, off), Add(rd, rd, GP)], d)
    ensures rd != X0 ==> d'.Get(rd) == HalfSigned(b0, b1)
    ensures forall r: Reg :: r != rd ==> d'.Get(r) == d.Get(r)
    ensures d'.mem == d.mem && forall a: Word :: d'.Load(a) == d.Load(a)
  {
    hide Run;
    Run2(Lbu(rd, rs1, off), Add(rd, rd, GP), d);
    d' := Exec(Add(rd, rd, GP), Exec(Lbu(rd, rs1, off), d));
  }

  lemma SetsAgree(d: Data, d': Data, rd: Reg, v: Word, t: Layout)
    requires Sets(d, d', rd, v)
    ensures Agree(d.Set(rd, v), d', d.Get(SP), t)
  {
  }

  lemma ComplementIsXor(x: Word)
    ensures BitOp32(Xor, x, 0xffff_ffff) == W - 1 - x
  {
    WordPowers();
    BitwiseOnes(32, x);
  }

  /** Computations from registers: the destination gets the value of the source instruction. */
  lemma ComputeOk(t: Layout, i: Src, d: Data)
    requires Ready(d, t) && Covered(i) && (i.RType? || i.IType? || i.ShiftImm? || i.Seqz? || i.Sltz? || i.Not?)
    ensures Agree(SrcExec(i, d), Run(Body(t, i, 0, 0), d), d.Get(SP), t)
  {
    hide Run, LowerAlu, Slli, ShiftRight, Macros.Seqz, Msb, Macros.Not, Alu, ShiftWord, BitOp32, Agree, Sets, Ready;
    match i
    case RType(op, rd, rs1, rs2) =>
      var d' := AluOk(t, op, rd, rs1, rs2, d);
      SetsAgree(d, d', rd, Alu(op, d.Get(rs1), d.Get(rs2)), t);
    case IType(op, rd, rs1, imm) =>
      var d' := ImmediateOk(t, op, rd, rs1, imm, d);
      SetsAgree(d, d', rd, Alu(op, d.Get(rs1), SignExtend(imm)), t);
    case ShiftImm(k, rd, rs1, n) =>
      var d' := ShiftImmOk(t, k, rd, rs1, n, d);
      SetsAgree(d, d', rd, ShiftWord(k, d.Get(rs1), n), t);
    case Seqz(_, _) => PseudoOk(t, i, d);
    case Sltz(_, _) => PseudoOk(t, i, d);
    case Not(_, _) => PseudoOk(t, i, d);
    case _ =>
  }

  lemma ShiftImmOk(t: Layout, k: Shift, rd: Reg, rs1: Reg, n: nat, d: Data) returns (d': Data)
    requires Ready(d, t) && Free(rd) && Free(rs1) && n < 32
    ensures d' == Run(Body(t, ShiftImm(k, rd, rs1, n), 0, 0), d)
    ensures Sets(d, d', rd, ShiftWord(k, d.Get(rs1), n))
  {
    hide Run, Slli, ShiftRight, ShiftWord;
    if k == Sll {
      d' := SlliOk(rd, rs1, n, d);
    } else {
      d' := ShiftImmRightOk(t, k, rd, rs1, n, d);
    }
  }

  lemma PseudoOk(t: Layout, i: Src, d: Data)
    requires Ready(d, t) && Covered(i) && (i.Seqz? || i.Sltz? || i.Not?)
    ensures Agree(SrcExec(i, d), Run(Body(t, i, 0, 0), d), d.Get(SP), t)
  {
    hide Run, Macros.Seqz, Msb, Macros.Not, BitOp32, Agree;
    ReadyApart(d, t);
    match i
    case Seqz(rd, rs1) =>
      var d' := SeqzOk(t, rd, rs1, d);
      SetsAgree(d, d', rd, Flag(d.Get(rs1) == 0), t);
    case Sltz(rd, rs1) =>
      var d' := MsbOk(rd, rs1, d);
      SetsAgree(d, d', rd, Flag(Signed(d.Get(rs1)) < 0), t);
    case Not(rd, rs1) =>
      NotRow(d, t);
      var d' := NotOk(t, rd, rs1, LogicRowBytes(Xor, 255), d);
      ComplementIsXor(d.Get(rs1));
      SetsAgree(d, d', rd, BitOp32(Xor, d.Get(rs1), 0xffff_ffff), t);
    case _ =>
  }

  /** Loads and stores of bytes and halfwords. */
  lemma MemoryOk(t: Layout, i: Src, d: Data)
    requires Ready(d, t) && Covered(i) && (i.Lb? || i.Lh? || i.Lhu? || i.Sh?)
    requires forall a :: a in Reads(i, d) ==> !InScratch(d.Get(SP), a)
    ensures Agree(SrcExec(i, d), Run(Body(t, i, 0, 0), d), d.Get(SP), t)
  {
    hide Run, Macros.Lb, Macros.Lh, Macros.Lhu, Macros.Sh, Agree, Sets, Ready, InScratch, Wrap;
    hide ByteSigned, HalfSigned, HalfUnsigned, Data.Addr, Data.Set, Data.Load;
    assert 28 <= d.Get(SP) by { ReadySp(d, t); }
    match i
    case Lb(rd, rs1, off) =>
      var d' := LbOk(t, rd, rs1, off, d);
      SetsAgree(d, d', rd, ByteSigned(d.Load(d.Addr(rs1, off))), t);
    case Lh(rd, rs1, off) =>
      var d' := LhOk(t, rd, rs1, off, d);
      SetsAgree(d, d', rd, HalfSigned(d.Load(d.Addr(rs1, off)), d.Load(Wrap(d.Addr(rs1, off) + 1))), t);
    case Lhu(rd, rs1, off) =>
      var d' := LhuOk(t, rd, rs1, off, d);
      SetsAgree(d, d', rd, HalfUnsigned(d.Load(d.Addr(rs1, off)), d.Load(Wrap(d.Addr(rs1, off) + 1))), t);
    case Sh(rs2, rs1, off) =>
      StoreHalfOk(t, rs2, rs1, off, d);
    case _ =>
  }

  lemma ReadySp(d: Data, t: Layout)
    requires Ready(d, t)
    ensures 28 <= d.Get(SP)
  {
  }

  lemma StoreHalfOk(t: Layout, rs2: Reg, rs1: Reg, off: Imm12, d: Data)
    requires 28 <= d.Get(SP) && Free(rs2) && Free(rs1) && off < 2047
    ensures Agree(SrcExec(Src.Sh(rs2, rs1, off), d), Run(Macros.Sh(rs2, rs1, off), d), d.Get(SP), t)
  {
    hide Run, Macros.Sh, ByteOf;
    NextAddr(d, rs1, off);
    var d' := ShOk(rs2, rs1, off, d);
  }

  /** The value in `tp` before a branch is resolved says whether the branch is taken. */
  lemma CondOk(t: Layout, c: Cond, rs1: Reg, rs2: Reg, d: Data) returns (d': Data)
    requires Ready(d, t) && Free(rs1) && Free(rs2)
    ensures d' == Run(LowerCond(t, c, rs1, rs2), d)
    ensures d'.Get(TP) < 2
    ensures (d'.Get(TP) == 1) == (Taken(c, d.Get(rs1), d.Get(rs2)) == OneIsTaken(c, rs1, rs2))
    ensures Agree(d, d', d.Get(SP), t)
  {
    hide Run, SltTemplate, NotPositive, Msb, Macros.Seqz, Seq, SignIndex;
    match c
    case Eq => d' := EqualOk(t, rs1, rs2, d);
    case Ne => d' := EqualOk(t, rs1, rs2, d);
    case Ltu => d' := LessOk(t, true, TP, rs1, rs2, d);
    case Geu => d' := LessOk(t, true, TP, rs1, rs2, d);
    case Lt => d' := SignedLessOk(t, rs1, rs2, d);
    case Ge =>
      if rs1 == X0 {
        ReadyApart(d, t);
        d' := NotPositiveOk(t, rs2, d);
      } else {
        d' := LessOk(t, false, TP, rs1, rs2, d);
      }
  }

  lemma SignedLessOk(t: Layout, rs1: Reg, rs2: Reg, d: Data) returns (d': Data)
    requires Ready(d, t) && Free(rs1) && Free(rs2)
    ensures d' == Run(LowerCond(t, Lt, rs1, rs2), d)
    ensures d'.Get(TP) < 2
    ensures (d'.Get(TP) == 1) == ((Signed(d.Get(rs1)) < Signed(d.Get(rs2))) == (rs2 == X0 || rs1 != X0))
    ensures Agree(d, d', d.Get(SP), t)
  {
    hide Run, SltTemplate, NotPositive, Msb, SignIndex;
    if rs2 == X0 {
      d' := MsbOk(TP, rs1, d);
    } else if rs1 == X0 {
      ReadyApart(d, t);
      d' := NotPositiveOk(t, rs2, d);
    } else {
      d' := LessOk(t, false, TP, rs1, rs2, d);
    }
  }

  lemma EqualOk(t: Layout, rs1: Reg, rs2: Reg, d: Data) returns (d': Data)
    requires Ready(d, t) && Free(rs1) && Free(rs2)
    ensures d' == Run(LowerEq(t, rs1, rs2), d)
    ensures d'.Get(TP) == Flag(d.Get(rs1) == d.Get(rs2))
    ensures Agree(d, d', d.Get(SP), t)
  {
    hide Run, Macros.Seqz, Seq;
    ReadyApart(d, t);
    if rs2 == X0 {
      d' := SeqzOk(t, TP, rs1, d);
    } else if rs1 == X0 {
      d' := SeqzOk(t, TP, rs2, d);
    } else {
      CheckApart(t);
      d' := SeqOk(t, TP, rs1, rs2, d);
    }
  }

  lemma CheckApart(t: Layout)
    requires GoodLayout(t)
    ensures t.same + 8 <= t.check || t.check + 256 <= t.same
  {
    if t.check < t.same + 8 && t.same < t.check + 256 {
      var a := if t.check < t.same then t.same else t.check;
      assert InCheck(t, a) && InTables(t, a);
    }
  }

  /** `branch_resolve` turns that value into the address of the next instruction. */
  lemma BranchOk(t: Layout, c: Cond, rs1: Reg, rs2: Reg, next: Word, target: Word, d: Data)
    requires Ready(d, t) && Free(rs1) && Free(rs2)
    ensures var d' := Run(LowerCond(t, c, rs1, rs2) + Resolve(target, next, OneIsTaken(c, rs1, rs2)), d);
      && d'.Get(TP) == (if Taken(c, d.Get(rs1), d.Get(rs2)) then target else next)
      && Agree(d, d', d.Get(SP), t)
  {
    hide Run, LowerCond, Resolve, Taken, OneIsTaken;
    var d1 := CondOk(t, c, rs1, rs2, d);
    var d2 := ResolveOk(target, next, OneIsTaken(c, rs1, rs2), d1);
    RunAppend(LowerCond(t, c, rs1, rs2), Resolve(target, next, OneIsTaken(c, rs1, rs2)), d);
  }

  /** The expansion of an instruction that does not jump does what the instruction does. */
  lemma BodyOk(t: Layout, i: Src, next: Word, target: Word, d: Data)
    requires Covered(i) && !i.IsJump()
    requires !i.Plain? ==> Ready(d, t) && forall a :: a in Reads(i, d) ==> !InScratch(d.Get(SP), a)
    ensures Agree(SrcExec(i, d), Run(Body(t, i, next, target), d), d.Get(SP), t)
  {
    if i.Plain? {
      Run1(i.i, d);
    } else if i.Lb? || i.Lh? || i.Lhu? || i.Sh? {
      MemoryOk(t, i, d);
    } else {
      ComputeOk(t, i, d);
    }
  }
}
