/** The lowering of one source instruction to base instructions, and when it applies. */
module Lowering {
  import opened Machine
  import opened Macros
  import opened Rv32i
  import opened WordTypes

  predicate Free(r: Reg) {
    r != TP && r != GP
  }

  /**
   * The operand combinations for which the macros do what they stand for: without those that `.abort`, the reserved
   * registers, and `sp` as the destination of `lb`, `seqz` and `sltz` or `s0` as that of `seqz`, which module
   * `Destinations` deals with.
   */
  predicate Covered(i: Src) {
    match i
    case Plain(b) => (
      match b
      case Add(rd, rs1, rs2) => Free(rd) && Free(rs1) && Free(rs2)
      case Addi(rd, rs1, _) => Free(rd) && Free(rs1)
      case Lui(rd, _) => Free(rd)
      case Lw(rd, rs1, _) => Free(rd) && Free(rs1)
      case Lbu(rd, rs1, _) => Free(rd) && Free(rs1)
      case Sw(rs2, rs1, _) => Free(rs2) && Free(rs1)
      case Sb(rs2, rs1, _) => Free(rs2) && Free(rs1)
      case Jalr(rd, rs1, _) => Free(rd) && Free(rs1))
    case RType(op, rd, rs1, rs2) => Free(rd) && Free(rs1) && Free(rs2)
      && (op.Logic? && rd != X0 ==> rd != SP && rs1 != SP && rs2 != SP)
    case IType(op, rd, rs1, _) => Free(rd) && Free(rs1) && !op.Sub? && !op.ShiftBy?
      && (op.Logic? && rd != X0 ==> rd != SP && rs1 != SP)
    case ShiftImm(_, rd, rs1, n) => Free(rd) && Free(rs1) && n < 32
    case Lb(rd, rs1, _) => Free(rd) && Free(rs1) && rd != SP
    case Lh(rd, rs1, off) => Free(rd) && Free(rs1) && off < 2047
    case Lhu(rd, rs1, off) => Free(rd) && Free(rs1) && off < 2047
    case Sh(rs2, rs1, off) => Free(rs2) && Free(rs1) && off < 2047
    case Jal(rd, _) => Free(rd)
    case Branch(_, rs1, rs2, _) => Free(rs1) && Free(rs2)
    case Seqz(rd, rs1) => Free(rd) && Free(rs1) && rd != S0 && rd != SP
    case Sltz(rd, rs1) => Free(rd) && Free(rs1) && rd != SP
    case Not(rd, rs1) => Free(rd) && Free(rs1)
  }

  /** The three-register macros. */
  function LowerAlu(t: Layout, op: AluOp, rd: Reg, rs1: Reg, rs2: Reg): seq<Base> {
    match op
    case Sub => Macros.Sub(t, rd, rs1, rs2)
    case Slt => SltTemplate(t, t.slt, rd, rs1, rs2)
    case Sltu => SltTemplate(t, t.sltu, rd, rs1, rs2)
    case Logic(b) => Macros.Logic(t, b, rd, rs1, rs2)
    case ShiftBy(k) => (
      match k
      case Sll => SllMacro(t, rd, rs1, rs2)
      case Srl => ShiftRight(t, rd, rs1, InReg(rs2), false)
      case Sra => ShiftRight(t, rd, rs1, InReg(rs2), true))
  }

  /** The condition part of a branch: a 0/1 value in `tp`, and whether 1 means taken. */
  function LowerCond(t: Layout, c: Cond, rs1: Reg, rs2: Reg): seq<Base> {
    match c
    case Eq => LowerEq(t, rs1, rs2)
    case Ne => LowerEq(t, rs1, rs2)
    case Lt =>
      if rs2 == X0 then Msb(TP, rs1)
      else if rs1 == X0 then NotPositive(t, rs2)
      else SltTemplate(t, t.slt, TP, rs1, rs2)
    case Ge => if rs1 == X0 then NotPositive(t, rs2) else SltTemplate(t, t.slt, TP, rs1, rs2)
    case Ltu => SltTemplate(t, t.sltu, TP, rs1, rs2)
    case Geu => SltTemplate(t, t.sltu, TP, rs1, rs2)
  }

  function LowerEq(t: Layout, rs1: Reg, rs2: Reg): seq<Base> {
    if rs2 == X0 then Macros.Seqz(t, TP, rs1)
    else if rs1 == X0 then Macros.Seqz(t, TP, rs2)
    else Seq(t, TP, rs1, rs2)
  }

  predicate OneIsTaken(c: Cond, rs1: Reg, rs2: Reg) {
    match c
    case Eq => true
    case Ne => false
    case Lt => rs2 == X0 || rs1 != X0
    case Ge => rs1 == X0
    case Ltu => true
    case Geu => false
  }

  /** The expansion without its final jump; `next` and `target` are code addresses. */
  function Body(t: Layout, i: Src, next: Word, target: Word): (code: seq<Base>)
    requires Covered(i)
    ensures NoJump(code)
  {
    match i
    case Plain(b) => if b.Jalr? then [] else [b]
    case RType(op, rd, rs1, rs2) => LowerAlu(t, op, rd, rs1, rs2)
    case IType(op, rd, rs1, imm) => Li(TP, imm) + LowerAlu(t, op, rd, rs1, TP)
    case ShiftImm(k, rd, rs1, n) => (
      match k
      case Sll => Slli(rd, rs1, n)
      case Srl => ShiftRight(t, rd, rs1, Imm(n), false)
      case Sra => ShiftRight(t, rd, rs1, Imm(n), true))
    case Lb(rd, rs1, off) => Macros.Lb(t, rd, rs1, off)
    case Lh(rd, rs1, off) => Macros.Lh(t, rd, rs1, off)
    case Lhu(rd, rs1, off) => Macros.Lhu(rd, rs1, off)
    case Sh(rs2, rs1, off) => Macros.Sh(rs2, rs1, off)
    case Jal(rd, _) => La(if rd == X0 then TP else rd, target)
    case Branch(c, rs1, rs2, _) => LowerCond(t, c, rs1, rs2) + Resolve(target, next, OneIsTaken(c, rs1, rs2))
    case Seqz(rd, rs1) => Macros.Seqz(t, rd, rs1)
    case Sltz(rd, rs1) => Msb(rd, rs1)
    case Not(rd, rs1) => Macros.Not(t, rd, rs1)
  }

  /** The final jump of an expansion, if it has one. */
  function Jump(i: Src): seq<Base> {
    match i
    case Plain(b) => if b.Jalr? then [b] else []
    case Jal(rd, _) => if rd == X0 then [Jalr(TP, TP, 0)] else [Jalr(rd, rd, 0)]
    case Branch(_, _, _, _) => [Jalr(X0, TP, 0)]
    case _ => []
  }

  function Expand(t: Layout, i: Src, next: Word, target: Word): seq<Base>
    requires Covered(i)
  {
    Body(t, i, next, target) + Jump(i)
  }
}
