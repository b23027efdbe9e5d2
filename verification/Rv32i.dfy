/** The source instructions and their meaning in the RV32I instruction set, before lowering. */
module Rv32i {
  import opened Bits
  import opened Machine
  import opened Tables
  import opened Words
  import opened WordTypes

  datatype AluOp = Sub | Slt | Sltu | Logic(op: BitOp) | ShiftBy(k: Shift)

  datatype Cond = Eq | Ne | Lt | Ge | Ltu | Geu

  datatype Src =
    | Plain(i: Base)
    | RType(op: AluOp, rd: Reg, rs1: Reg, rs2: Reg)
    | IType(op: AluOp, rd: Reg, rs1: Reg, imm: Imm12)
    | ShiftImm(k: Shift, rd: Reg, rs1: Reg, n: nat)
    | Lb(rd: Reg, rs1: Reg, off: Imm12)
    | Lh(rd: Reg, rs1: Reg, off: Imm12)
    | Lhu(rd: Reg, rs1: Reg, off: Imm12)
    | Sh(rs2: Reg, rs1: Reg, off: Imm12)
    | Jal(rd: Reg, dest: nat)
    | Branch(c: Cond, rs1: Reg, rs2: Reg, dest: nat)
    | Seqz(rd: Reg, rs1: Reg)
    | Sltz(rd: Reg, rs1: Reg)
    | Not(rd: Reg, rs1: Reg)
  {
    predicate IsJump() {
      Jal? || Branch? || (Plain? && i.Jalr?)
    }
  }

  /** Section 2.4 of the unprivileged specification: integer computation. */
  function Alu(op: AluOp, x: Word, y: Word): Word {
    match op
    case Sub => Wrap(x - y)
    case Slt => Flag(Signed(x) < Signed(y))
    case Sltu => Flag(x < y)
    case Logic(op) => BitOp32(op, x, y)
    case ShiftBy(k) => ShiftWord(k, x, y % 32)
  }

  /** A 12-bit immediate, sign-extended. */
  function SignExtend(imm: Imm12): Word {
    Unsigned(imm)
  }

  /** Section 2.5: when a conditional branch is taken. */
  predicate Taken(c: Cond, x: Word, y: Word) {
    match c
    case Eq => x == y
    case Ne => x != y
    case Lt => Signed(x) < Signed(y)
    case Ge => Signed(x) >= Signed(y)
    case Ltu => x < y
    case Geu => x >= y
  }

  function ByteSigned(b: Byte): Word {
    Unsigned(if b < 128 then b else b as int - 256)
  }

  /** The halfword `b1:b0`, sign-extended. */
  function HalfSigned(b0: Byte, b1: Byte): Word {
    Unsigned(b0 + 256 * (if b1 < 128 then b1 else b1 as int - 256))
  }

  function HalfUnsigned(b0: Byte, b1: Byte): Word {
    var h: int := b1;
    b0 + 256 * h
  }

  /** What an instruction that does not jump does to registers and memory. */
  function SrcExec(i: Src, d: Data): Data
    requires !i.IsJump()
    requires i.ShiftImm? ==> i.n < 32
  {
    match i
    case Plain(b) => Exec(b, d)
    case RType(op, rd, rs1, rs2) => d.Set(rd, Alu(op, d.Get(rs1), d.Get(rs2)))
    case IType(op, rd, rs1, imm) => d.Set(rd, Alu(op, d.Get(rs1), SignExtend(imm)))
    case ShiftImm(k, rd, rs1, n) => d.Set(rd, ShiftWord(k, d.Get(rs1), n))
    case Lb(rd, rs1, off) => d.Set(rd, ByteSigned(d.Load(d.Addr(rs1, off))))
    case Lh(rd, rs1, off) => d.Set(rd, HalfSigned(d.Load(d.Addr(rs1, off)), d.Load(Wrap(d.Addr(rs1, off) + 1))))
    case Lhu(rd, rs1, off) => d.Set(rd, HalfUnsigned(d.Load(d.Addr(rs1, off)), d.Load(Wrap(d.Addr(rs1, off) + 1))))
    case Sh(rs2, rs1, off) =>
      d.Store(d.Addr(rs1, off), ByteOf(d.Get(rs2), 0)).Store(Wrap(d.Addr(rs1, off) + 1), ByteOf(d.Get(rs2), 1))
    case Seqz(rd, rs1) => d.Set(rd, Flag(d.Get(rs1) == 0))
    case Sltz(rd, rs1) => d.Set(rd, Flag(Signed(d.Get(rs1)) < 0))
    case Not(rd, rs1) => d.Set(rd, BitOp32(Xor, d.Get(rs1), 0xffff_ffff))
  }

  /** The bytes an instruction reads. */
  function Reads(i: Src, d: Data): set<Word> {
    match i
    case Plain(b) => (
      match b
      case Lw(_, rs1, off) => WordAt(d.Addr(rs1, off))
      case Lbu(_, rs1, off) => {d.Addr(rs1, off)}
      case _ => {})
    case Lb(_, rs1, off) => {d.Addr(rs1, off)}
    case Lh(_, rs1, off) => {d.Addr(rs1, off), Wrap(d.Addr(rs1, off) + 1)}
    case Lhu(_, rs1, off) => {d.Addr(rs1, off), Wrap(d.Addr(rs1, off) + 1)}
    case _ => {}
  }

  /** The bytes an instruction writes. */
  function Writes(i: Src, d: Data): set<Word> {
    match i
    case Plain(b) => (
      match b
      case Sw(_, rs1, off) => WordAt(d.Addr(rs1, off))
      case Sb(_, rs1, off) => {d.Addr(rs1, off)}
      case _ => {})
    case Sh(_, rs1, off) => {d.Addr(rs1, off), Wrap(d.Addr(rs1, off) + 1)}
    case _ => {}
  }

  function WordAt(a: Word): set<Word> {
    {a, Wrap(a + 1), Wrap(a + 2), Wrap(a + 3)}
  }
}
