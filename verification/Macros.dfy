/** The assembler macros of the lowering, each as the base instructions it expands to. */
module Macros {
  import opened Bits
  import opened Machine
  import opened Tables
  import opened WordTypes

  /** Addresses of the read-only tables and of the one writable array. */
  datatype Layout = Layout(check: Word, same: Word, zero: Word, slt: Word, sltu: Word, or1: Word, lut: Word)

  // Byte offsets from `sp` of the scratch words VAR_A .. VAR_D and of the three save slots.
  const A: int := -16
  const B: int := -20
  const C: int := -24
  const D: int := -28
  const SAVE1: int := -4
  const SAVE2: int := -8
  const SAVE3: int := -12

  /** Straight-line code. */
  ghost predicate NoJump(code: seq<Base>) {
    forall j :: 0 <= j < |code| ==> !code[j].Jalr?
  }

  /** The `%hi` and `%lo` parts of an address. */
  function Hi(a: Word): int {
    (a + 2048) / 4096
  }

  function Lo(a: Word): Imm12 {
    (a + 2048) % 4096 - 2048
  }

  function La(r: Reg, a: Word): (code: seq<Base>)
    ensures NoJump(code)
  {
    [Lui(r, Hi(a)), Addi(r, r, Lo(a))]
  }

  function Li(r: Reg, imm: Imm12): (code: seq<Base>)
    ensures NoJump(code)
  {
    [Addi(r, X0, imm)]
  }

  function Mv(rd: Reg, rs1: Reg): (code: seq<Base>)
    ensures NoJump(code)
  {
    [Addi(rd, rs1, 0)]
  }

  function Getbyte(rd: Reg, rs1: Reg, k: nat): (code: seq<Base>)
    requires k < 4
    ensures NoJump(code)
  {
    [Sw(rs1, SP, C), Lbu(rd, SP, C + k)]
  }

  /** `add rd, rd, rd`, `n` times. */
  function Doublings(rd: Reg, n: nat): (code: seq<Base>)
    ensures NoJump(code)
  {
    if n == 0 then [] else Doublings(rd, n - 1) + [Add(rd, rd, rd)]
  }

  function Sh(rs2: Reg, rs1: Reg, off: Imm12): (code: seq<Base>)
    requires off < 2047
    ensures NoJump(code)
  {
    [Sb(rs2, rs1, off)] + Getbyte(TP, rs2, 1) + [Sb(TP, rs1, off + 1)]
  }

  function Slli(rd: Reg, rs1: Reg, imm: nat): (code: seq<Base>)
    requires imm < 32
    ensures NoJump(code)
    decreases imm
  {
    if imm == 0 then
      if rd != rs1 then Mv(rd, rs1) else []
    else if imm >= 24 then
      [Sw(X0, SP, A), Sb(rs1, SP, A + 3), Lw(rd, SP, A)] + Slli(rd, rd, imm - 24)
    else if imm >= 16 then
      [Sw(X0, SP, A)] + Sh(rs1, SP, A + 2) + [Lw(rd, SP, A)] + Slli(rd, rd, imm - 16)
    else
      [Add(rd, rs1, rs1)] + Doublings(rd, imm - 1)
  }

  function Msb(rd: Reg, rs1: Reg): (code: seq<Base>)
    ensures NoJump(code)
  {
    Getbyte(rd, rs1, 3) + Slli(rd, rd, 1) + Getbyte(rd, rd, 1)
  }

  function NotByte(k: nat): (code: seq<Base>)
    requires k < 4
    ensures NoJump(code)
  {
    [Lbu(GP, SP, C + k), Add(GP, GP, TP), Lbu(GP, GP, 0), Sb(GP, SP, D + k)]
  }

  function NotBytes(): (code: seq<Base>)
    ensures NoJump(code)
  {
    NotByte(3) + NotByte(2) + NotByte(1) + NotByte(0)
  }

  function Not(t: Layout, rd: Reg, rs1: Reg): (code: seq<Base>)
    ensures NoJump(code)
  {
    [Sw(GP, SP, SAVE3), Sw(rs1, SP, C)] + La(TP, LutAddr(t, LogicOffset(Xor) + 0xff00))
    + NotBytes()
    + [Lw(GP, SP, SAVE3), Lw(rd, SP, D)]
  }

  /** An address inside the look-up table, as the linker computes it. */
  function LutAddr(t: Layout, k: nat): Word
    requires k < LUT_SIZE
  {
    Wrap(t.lut + k)
  }

  function Sub(t: Layout, rd: Reg, rs1: Reg, rs2: Reg): (code: seq<Base>)
    ensures NoJump(code)
  {
    Not(t, TP, rs2) + [Add(rd, rs1, TP), Addi(rd, rd, 1)]
  }

  function SltOperands(rs1: Reg, rs2: Reg): (code: seq<Base>)
    ensures NoJump(code)
  {
    [Sw(S0, SP, SAVE1), Sw(S1, SP, SAVE2), Sw(rs2, SP, A)] + Mv(S0, rs1) + [Lw(S1, SP, A)]
  }

  /** `gp` becomes the three sign bits of `s0`, `s1` and `s0 - s1`. */
  function SltBits(t: Layout): (code: seq<Base>)
    ensures NoJump(code)
  {
    OperandSigns() + (Sub(t, TP, S0, S1) + Msb(TP, TP) + [Add(GP, GP, TP)])
  }

  function OperandSigns(): (code: seq<Base>)
    ensures NoJump(code)
  {
    (Msb(GP, S0) + Slli(GP, GP, 1)) + (Msb(TP, S1) + [Add(GP, GP, TP)] + Slli(GP, GP, 1))
  }

  function SltTemplate(t: Layout, table: Word, rd: Reg, rs1: Reg, rs2: Reg): (code: seq<Base>)
    ensures NoJump(code)
  {
    SltOperands(rs1, rs2) + SltBits(t) + (La(TP, table) + [Add(TP, TP, GP)])
    + [Lw(S1, SP, SAVE2), Lw(S0, SP, SAVE1), Lbu(rd, TP, 0)]
  }

  function LogicByte(lut: Reg, k: nat): (code: seq<Base>)
    requires k < 4
    ensures NoJump(code)
  {
    [Lbu(TP, SP, A + k), Sb(TP, SP, D + 1), Lbu(TP, SP, B + k), Sb(TP, SP, D)]
    + [Lw(TP, SP, D), Add(TP, lut, TP), Lbu(TP, TP, 0), Sb(TP, SP, C + k)]
  }

  function Logic(t: Layout, op: BitOp, rd: Reg, rs1: Reg, rs2: Reg): (code: seq<Base>)
    ensures NoJump(code)
  {
    if rd == X0 then []
    else
      [Sw(rs1, SP, A), Sw(rs2, SP, B)] + La(rd, LutAddr(t, LogicOffset(op))) + [Sw(X0, SP, D)]
      + LogicBytes(rd) + [Lw(rd, SP, C)]
  }

  function LogicBytes(lut: Reg): (code: seq<Base>)
    ensures NoJump(code)
  {
    LogicByte(lut, 3) + LogicByte(lut, 2) + LogicByte(lut, 1) + LogicByte(lut, 0)
  }

  /** `rd` becomes 0 when byte `k` of VAR_A and VAR_B agree and 1 otherwise. */
  function Check8Same(table: Reg, rd: Reg, k: nat): (code: seq<Base>)
    requires k < 4
    ensures NoJump(code)
  {
    [Lbu(rd, SP, A + k), Add(TP, table, rd), Addi(rd, X0, 1), Sb(rd, TP, 0)]
    + [Lbu(rd, SP, B + k), Add(rd, table, rd), Sb(X0, rd, 0), Lbu(rd, TP, 0)]
  }

  function Seq(t: Layout, rd: Reg, rs1: Reg, rs2: Reg): (code: seq<Base>)
    ensures NoJump(code)
  {
    [Sw(rs1, SP, A), Sw(rs2, SP, B), Sw(S0, SP, SAVE1), Sw(S1, SP, SAVE2)]
    + La(S0, t.check) + CountDifferent() + (La(TP, t.same) + [Add(TP, TP, GP)] + [Lbu(rd, TP, 0)])
    + [Lw(S1, SP, SAVE2), Lw(S0, SP, SAVE1)]
  }

  /** `gp` becomes the number of byte positions where VAR_A and VAR_B differ. */
  function CountDifferent(): (code: seq<Base>)
    ensures NoJump(code)
  {
    Check8Same(S0, GP, 0)
    + (Check8Same(S0, S1, 1) + [Add(GP, GP, S1)])
    + (Check8Same(S0, S1, 2) + [Add(GP, GP, S1)])
    + (Check8Same(S0, S1, 3) + [Add(GP, GP, S1)])
  }

  function Check8Zero(table: Reg, rd: Reg, k: nat): (code: seq<Base>)
    requires k < 4
    ensures NoJump(code)
  {
    [Lbu(rd, SP, A + k), Add(rd, table, rd), Lbu(rd, rd, 0)]
  }

  function Seqz(t: Layout, rd: Reg, rs1: Reg): (code: seq<Base>)
    ensures NoJump(code)
  {
    [Sw(rs1, SP, A), Sw(S0, SP, SAVE1)] + La(S0, t.zero)
    + CountNonZero() + (La(TP, t.same) + [Add(TP, TP, GP)] + [Lbu(rd, TP, 0)])
    + [Lw(S0, SP, SAVE1)]
  }

  /** `gp` becomes the number of bytes of VAR_A that are not zero. */
  function CountNonZero(): (code: seq<Base>)
    ensures NoJump(code)
  {
    Check8Zero(S0, GP, 0)
    + (Check8Zero(S0, TP, 1) + [Add(GP, GP, TP)])
    + (Check8Zero(S0, TP, 2) + [Add(GP, GP, TP)])
    + (Check8Zero(S0, TP, 3) + [Add(GP, GP, TP)])
  }

  /** Everything of `branch_resolve` up to its final `jr tp`. */
  function Resolve(target: Word, next: Word, highIsTarget: bool): (code: seq<Base>)
    ensures NoJump(code)
  {
    (Slli(TP, TP, 2) + [Add(TP, SP, TP)])
    + (La(GP, if highIsTarget then target else next) + [Sw(GP, SP, A)])
    + (La(GP, if highIsTarget then next else target) + [Sw(GP, SP, B)])
    + [Lw(TP, TP, B)]
  }

  /** `tp` becomes 1 unless `rs2` is positive as a signed number. */
  function NotPositive(t: Layout, rs2: Reg): (code: seq<Base>)
    ensures NoJump(code)
  {
    (Msb(GP, rs2) + [Addi(TP, rs2, -1)] + Msb(TP, TP)) + [Add(GP, GP, TP)]
    + (La(TP, t.or1) + [Add(TP, GP, TP)] + [Lbu(TP, TP, 0)])
  }

  function Getshamt(t: Layout, rd: Reg, rs1: Reg): (code: seq<Base>)
    ensures NoJump(code)
  {
    [Sb(rs1, SP, B), Lbu(rd, SP, B)] + La(TP, LutAddr(t, LogicOffset(And) + 0x1f00))
    + [Add(rd, rd, TP), Lbu(rd, rd, 0)]
  }

  /** `tp` becomes the table word for byte `k` of VAR_A. */
  function ShiftByte(base: Reg, k: nat): (code: seq<Base>)
    requires k < 4
    ensures NoJump(code)
  {
    [Lbu(TP, SP, A + k)] + Slli(TP, TP, 2) + [Add(TP, base, TP), Lw(TP, TP, 0)]
  }

  /** `s0` becomes the address of the table row for the shift amount in `rs2`. */
  function ShiftRow(t: Layout, table: Shift, rs2: Reg): (code: seq<Base>)
    ensures NoJump(code)
  {
    Getshamt(t, S0, rs2)
    + ([Sw(X0, SP, B), Sb(S0, SP, B + 1), Lw(S0, SP, B)] + Slli(S0, S0, 2))
    + (La(TP, LutAddr(t, ShiftOffset(table))) + [Add(S0, S0, TP)])
  }

  function SllMacro(t: Layout, rd: Reg, rs1: Reg, rs2: Reg): (code: seq<Base>)
    ensures NoJump(code)
  {
    [Sw(S0, SP, SAVE1), Sw(rs1, SP, A)] + ShiftRow(t, Sll, rs2) + SllBytes()
    + [Lw(S0, SP, SAVE1), Add(rd, GP, TP)]
  }

  /** All of `sll` but its last addition: `gp` and `tp` hold the two summands. */
  function SllBytes(): (code: seq<Base>)
    ensures NoJump(code)
  {
    SllByte3() + SllByte2() + SllByte1() + ShiftByte(S0, 0)
  }

  function SllByte3(): (code: seq<Base>)
    ensures NoJump(code)
  {
    [Sw(X0, SP, B)] + ShiftByte(S0, 3) + [Sb(TP, SP, B + 3), Lw(GP, SP, B)]
  }

  function SllByte2(): (code: seq<Base>)
    ensures NoJump(code)
  {
    ShiftByte(S0, 2) + Sh(TP, SP, B + 2) + [Lw(TP, SP, B), Add(GP, GP, TP)]
  }

  function SllByte1(): (code: seq<Base>)
    ensures NoJump(code)
  {
    ShiftByte(S0, 1) + Slli(TP, TP, 8) + [Add(GP, GP, TP)]
  }

  /** The shift amount is either a register or an immediate. */
  datatype Amount = InReg(r: Reg) | Imm(n: nat)

  function ShiftRight(t: Layout, rd: Reg, rs1: Reg, amount: Amount, arith: bool): (code: seq<Base>)
    requires amount.Imm? ==> amount.n < 32
    ensures NoJump(code)
  {
    if amount == Imm(24) then
      if arith then
        [Sw(rs1, SP, A)] + La(TP, LutAddr(t, ShiftOffset(Sra) + 24 * 1024)) + FastSra(rd)
      else
        Getbyte(rd, rs1, 3)
    else
      [Sw(S0, SP, SAVE1), Sw(rs1, SP, A)]
      + SelectRow(t, amount) + ShiftRightBytes(arith)
      + [Lw(S0, SP, SAVE1), Add(rd, GP, TP)]
  }

  function SelectRow(t: Layout, amount: Amount): (code: seq<Base>)
    requires amount.Imm? ==> amount.n < 32
    ensures NoJump(code)
  {
    match amount
    case InReg(r) => ShiftRow(t, Srl, r)
    case Imm(n) => La(S0, LutAddr(t, ShiftOffset(Srl) + n * 1024))
  }

  function FastSra(rd: Reg): (code: seq<Base>)
    ensures NoJump(code)
  {
    [Lbu(rd, SP, A + 3)] + Slli(rd, rd, 2) + [Add(TP, TP, rd), Lw(rd, TP, 0)]
  }

  /** All of the right shift but its last addition: `gp` and `tp` hold the two summands. */
  function ShiftRightBytes(arith: bool): (code: seq<Base>)
    ensures NoJump(code)
  {
    FetchLow() + LowBytes() + SelectTop(arith) + ShiftByte(S0, 3)
  }

  /** VAR_B, VAR_C and VAR_D become the table words for bytes 2, 1 and 0. */
  function FetchLow(): (code: seq<Base>)
    ensures NoJump(code)
  {
    (ShiftByte(S0, 2) + [Sw(TP, SP, B)]) + (ShiftByte(S0, 1) + [Sw(TP, SP, C)]) + (ShiftByte(S0, 0) + [Sw(TP, SP, D)])
  }

  /** Combines the shifted-out parts of bytes 0, 1 and 2 into `gp`. */
  function LowBytes(): (code: seq<Base>)
    ensures NoJump(code)
  {
    LowByte0() + LowByte1() + [Lbu(GP, SP, B + 3), Sb(GP, SP, D + 2), Lw(GP, SP, D)]
  }

  function LowByte0(): (code: seq<Base>)
    ensures NoJump(code)
  {
    [Lbu(GP, SP, B + 1), Lbu(TP, SP, C + 2), Add(GP, GP, TP)] + [Lbu(TP, SP, D + 3), Add(GP, GP, TP), Sw(GP, SP, D)]
  }

  function LowByte1(): (code: seq<Base>)
    ensures NoJump(code)
  {
    [Lbu(GP, SP, B + 2), Lbu(TP, SP, C + 3), Add(GP, GP, TP), Sb(GP, SP, D + 1)]
  }

  function SelectTop(arith: bool): (code: seq<Base>)
    ensures NoJump(code)
  {
    if arith then La(TP, ShiftOffset(Sra) - ShiftOffset(Srl)) + [Add(S0, S0, TP)] else []
  }

  function Lb(t: Layout, rd: Reg, rs1: Reg, off: Imm12): (code: seq<Base>)
    ensures NoJump(code)
  {
    [Sw(X0, SP, A), Lbu(rd, rs1, off), Sb(rd, SP, A + 3), Lw(rd, SP, A)]
    + ShiftRight(t, rd, rd, Imm(24), true)
  }

  function Lhu(rd: Reg, rs1: Reg, off: Imm12): (code: seq<Base>)
    requires off < 2047
    ensures NoJump(code)
  {
    [Sw(X0, SP, A), Lbu(TP, rs1, off + 1), Sb(TP, SP, A + 1), Lw(TP, SP, A)]
    + [Lbu(rd, rs1, off), Add(rd, rd, TP)]
  }

  function Lh(t: Layout, rd: Reg, rs1: Reg, off: Imm12): (code: seq<Base>)
    requires off < 2047
    ensures NoJump(code)
  {
    [Sw(X0, SP, A), Lbu(GP, rs1, off + 1), Sb(GP, SP, A + 3), Lw(GP, SP, A)]
    + ShiftRight(t, GP, GP, Imm(16), true)
    + [Lbu(rd, rs1, off), Add(rd, rd, GP)]
  }
}
