/** The base machine: 32-bit registers, byte memory, and the eight base instructions. */
module Machine {
  import opened WordTypes

  type Reg = r: int | 0 <= r < 32
  type Imm12 = i: int | -2048 <= i < 2048

  const X0: Reg := 0
  const RA: Reg := 1
  const SP: Reg := 2
  const GP: Reg := 3
  const TP: Reg := 4
  const S0: Reg := 8
  const S1: Reg := 9

  /** Reduction of a sum or difference of two words modulo 2^32. */
  function Wrap(x: int): (r: Word)
    requires -W <= x < 2 * W
  {
    if x < 0 then x + W else if x >= W then x - W else x
  }

  /** Byte `k` of a word, byte 0 being the least significant. */
  function ByteOf(v: Word, k: nat): (b: Byte)
    requires k < 4
  {
    if k == 0 then v % 256
    else if k == 1 then v / 256 % 256
    else if k == 2 then v / 256 / 256 % 256
    else v / 256 / 256 / 256
  }

  function WordOf(b0: Byte, b1: Byte, b2: Byte, b3: Byte): Word {
    b0 + 256 * b1 + 65536 * b2 + 16777216 * b3
  }

  /** Registers and memory; absent entries read as zero, and `x0` always does. */
  datatype Data = Data(regs: map<Reg, Word>, mem: map<Word, Byte>) {
    function Get(r: Reg): Word {
      if r == 0 || r !in regs then 0 else regs[r]
    }

    function Load(a: Word): Byte {
      if a in mem then mem[a] else 0
    }

    function LoadWord(a: Word): Word {
      WordOf(Load(a), Load(Wrap(a + 1)), Load(Wrap(a + 2)), Load(Wrap(a + 3)))
    }

    function Set(r: Reg, v: Word): (d: Data)
      ensures d.mem == mem && forall a: Word :: d.Load(a) == Load(a)
      ensures forall q: Reg :: d.Get(q) == if q == r && r != 0 then v else Get(q)
    {
      this.(regs := regs[r := v])
    }

    function Store(a: Word, b: Byte): (d: Data)
      ensures d.regs == regs && forall r: Reg :: d.Get(r) == Get(r)
      ensures forall q: Word :: d.Load(q) == if q == a then b else Load(q)
    {
      this.(mem := mem[a := b])
    }

    /** The byte at `q` once the word `v` has been stored at `a`, lowest byte first. */
    function Patched(q: Word, a: Word, v: Word): Byte {
      if q == a then ByteOf(v, 0)
      else if q == Wrap(a + 1) then ByteOf(v, 1)
      else if q == Wrap(a + 2) then ByteOf(v, 2)
      else if q == Wrap(a + 3) then ByteOf(v, 3)
      else Load(q)
    }

    function StoreWord(a: Word, v: Word): (d: Data)
      ensures d.regs == regs && forall r: Reg :: d.Get(r) == Get(r)
      ensures forall q: Word :: d.Load(q) == Patched(q, a, v)
    {
      Store(a, ByteOf(v, 0)).Store(Wrap(a + 1), ByteOf(v, 1))
        .Store(Wrap(a + 2), ByteOf(v, 2)).Store(Wrap(a + 3), ByteOf(v, 3))
    }

    /** The effective address `off(r)`. */
    function Addr(r: Reg, off: Imm12): Word {
      Wrap(Get(r) + off)
    }
  }

  datatype Base =
    | Add(rd: Reg, rs1: Reg, rs2: Reg)
    | Addi(rd: Reg, rs1: Reg, imm: Imm12)
    | Lui(rd: Reg, hi: int)
    | Lw(rd: Reg, rs1: Reg, off: Imm12)
    | Lbu(rd: Reg, rs1: Reg, off: Imm12)
    | Sw(rs2: Reg, rs1: Reg, off: Imm12)
    | Sb(rs2: Reg, rs1: Reg, off: Imm12)
    | Jalr(rd: Reg, rs1: Reg, off: Imm12)

  /** What an instruction other than `jalr` does to registers and memory. */
  function Exec(i: Base, d: Data): Data {
    match i
    case Add(rd, rs1, rs2) => d.Set(rd, Wrap(d.Get(rs1) + d.Get(rs2)))
    case Addi(rd, rs1, imm) => d.Set(rd, Wrap(d.Get(rs1) + imm))
    case Lui(rd, hi) => d.Set(rd, hi % 0x100000 * 4096)
    case Lw(rd, rs1, off) => d.Set(rd, d.LoadWord(d.Addr(rs1, off)))
    case Lbu(rd, rs1, off) => d.Set(rd, d.Load(d.Addr(rs1, off)))
    case Sw(rs2, rs1, off) => d.StoreWord(d.Addr(rs1, off), d.Get(rs2))
    case Sb(rs2, rs1, off) => d.Store(d.Addr(rs1, off), ByteOf(d.Get(rs2), 0))
    case Jalr(_, _, _) => d
  }

  /** Straight-line execution. */
  function Run(code: seq<Base>, d: Data): Data {
    if code == [] then d else Run(code[1..], Exec(code[0], d))
  }

  lemma {:induction false} RunAppend(x: seq<Base>, y: seq<Base>, d: Data)
    ensures Run(x + y, d) == Run(y, Run(x, d))
  {
    if x == [] {
      assert x + y == y;
    } else {
      assert (x + y)[1..] == x[1..] + y;
      RunAppend(x[1..], y, Exec(x[0], d));
    }
  }

  lemma Run1(i: Base, d: Data)
    ensures Run([i], d) == Exec(i, d)
  {
    assert [i][1..] == [];
  }

  lemma Run2(i: Base, j: Base, d: Data)
    ensures Run([i, j], d) == Exec(j, Exec(i, d))
  {
    assert [i, j][1..] == [j];
    Run1(j, Exec(i, d));
  }

  lemma Run3(i: Base, j: Base, k: Base, d: Data)
    ensures Run([i, j, k], d) == Exec(k, Exec(j, Exec(i, d)))
  {
    assert [i, j, k][1..] == [j, k];
    Run2(j, k, Exec(i, d));
  }

  lemma Run4(i: Base, j: Base, k: Base, l: Base, d: Data)
    ensures Run([i, j, k, l], d) == Exec(l, Exec(k, Exec(j, Exec(i, d))))
  {
    assert [i, j, k, l][1..] == [j, k, l];
    Run3(j, k, l, Exec(i, d));
  }

  lemma WordBytes(v: Word)
    ensures WordOf(ByteOf(v, 0), ByteOf(v, 1), ByteOf(v, 2), ByteOf(v, 3)) == v
  {
  }

  lemma BytesWord(b0: Byte, b1: Byte, b2: Byte, b3: Byte)
    ensures var v := WordOf(b0, b1, b2, b3);
      ByteOf(v, 0) == b0 && ByteOf(v, 1) == b1 && ByteOf(v, 2) == b2 && ByteOf(v, 3) == b3
  {
  }
}
