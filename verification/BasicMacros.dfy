/** What the building-block macros compute, and which registers and memory they leave alone. */
module BasicMacros {
  import opened Bits
  import opened Machine
  import opened Tables
  import opened Macros
  import opened Words
  import opened WordTypes

  /** Memory is unchanged outside `[lo, hi)`. */
  ghost predicate MemKept(d: Data, d': Data, lo: int, hi: int) {
    forall a: Word :: !(lo <= a < hi) ==> d'.Load(a) == d.Load(a)
  }

  /** A small table stored at `base`. */
  ghost predicate Holds(d: Data, base: Word, bytes: seq<Byte>) {
    base + |bytes| <= W && forall a: Word :: base <= a < base + |bytes| ==> d.Load(a) == bytes[a - base]
  }

  /** The scratch words below `sp` exist and do not overlap `[base, base + size)`. */
  ghost predicate Apart(sp: Word, base: Word, size: nat) {
    28 <= sp && (base + size <= sp - 28 || sp <= base)
  }

  lemma HoldsKept(d: Data, d': Data, base: Word, bytes: seq<Byte>, lo: int, hi: int)
    requires Holds(d, base, bytes) && MemKept(d, d', lo, hi)
    requires hi <= base || base + |bytes| <= lo
    ensures Holds(d', base, bytes)
  {
  }

  lemma WordKept(d: Data, d': Data, a: int, lo: int, hi: int)
    requires MemKept(d, d', lo, hi)
    requires 0 <= a < W - 3 && (hi <= a || a + 4 <= lo)
    ensures d'.LoadWord(a) == d.LoadWord(a)
  {
  }

  lemma SameMemory(d: Data, d': Data)
    requires d'.mem == d.mem
    ensures forall a: Word :: d'.Load(a) == d.Load(a)
    ensures forall a: Word :: d'.LoadWord(a) == d.LoadWord(a)
  {
  }

  lemma LoadedBytes(d: Data, a: int, v: Word)
    requires 0 <= a < W - 3 && d.LoadWord(a) == v
    ensures d.Load(a) == ByteOf(v, 0) && d.Load(a + 1) == ByteOf(v, 1)
    ensures d.Load(a + 2) == ByteOf(v, 2) && d.Load(a + 3) == ByteOf(v, 3)
  {
    BytesWord(d.Load(a), d.Load(a + 1), d.Load(a + 2), d.Load(a + 3));
  }

  lemma ZeroBytes()
    ensures ByteOf(0, 0) == 0 && ByteOf(0, 2) == 0 && ByteOf(0, 3) == 0
  {
  }

  lemma LowByte(x: Byte)
    ensures ByteOf(x, 0) == x
  {
  }

  /** Saving a register in the scratch area. */
  lemma SwOk(r: Reg, off: Imm12, d: Data) returns (d': Data)
    requires 28 <= d.Get(SP) && -28 <= off <= -4
    ensures d' == Exec(Sw(r, SP, off), d)
    ensures d'.regs == d.regs && forall q: Reg :: d'.Get(q) == d.Get(q)
    ensures d'.LoadWord(d.Get(SP) + off) == d.Get(r)
    ensures MemKept(d, d', d.Get(SP) + off, d.Get(SP) + off + 4)
  {
    d' := Exec(Sw(r, SP, off), d);
    WordBytes(d.Get(r));
  }

  lemma LaOk(r: Reg, a: Word, d: Data) returns (d': Data)
    requires r != X0
    ensures d' == Run(La(r, a), d)
    ensures d'.mem == d.mem
    ensures forall q: Reg :: d'.Get(q) == if q == r then a else d.Get(q)
  {
    Run2(Lui(r, Hi(a)), Addi(r, r, Lo(a)), d);
    d' := Run(La(r, a), d);
    var q, m := (a + 2048) / 4096, (a + 2048) % 4096;
    assert a + 2048 == q * 4096 + m;
    if q == 0x100000 {
      assert q % 0x100000 == 0;
    } else {
      assert q % 0x100000 == q;
    }
  }

  lemma GetbyteOk(rd: Reg, rs1: Reg, k: nat, d: Data) returns (d': Data)
    requires k < 4 && 28 <= d.Get(SP)
    ensures d' == Run(Getbyte(rd, rs1, k), d)
    ensures forall r: Reg :: d'.Get(r) == if r == rd && rd != X0 then ByteOf(d.Get(rs1), k) else d.Get(r)
    ensures MemKept(d, d', d.Get(SP) + C, d.Get(SP) + B)
  {
    Run2(Sw(rs1, SP, C), Lbu(rd, SP, C + k), d);
    d' := Run(Getbyte(rd, rs1, k), d);
  }

  /** Repeated doubling multiplies by a power of two modulo 2^32. */
  lemma {:induction false} DoublingsOk(rd: Reg, n: nat, d: Data) returns (d': Data)
    requires n < 32
    ensures d' == Run(Doublings(rd, n), d)
    ensures d'.mem == d.mem
    ensures forall r: Reg :: d'.Get(r) == if r == rd && rd != X0 then Shl(d.Get(rd), n) else d.Get(r)
  {
    if n == 0 {
      d' := d;
    } else {
      var d1 := DoublingsOk(rd, n - 1, d);
      hide Run, Pow2, Shl;
      RunAppend(Doublings(rd, n - 1), [Add(rd, rd, rd)], d);
      Run1(Add(rd, rd, rd), d1);
      d' := Exec(Add(rd, rd, rd), d1);
      DoublePower(d.Get(rd), n);
    }
  }

  lemma DoublePower(x: Word, n: nat)
    requires 0 < n < 32
    ensures Wrap(Shl(x, n - 1) + Shl(x, n - 1)) == Shl(x, n)
  {
    var y := x * Pow2(n - 1);
    DoubleMod(y);
    DoubleProduct(x, Pow2(n - 1));
  }

  lemma DoubleMod(y: nat)
    ensures Wrap(y % W + y % W) == 2 * y % W
  {
    var q, r := y / W, y % W;
    if 2 * r < W {
      DivModUnique(2 * y, W, 2 * q, 2 * r);
    } else {
      DivModUnique(2 * y, W, 2 * q + 1, 2 * r - W);
    }
  }

  /** The short form of `slli`, which uses no memory. */
  lemma SlliSmallOk(rd: Reg, rs1: Reg, n: nat, d: Data) returns (d': Data)
    requires 1 <= n < 16
    ensures d' == Run(Slli(rd, rs1, n), d)
    ensures d'.mem == d.mem
    ensures forall r: Reg :: d'.Get(r) == if r == rd && rd != X0 then Shl(d.Get(rs1), n) else d.Get(r)
  {
    hide Run, Shl;
    Run1(Add(rd, rs1, rs1), d);
    var d1 := Exec(Add(rd, rs1, rs1), d);
    RunAppend([Add(rd, rs1, rs1)], Doublings(rd, n - 1), d);
    d' := DoublingsOk(rd, n - 1, d1);
    SlliArith(d.Get(rs1), n);
  }

  lemma SlliArith(x: Word, n: nat)
    requires 0 < n < 32
    ensures Shl(Wrap(x + x), n - 1) == Shl(x, n)
  {
    var p := Pow2(n - 1);
    assert Wrap(x + x) == 2 * x % W;
    ModMul(2 * x, p);
    assert 2 * x * p == x * (2 * p);
  }

  /** Reducing a factor first does not change a product modulo 2^32. */
  lemma ModMul(x: nat, p: nat)
    ensures x % W * p % W == x * p % W
  {
    var q, r := x / W, x % W;
    assert x == q * W + r;
    assert x * p == q * p * W + r * p;
    ModAddMultiple(r * p, q * p);
  }

  lemma ModAddMultiple(r: int, k: int)
    ensures (k * W + r) % W == r % W
  {
  }

  lemma Doubled(x: Word)
    requires x < 0x8000_0000
    ensures Shl(x, 1) == 2 * x
  {
    assert Pow2(1) == 2;
  }

  lemma TimesFour(x: Word)
    requires x < 0x4000_0000
    ensures Shl(x, 2) == 4 * x
  {
    assert Pow2(2) == 4;
  }

  lemma MsbOk(rd: Reg, rs1: Reg, d: Data) returns (d': Data)
    requires 28 <= d.Get(SP) && rd != SP
    ensures d' == Run(Msb(rd, rs1), d)
    ensures forall r: Reg :: d'.Get(r) == if r == rd && rd != X0 then d.Get(rs1) / 0x8000_0000 else d.Get(r)
    ensures MemKept(d, d', d.Get(SP) + C, d.Get(SP) + B)
  {
    hide Run, Getbyte, Slli, Shl, Data.LoadWord;
    var d1 := GetbyteOk(rd, rs1, 3, d);
    Doubled(ByteOf(d.Get(rs1), 3));
    var d2 := SlliSmallOk(rd, rd, 1, d1);
    SameMemory(d1, d2);
    d' := GetbyteOk(rd, rd, 1, d2);
    RunAppend(Getbyte(rd, rs1, 3) + Slli(rd, rd, 1), Getbyte(rd, rd, 1), d);
    RunAppend(Getbyte(rd, rs1, 3), Slli(rd, rd, 1), d);
  }

  lemma NotByteOk(k: nat, bytes: seq<Byte>, d: Data) returns (d': Data)
    requires k < 4 && 28 <= d.Get(SP)
    requires Holds(d, d.Get(TP), bytes) && |bytes| == 256
    ensures d' == Run(NotByte(k), d)
    ensures forall r: Reg :: r != GP ==> d'.Get(r) == d.Get(r)
    ensures d'.Load(d.Get(SP) + D + k) == bytes[d.Load(d.Get(SP) + C + k)]
    ensures MemKept(d, d', d.Get(SP) + D + k, d.Get(SP) + D + k + 1)
  {
    Run4(Lbu(GP, SP, C + k), Add(GP, GP, TP), Lbu(GP, GP, 0), Sb(GP, SP, D + k), d);
    d' := Run(NotByte(k), d);
    var x := d.Load(d.Get(SP) + C + k);
    assert d.Load(d.Get(TP) + x) == bytes[x];
  }

  lemma LoadedWord(d: Data, a: int)
    requires 0 <= a < W - 3
    ensures d.LoadWord(a) == WordOf(d.Load(a), d.Load(a + 1), d.Load(a + 2), d.Load(a + 3))
  {
  }

  lemma ComplementLoaded(d: Data, d': Data, a: int, b: int)
    requires 0 <= a < W - 3 && 0 <= b < W - 3
    requires d'.Load(b) == 255 - d.Load(a)
    requires d'.Load(b + 1) == 255 - d.Load(a + 1)
    requires d'.Load(b + 2) == 255 - d.Load(a + 2)
    requires d'.Load(b + 3) == 255 - d.Load(a + 3)
    ensures d'.LoadWord(b) == W - 1 - d.LoadWord(a)
  {
    hide Data.LoadWord, WordOf, Wrap;
    var b0, b1, b2, b3 := d.Load(a), d.Load(a + 1), d.Load(a + 2), d.Load(a + 3);
    WordLoaded(d, a, b0, b1, b2, b3);
    WordLoaded(d', b, 255 - b0, 255 - b1, 255 - b2, 255 - b3);
    ComplementWord(b0, b1, b2, b3);
  }

  lemma WordLoaded(d: Data, a: int, b0: Byte, b1: Byte, b2: Byte, b3: Byte)
    requires 0 <= a < W - 3
    requires d.Load(a) == b0 && d.Load(a + 1) == b1 && d.Load(a + 2) == b2 && d.Load(a + 3) == b3
    ensures d.LoadWord(a) == WordOf(b0, b1, b2, b3)
  {
  }

  lemma ComplementWord(b0: Byte, b1: Byte, b2: Byte, b3: Byte)
    ensures WordOf(255 - b0, 255 - b1, 255 - b2, 255 - b3) == W - 1 - WordOf(b0, b1, b2, b3)
  {
  }

  lemma NotBytesOk(bytes: seq<Byte>, d: Data) returns (d': Data)
    requires Holds(d, d.Get(TP), bytes) && |bytes| == 256 && Apart(d.Get(SP), d.Get(TP), 256)
    ensures d' == Run(NotBytes(), d)
    ensures forall r: Reg :: r != GP ==> d'.Get(r) == d.Get(r)
    ensures d'.Load(d.Get(SP) + D) == bytes[d.Load(d.Get(SP) + C)]
    ensures d'.Load(d.Get(SP) + D + 1) == bytes[d.Load(d.Get(SP) + C + 1)]
    ensures d'.Load(d.Get(SP) + D + 2) == bytes[d.Load(d.Get(SP) + C + 2)]
    ensures d'.Load(d.Get(SP) + D + 3) == bytes[d.Load(d.Get(SP) + C + 3)]
    ensures MemKept(d, d', d.Get(SP) + D, d.Get(SP) + C)
  {
    hide Run, NotByte, Data.LoadWord;
    var row, sp := d.Get(TP), d.Get(SP);
    var d1 := NotByteOk(3, bytes, d);
    HoldsKept(d, d1, row, bytes, sp + D, sp + C);
    var d2 := NotByteOk(2, bytes, d1);
    HoldsKept(d1, d2, row, bytes, sp + D, sp + C);
    var d3 := NotByteOk(1, bytes, d2);
    HoldsKept(d2, d3, row, bytes, sp + D, sp + C);
    d' := NotByteOk(0, bytes, d3);
    RunAppend(NotByte(3) + NotByte(2) + NotByte(1), NotByte(0), d);
    RunAppend(NotByte(3) + NotByte(2), NotByte(1), d);
    RunAppend(NotByte(3), NotByte(2), d);
  }

  lemma NotWordOk(bytes: seq<Byte>, d: Data) returns (d': Data)
    requires Holds(d, d.Get(TP), bytes) && |bytes| == 256 && Apart(d.Get(SP), d.Get(TP), 256)
    requires forall x: Byte :: bytes[x] == 255 - x
    ensures d' == Run(NotBytes(), d)
    ensures forall r: Reg :: r != GP ==> d'.Get(r) == d.Get(r)
    ensures d'.LoadWord(d.Get(SP) + D) == W - 1 - d.LoadWord(d.Get(SP) + C)
    ensures MemKept(d, d', d.Get(SP) + D, d.Get(SP) + C)
  {
    hide Run, NotBytes, Data.LoadWord;
    d' := NotBytesOk(bytes, d);
    ComplementLoaded(d, d', d.Get(SP) + C, d.Get(SP) + D);
  }

  lemma NotOk(t: Layout, rd: Reg, rs1: Reg, bytes: seq<Byte>, d: Data) returns (d': Data)
    requires NotReady(t, bytes, d)
    ensures d' == Run(Not(t, rd, rs1), d)
    ensures forall r: Reg :: r != rd && r != TP ==> d'.Get(r) == d.Get(r)
    ensures rd != X0 ==> d'.Get(rd) == W - 1 - d.Get(rs1)
    ensures MemKept(d, d', d.Get(SP) + D, d.Get(SP) + SAVE2)
  {
    hide Run, La, NotBytes, Data.LoadWord, ByteOf, Data.Set, Not, LutAddr, Holds;
    var sp, row := d.Get(SP), LutAddr(t, LogicOffset(Xor) + 0xff00);
    var d1 := SwOk(GP, SAVE3, d);
    var d2 := SwOk(rs1, C, d1);
    WordKept(d1, d2, sp + SAVE3, sp + C, sp + B);
    var d3 := LaOk(TP, row, d2);
    HoldsKept(d, d3, row, bytes, sp + D, sp);
    var d4 := NotWordOk(bytes, d3);
    WordKept(d3, d4, sp + SAVE3, sp + D, sp + C);
    d' := Exec(Lw(rd, SP, D), Exec(Lw(GP, SP, SAVE3), d4));
    SameMemory(d2, d3);
    SameMemory(d4, Exec(Lw(GP, SP, SAVE3), d4));
    NotCode(t, rd, rs1, d, d2, d3, d4);
  }

  lemma NotCode(t: Layout, rd: Reg, rs1: Reg, d: Data, d2: Data, d3: Data, d4: Data)
    requires t.lut + LUT_SIZE <= W
    requires d2 == Exec(Sw(rs1, SP, C), Exec(Sw(GP, SP, SAVE3), d))
    requires d3 == Run(La(TP, LutAddr(t, LogicOffset(Xor) + 0xff00)), d2)
    requires d4 == Run(NotBytes(), d3)
    ensures Run(Not(t, rd, rs1), d) == Exec(Lw(rd, SP, D), Exec(Lw(GP, SP, SAVE3), d4))
  {
    hide Run, NotBytes, La, Exec;
    var la := La(TP, LutAddr(t, LogicOffset(Xor) + 0xff00));
    var first, last := [Sw(GP, SP, SAVE3), Sw(rs1, SP, C)], [Lw(GP, SP, SAVE3), Lw(rd, SP, D)];
    Run2(Sw(GP, SP, SAVE3), Sw(rs1, SP, C), d);
    Run2(Lw(GP, SP, SAVE3), Lw(rd, SP, D), d4);
    RunAppend(first + la + NotBytes(), last, d);
    RunAppend(first + la, NotBytes(), d);
    RunAppend(first, la, d);
  }

  /** The complement row of the xor table is in memory, out of reach of the scratch words. */
  ghost predicate NotReady(t: Layout, bytes: seq<Byte>, d: Data) {
    && |bytes| == 256
    && (forall x: Byte :: bytes[x] == 255 - x)
    && t.lut + LUT_SIZE <= W
    && Holds(d, LutAddr(t, LogicOffset(Xor) + 0xff00), bytes)
    && Apart(d.Get(SP), LutAddr(t, LogicOffset(Xor) + 0xff00), 256)
  }

  lemma SubOk(t: Layout, rd: Reg, rs1: Reg, rs2: Reg, bytes: seq<Byte>, d: Data) returns (d': Data)
    requires NotReady(t, bytes, d)
    requires rs1 != TP
    ensures d' == Run(Sub(t, rd, rs1, rs2), d)
    ensures forall r: Reg :: r != rd && r != TP ==> d'.Get(r) == d.Get(r)
    ensures rd != X0 ==> d'.Get(rd) == Wrap(d.Get(rs1) - d.Get(rs2))
    ensures MemKept(d, d', d.Get(SP) + D, d.Get(SP) + SAVE2)
  {
    hide Run, Not;
    var d1 := NotOk(t, TP, rs2, bytes, d);
    Run2(Add(rd, rs1, TP), Addi(rd, rd, 1), d1);
    d' := Exec(Addi(rd, rd, 1), Exec(Add(rd, rs1, TP), d1));
    RunAppend(Not(t, TP, rs2), [Add(rd, rs1, TP), Addi(rd, rd, 1)], d);
  }
}
