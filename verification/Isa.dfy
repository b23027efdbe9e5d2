/** What the RV32I instructions compute, as relations on numbers and bits, and that the lowered code computes it. */
module Isa {
  import opened Bits
  import opened Machine
  import Macros
  import opened Tables
  import opened Rv32i
  import opened Lowering
  import opened Environment
  import opened LoweringProof
  import opened Words
  import opened WordTypes

  /** Section 2.4 of the unprivileged specification: `v` is the result for the operands `x` and `y`. */
  ghost predicate AluMeans(op: AluOp, x: Word, y: Word, v: Word) {
    match op
    case Sub => Congruent(v + y, x, W)
    case Slt => v < 2 && (v == 1 <==> Less(x, y))
    case Sltu => v < 2 && (v == 1 <==> x < y)
    case Logic(b) => Joins(b, 32, x, y, v)
    case ShiftBy(k) => ShiftMeans(k, x, y % 32, v)
  }

  /** The order of the numbers that two words stand for in two's complement. */
  ghost predicate Less(x: Word, y: Word) {
    forall a: int, b: int :: Signs(a, x) && Signs(b, y) ==> a < b
  }

  lemma LessExactly(x: Word, y: Word)
    ensures Less(x, y) <==> Signed(x) < Signed(y)
  {
    hide Signs;
    SignsExactly(Signed(x), x);
    SignsExactly(Signed(y), y);
    forall a: int, b: int | Signs(a, x) && Signs(b, y)
      ensures a == Signed(x) && b == Signed(y)
    {
      SignsExactly(a, x);
      SignsExactly(b, y);
    }
  }

  lemma AluExactly(op: AluOp, x: Word, y: Word, v: Word)
    ensures AluMeans(op, x, y, v) <==> v == Alu(op, x, y)
  {
    match op
    case Sub =>
      SubExactly(x, y, v);
    case Slt =>
      hide Less, Signed;
      LessExactly(x, y);
    case Sltu =>
    case Logic(b) =>
      hide Joins, Bitwise;
      JoinsExactly(b, 32, x, y, v);
    case ShiftBy(k) =>
      hide ShiftMeans, ShiftWord;
      ShiftExactly(k, x, y % 32, v);
  }

  lemma SubExactly(x: Word, y: Word, v: Word)
    ensures Congruent(v + y, x, W) <==> v == Wrap(x - y)
  {
    if Congruent(v + y, x, W) {
      var k: int :| v + y == x + k * W;
      assert -1 <= k <= 1;
    } else {
      assert Wrap(x - y) + y == x + (if x < y then 1 else 0) * W;
    }
  }

  /** Section 2.5: when a conditional branch is taken. */
  ghost predicate CondMeans(c: Cond, x: Word, y: Word) {
    match c
    case Eq => x == y
    case Ne => x != y
    case Lt => Less(x, y)
    case Ge => x == y || Less(y, x)
    case Ltu => x < y
    case Geu => !(x < y)
  }

  lemma TakenExactly(c: Cond, x: Word, y: Word)
    ensures Taken(c, x, y) <==> CondMeans(c, x, y)
  {
    hide Less;
    LessExactly(x, y);
    LessExactly(y, x);
  }

  /** `a` is an address that a register and an offset give. */
  ghost predicate Addresses(d: Data, rs1: Reg, off: Imm12, a: Word) {
    Congruent(a, d.Get(rs1) + off, W)
  }

  ghost predicate Follows(b: Word, a: Word) {
    Congruent(b, a + 1, W)
  }

  lemma WrapExactly(x: int, a: Word)
    requires -W <= x < 2 * W
    ensures Congruent(a, x, W) <==> a == Wrap(x)
  {
    if Congruent(a, x, W) {
      var k: int :| a == x + k * W;
      assert -2 <= k <= 1;
    } else {
      assert Wrap(x) == x + (if x < 0 then 1 else if x >= W then -1 else 0) * W;
    }
  }

  /** `v` stands for the number that the low `n` bits of `x` are in two's complement. */
  ghost predicate Extends(n: nat, x: nat, v: Word)
    requires n > 0
  {
    forall a: int :: 0 - Pow2(n - 1) as int <= a < Pow2(n - 1) && Congruent(a, x, Pow2(n)) ==> Signs(a, v)
  }

  /** What an instruction puts into its destination. */
  ghost predicate Result(i: Src, d: Data, v: Word) {
    match i
    case Plain(b) => (
      match b
      case Add(_, rs1, rs2) => Congruent(v, d.Get(rs1) + d.Get(rs2), W)
      case Addi(_, rs1, imm) => Congruent(v, d.Get(rs1) + imm, W)
      case Lui(_, hi) => Congruent(v, hi * 4096, W)
      case Lw(_, rs1, off) => forall a: Word :: Addresses(d, rs1, off, a) ==> WordIs(d, a, v)
      case Lbu(_, rs1, off) => forall a: Word :: Addresses(d, rs1, off, a) ==> v == d.Load(a)
      case _ => false)
    case RType(op, _, rs1, rs2) => AluMeans(op, d.Get(rs1), d.Get(rs2), v)
    case IType(op, _, rs1, imm) => forall y: Word :: Signs(imm, y) ==> AluMeans(op, d.Get(rs1), y, v)
    case ShiftImm(k, _, rs1, n) => ShiftMeans(k, d.Get(rs1), n, v)
    case Lb(_, rs1, off) => forall a: Word :: Addresses(d, rs1, off, a) ==> Extends(8, d.Load(a), v)
    case Lh(_, rs1, off) =>
      forall a: Word, b: Word :: Addresses(d, rs1, off, a) && Follows(b, a) ==>
        Extends(16, d.Load(a) + 256 * (d.Load(b) as int), v)
    case Lhu(_, rs1, off) =>
      forall a: Word, b: Word :: Addresses(d, rs1, off, a) && Follows(b, a) ==>
        v == d.Load(a) + 256 * (d.Load(b) as int)
    case Seqz(_, rs1) => v < 2 && (v == 1 <==> d.Get(rs1) == 0)
    case Sltz(_, rs1) => v < 2 && (v == 1 <==> Less(d.Get(rs1), 0))
    case Not(_, rs1) => v + d.Get(rs1) == W - 1
    case _ => false
  }

  /** The bytes at `a` and behind it make up `v`, the lowest one first. */
  ghost predicate WordIs(d: Data, a: Word, v: Word) {
    forall b1: Word, b2: Word, b3: Word :: Follows(b1, a) && Follows(b2, b1) && Follows(b3, b2) ==>
      v == d.Load(a) + 256 * (d.Load(b1) as int) + 65536 * (d.Load(b2) as int) + 16777216 * (d.Load(b3) as int)
  }

  /** The instructions that put something into a register and go on. */
  predicate Computes(i: Src) {
    match i
    case Plain(b) => !b.Sw? && !b.Sb? && !b.Jalr?
    case ShiftImm(_, _, _, n) => n < 32
    case Sh(_, _, _) => false
    case Jal(_, _) => false
    case Branch(_, _, _, _) => false
    case _ => true
  }

  function Destination(i: Src): Reg
    requires Computes(i)
  {
    if i.Plain? then i.i.rd else i.rd
  }

  lemma SetTwice(d: Data, rd: Reg, v: Word, w: Word)
    ensures d.Set(rd, v) == d.Set(rd, w) <==> v == w
  {
    assert d.Set(rd, v).regs[rd] == v && d.Set(rd, w).regs[rd] == w;
  }

  lemma FollowsExactly(b: Word, a: Word)
    ensures Follows(b, a) <==> b == Wrap(a + 1)
  {
    WrapExactly(a + 1, b);
  }

  lemma AddressesExactly(d: Data, rs1: Reg, off: Imm12, a: Word)
    ensures Addresses(d, rs1, off, a) <==> a == d.Addr(rs1, off)
  {
    WrapExactly(d.Get(rs1) + off, a);
  }

  /** The address and the one after it are determined. */
  lemma OneAddress(d: Data, rs1: Reg, off: Imm12)
    ensures forall a: Word :: Addresses(d, rs1, off, a) <==> a == d.Addr(rs1, off)
    ensures forall a: Word, b: Word :: Follows(b, a) <==> b == Wrap(a + 1)
  {
    hide Addresses, Follows, Wrap, Data.Addr;
    forall a: Word
      ensures Addresses(d, rs1, off, a) <==> a == d.Addr(rs1, off)
    {
      AddressesExactly(d, rs1, off, a);
    }
    forall a: Word, b: Word
      ensures Follows(b, a) <==> b == Wrap(a + 1)
    {
      FollowsExactly(b, a);
    }
  }

  lemma WrapTwice(a: Word)
    ensures var b1: int, b2: int := Wrap(a + 1), Wrap(Wrap(a + 1) as int + 1);
      b2 == Wrap(a + 2) && Wrap(b2 + 1) == Wrap(a + 3)
  {
  }

  lemma WordExactly(d: Data, a: Word, v: Word)
    ensures WordIs(d, a, v) <==> v == d.LoadWord(a)
  {
    OneAddress(d, X0, 0);
    WrapTwice(a);
    var b1: int := Wrap(a + 1);
    var b2: int := Wrap(b1 + 1);
    var b3: int := Wrap(b2 + 1);
    hide Follows, Wrap, Data.Load;
    assert Follows(b1, a) && Follows(b2, b1) && Follows(b3, b2);
  }

  lemma ExtendsExactly(n: nat, x: nat, v: Word)
    requires n == 8 || n == 16
    requires x < Pow2(n)
    ensures Pow2(n - 1) <= 0x8000 && Pow2(n) == 2 * Pow2(n - 1)
    ensures Extends(n, x, v) <==> Signed(v) == if x < Pow2(n - 1) then x else x - Pow2(n)
  {
    Pow2Mono(n, 16);
    WordPowers();
    var h: int, m: int := Pow2(n - 1), Pow2(n);
    var a0: int := if x < h then x else x - m;
    hide Pow2, Signed, Signs;
    assert Congruent(a0, x, m) by {
      var k: int := if x < h then 0 else -1;
      assert a0 == x + k * m;
    }
    SignsExactly(a0, v);
    forall a: int | -h <= a < h && Congruent(a, x, m)
      ensures a == a0
    {
      CongruentNear(a, a0, x, m);
    }
  }

  lemma SignedUnsigned(v: Word, a: int)
    requires -0x8000_0000 <= a < 0x8000_0000
    ensures Signed(v) == a <==> v == Unsigned(a)
  {
  }

  lemma PlainResult(b: Base, d: Data, v: Word)
    requires !b.Sw? && !b.Sb? && !b.Jalr?
    ensures Result(Plain(b), d, v) <==> SrcExec(Plain(b), d) == d.Set(b.rd, v)
  {
    match b
    case Add(rd, rs1, rs2) =>
      WrapExactly(d.Get(rs1) + d.Get(rs2), v);
      SetTwice(d, rd, v, Wrap(d.Get(rs1) + d.Get(rs2)));
    case Addi(rd, rs1, imm) =>
      WrapExactly(d.Get(rs1) + imm, v);
      SetTwice(d, rd, v, Wrap(d.Get(rs1) + imm));
    case Lui(rd, hi) =>
      CongruentExactly(v, hi * 4096, W);
      DivModUnique(hi * 4096, W, hi / 0x100000, hi % 0x100000 * 4096);
      SetTwice(d, rd, v, hi % 0x100000 * 4096);
    case Lw(_, _, _) => LoadResult(b, d, v);
    case Lbu(_, _, _) => LoadResult(b, d, v);
  }

  lemma LoadResult(b: Base, d: Data, v: Word)
    requires b.Lw? || b.Lbu?
    ensures Result(Plain(b), d, v) <==> SrcExec(Plain(b), d) == d.Set(b.rd, v)
  {
    var a := d.Addr(b.rs1, b.off);
    OneAddress(d, b.rs1, b.off);
    hide Addresses, Follows, WordIs, Data.LoadWord, Data.Load, Data.Addr, Data.Set;
    WordExactly(d, a, v);
    SetTwice(d, b.rd, v, if b.Lw? then d.LoadWord(a) else d.Load(a));
  }

  lemma ImmediateResult(op: AluOp, rd: Reg, rs1: Reg, imm: Imm12, d: Data, v: Word)
    ensures Result(IType(op, rd, rs1, imm), d, v) <==> SrcExec(IType(op, rd, rs1, imm), d) == d.Set(rd, v)
  {
    hide AluMeans, Alu, Signs;
    var y := SignExtend(imm);
    SignsExactly(imm, y);
    forall z: Word | Signs(imm, z)
      ensures z == y
    {
      SignsExactly(imm, z);
    }
    AluExactly(op, d.Get(rs1), y, v);
    SetTwice(d, rd, v, Alu(op, d.Get(rs1), y));
  }

  lemma ByteResult(rd: Reg, rs1: Reg, off: Imm12, d: Data, v: Word)
    ensures Result(Lb(rd, rs1, off), d, v) <==> SrcExec(Lb(rd, rs1, off), d) == d.Set(rd, v)
  {
    var b := d.Load(d.Addr(rs1, off));
    OneAddress(d, rs1, off);
    assert Pow2(8) == 256 && Pow2(7) == 128;
    hide Addresses, Follows, Signed, Extends, Pow2;
    ExtendsExactly(8, b, v);
    SignedUnsigned(v, if b < 128 then b else b as int - 256);
    SetTwice(d, rd, v, ByteSigned(b));
  }

  lemma HalfResult(rd: Reg, rs1: Reg, off: Imm12, d: Data, v: Word)
    ensures Result(Lh(rd, rs1, off), d, v) <==> SrcExec(Lh(rd, rs1, off), d) == d.Set(rd, v)
  {
    var a: int := d.Addr(rs1, off);
    var b0: int, b1: int := d.Load(a), d.Load(Wrap(a + 1));
    HalfRead(rd, rs1, off, d, v);
    HalfExtended(b0, b1, v);
    hide Result, Extends, Wrap, Data.Load, Data.Addr;
    SetTwice(d, rd, v, HalfSigned(b0, b1));
  }

  lemma HalfRead(rd: Reg, rs1: Reg, off: Imm12, d: Data, v: Word)
    ensures var a: int := d.Addr(rs1, off);
      Result(Lh(rd, rs1, off), d, v) <==> Extends(16, d.Load(a) + 256 * (d.Load(Wrap(a + 1)) as int), v)
  {
    OneAddress(d, rs1, off);
    hide Addresses, Follows, Extends, Wrap, Data.Load, Data.Addr;
    var a: int := d.Addr(rs1, off);
    assert Addresses(d, rs1, off, a) && Follows(Wrap(a + 1), a);
  }

  lemma HalfExtended(b0: Byte, b1: Byte, v: Word)
    ensures Extends(16, b0 + 256 * (b1 as int), v) <==> v == HalfSigned(b0, b1)
  {
    var h: int := b0 + 256 * (b1 as int);
    WordPowers();
    assert Pow2(16) == 2 * Pow2(15);
    hide Signed, Extends, Pow2;
    ExtendsExactly(16, h, v);
    SignedUnsigned(v, b0 + 256 * (if b1 < 128 then b1 else b1 as int - 256));
  }

  lemma LhuResult(rd: Reg, rs1: Reg, off: Imm12, d: Data, v: Word)
    ensures Result(Lhu(rd, rs1, off), d, v) <==> SrcExec(Lhu(rd, rs1, off), d) == d.Set(rd, v)
  {
    OneAddress(d, rs1, off);
    var a: int := d.Addr(rs1, off);
    SetTwice(d, rd, v, HalfUnsigned(d.Load(a), d.Load(Wrap(a + 1))));
    hide Addresses, Follows, Wrap, Data.Load, Data.Addr, Data.Set;
    assert Addresses(d, rs1, off, a) && Follows(Wrap(a + 1), a);
  }

  lemma RegisterResult(op: AluOp, rd: Reg, rs1: Reg, rs2: Reg, d: Data, v: Word)
    ensures Result(RType(op, rd, rs1, rs2), d, v) <==> SrcExec(RType(op, rd, rs1, rs2), d) == d.Set(rd, v)
  {
    hide AluMeans, Alu;
    AluExactly(op, d.Get(rs1), d.Get(rs2), v);
    SetTwice(d, rd, v, Alu(op, d.Get(rs1), d.Get(rs2)));
  }

  lemma ShiftResult(k: Shift, rd: Reg, rs1: Reg, n: nat, d: Data, v: Word)
    requires n < 32
    ensures Result(ShiftImm(k, rd, rs1, n), d, v) <==> SrcExec(ShiftImm(k, rd, rs1, n), d) == d.Set(rd, v)
  {
    hide ShiftMeans, ShiftWord;
    ShiftExactly(k, d.Get(rs1), n, v);
    SetTwice(d, rd, v, ShiftWord(k, d.Get(rs1), n));
  }

  lemma SeqzResult(rd: Reg, rs1: Reg, d: Data, v: Word)
    ensures Result(Seqz(rd, rs1), d, v) <==> SrcExec(Seqz(rd, rs1), d) == d.Set(rd, v)
  {
    SetTwice(d, rd, v, Flag(d.Get(rs1) == 0));
    hide Data.Set, Data.Get;
  }

  lemma SltzResult(rd: Reg, rs1: Reg, d: Data, v: Word)
    ensures Result(Sltz(rd, rs1), d, v) <==> SrcExec(Sltz(rd, rs1), d) == d.Set(rd, v)
  {
    LessExactly(d.Get(rs1), 0);
    SetTwice(d, rd, v, Flag(Signed(d.Get(rs1)) < 0));
    hide Less, Data.Set, Data.Get;
  }

  lemma NotResult(rd: Reg, rs1: Reg, d: Data, v: Word)
    ensures Result(Not(rd, rs1), d, v) <==> SrcExec(Not(rd, rs1), d) == d.Set(rd, v)
  {
    hide Bitwise, Pow2, Data.Set, Data.Get;
    ComplementIsXor(d.Get(rs1));
    SetTwice(d, rd, v, BitOp32(Xor, d.Get(rs1), 0xffff_ffff));
  }

  /** An instruction puts `v` into its destination, and changes nothing else, if and only if the relation says so. */
  lemma ResultExactly(i: Src, d: Data, v: Word)
    requires Computes(i)
    ensures Result(i, d, v) <==> SrcExec(i, d) == d.Set(Destination(i), v)
  {
    hide Result, SrcExec, Data.Set;
    match i
    case Plain(b) => PlainResult(b, d, v);
    case RType(op, rd, rs1, rs2) => RegisterResult(op, rd, rs1, rs2, d, v);
    case IType(op, rd, rs1, imm) => ImmediateResult(op, rd, rs1, imm, d, v);
    case ShiftImm(k, rd, rs1, n) => ShiftResult(k, rd, rs1, n, d, v);
    case Lb(rd, rs1, off) => ByteResult(rd, rs1, off, d, v);
    case Lh(rd, rs1, off) => HalfResult(rd, rs1, off, d, v);
    case Lhu(rd, rs1, off) => LhuResult(rd, rs1, off, d, v);
    case Seqz(rd, rs1) => SeqzResult(rd, rs1, d, v);
    case Sltz(rd, rs1) => SltzResult(rd, rs1, d, v);
    case Not(rd, rs1) => NotResult(rd, rs1, d, v);
  }

  /** What a store of `n` bytes at `a` leaves: the low bytes of `x`, the lowest one first, and all else as before. */
  ghost predicate Stores(n: nat, x: Word, d: Data, d': Data, a: Word) {
    && d'.regs == d.regs
    && forall b1: Word, b2: Word, b3: Word :: Follows(b1, a) && Follows(b2, b1) && Follows(b3, b2) ==>
         StoresAt(n, x, d, d', a, b1, b2, b3)
  }

  ghost predicate StoresAt(n: nat, x: Word, d: Data, d': Data, a: Word, b1: Word, b2: Word, b3: Word) {
    && (n == 1 ==> Congruent(d'.Load(a), x, 256))
    && (n == 2 ==> Congruent(d'.Load(a) + 256 * (d'.Load(b1) as int), x, 65536))
    && (n == 4 ==> d'.Load(a) + 256 * (d'.Load(b1) as int) + 65536 * (d'.Load(b2) as int)
                   + 16777216 * (d'.Load(b3) as int) == x)
    && forall q: Word :: q != a && (n > 1 ==> q != b1) && (n > 2 ==> q != b2 && q != b3) ==> d'.Load(q) == d.Load(q)
  }

  lemma StoresHere(n: nat, x: Word, d: Data, d': Data, a: Word)
    requires d'.regs == d.regs && StoresAt(n, x, d, d', a, Wrap(a + 1), Wrap(a + 2), Wrap(a + 3))
    ensures Stores(n, x, d, d', a)
  {
    OneAddress(d, X0, 0);
    WrapTwice(a);
    hide StoresAt, Follows, Wrap;
  }

  function Width(i: Src): nat {
    if i.Sh? then 2 else if i.Plain? && i.i.Sb? then 1 else 4
  }

  /** The stores of the source language. */
  lemma StoreMeans(i: Src, d: Data, rs2: Reg, rs1: Reg, off: Imm12, a: Word)
    requires i == Sh(rs2, rs1, off) || i == Plain(Sb(rs2, rs1, off)) || i == Plain(Sw(rs2, rs1, off))
    requires Addresses(d, rs1, off, a)
    ensures Stores(Width(i), d.Get(rs2), d, SrcExec(i, d), a)
  {
    hide Addresses, Stores, StoresAt, SrcExec, Data.Addr, Data.Get, Congruent, Wrap, Width;
    AddressesExactly(d, rs1, off, a);
    if i.Plain? && i.i.Sw? {
      WordStored(i, d, a);
    } else {
      BytesStored(i, d, a);
    }
    StoresHere(Width(i), d.Get(rs2), d, SrcExec(i, d), a);
  }

  lemma WordStored(i: Src, d: Data, a: Word)
    requires i.Plain? && i.i.Sw? && a == d.Addr(i.i.rs1, i.i.off)
    ensures var d', x := SrcExec(i, d), d.Get(i.i.rs2);
      d'.regs == d.regs && StoresAt(Width(i), x, d, d', a, Wrap(a + 1), Wrap(a + 2), Wrap(a + 3))
  {
    hide ByteOf, Data.StoreWord, Data.Load, Data.Addr, Data.Get, Congruent, Wrap;
    WordBytes(d.Get(i.i.rs2));
    WordPatched(d, a, d.Get(i.i.rs2));
  }

  lemma WordPatched(d: Data, a: Word, v: Word)
    ensures var d', b1, b2, b3 := d.StoreWord(a, v), Wrap(a + 1), Wrap(a + 2), Wrap(a + 3);
      && d'.regs == d.regs && d'.Load(a) == ByteOf(v, 0) && d'.Load(b1) == ByteOf(v, 1)
      && d'.Load(b2) == ByteOf(v, 2) && d'.Load(b3) == ByteOf(v, 3)
      && forall q: Word :: q != a && q != b1 && q != b2 && q != b3 ==> d'.Load(q) == d.Load(q)
  {
    hide ByteOf, Data.StoreWord, Data.Load;
  }

  lemma BytesStored(i: Src, d: Data, a: Word)
    requires (i.Sh? && a == d.Addr(i.rs1, i.off)) || (i.Plain? && i.i.Sb? && a == d.Addr(i.i.rs1, i.i.off))
    ensures var d', x := SrcExec(i, d), d.Get(if i.Sh? then i.rs2 else i.i.rs2);
      d'.regs == d.regs && StoresAt(Width(i), x, d, d', a, Wrap(a + 1), Wrap(a + 2), Wrap(a + 3))
  {
    hide ByteOf, Data.Store, Data.Addr, Data.Get, Congruent;
    LowBytes(d.Get(if i.Sh? then i.rs2 else i.i.rs2));
  }

  lemma LowBytes(x: Word)
    ensures Congruent(ByteOf(x, 0), x, 256) && Congruent(ByteOf(x, 0) + 256 * (ByteOf(x, 1) as int), x, 65536)
  {
    assert ByteOf(x, 0) == x + -(x / 256) * 256;
    assert ByteOf(x, 0) + 256 * (ByteOf(x, 1) as int) == x + -(x / 256 / 256) * 65536;
  }

  /** The lowered code of an instruction that computes leaves its result, and no other change that can be seen. */
  lemma LoweredResult(t: Macros.Layout, i: Src, next: Word, target: Word, d: Data) returns (v: Word)
    requires Covered(i) && Computes(i)
    requires !i.Plain? ==> Ready(d, t) && forall a :: a in Reads(i, d) ==> !InScratch(d.Get(SP), a)
    ensures Result(i, d, v)
    ensures Agree(d.Set(Destination(i), v), Run(Body(t, i, next, target), d), d.Get(SP), t)
  {
    hide Result, Data.Set, Agree, Body, Run;
    BodyOk(t, i, next, target, d);
    v := Outcome(i, d);
    ResultExactly(i, d, v);
  }

  lemma Outcome(i: Src, d: Data) returns (v: Word)
    requires Computes(i)
    ensures SrcExec(i, d) == d.Set(Destination(i), v)
  {
    hide Alu, ShiftWord, Data.LoadWord, ByteSigned, HalfSigned, HalfUnsigned, BitOp32;
    v := SrcExec(i, d).regs[Destination(i)];
  }
}
