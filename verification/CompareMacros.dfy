/** The compare macros: signed and unsigned less-than, equality and the tests against zero. */
module CompareMacros {
  import opened Bits
  import opened Machine
  import opened Tables
  import opened Macros
  import opened BasicMacros
  import opened Words
  import opened WordTypes

  function Sign(x: Word): (s: nat)
    ensures s < 2 && (s == 1 <==> Signed(x) < 0)
  {
    x / 0x8000_0000
  }

  /** The index `slt_template` builds from the signs of both operands and of their difference. */
  function SignIndex(x: Word, y: Word): (k: nat)
    ensures k < 8
  {
    4 * Sign(x) + 2 * Sign(y) + Sign(Wrap(x - y))
  }

  lemma SltOperandsOk(rs1: Reg, rs2: Reg, d: Data) returns (d': Data)
    requires 28 <= d.Get(SP)
    ensures d' == Run(SltOperands(rs1, rs2), d)
    ensures d'.Get(S0) == d.Get(rs1) && d'.Get(S1) == d.Get(rs2)
    ensures forall r: Reg :: r != S0 && r != S1 ==> d'.Get(r) == d.Get(r)
    ensures d'.LoadWord(d.Get(SP) + SAVE1) == d.Get(S0)
    ensures d'.LoadWord(d.Get(SP) + SAVE2) == d.Get(S1)
    ensures MemKept(d, d', d.Get(SP) + D, d.Get(SP))
  {
    hide Run, Data.LoadWord, Data.Set;
    var sp := d.Get(SP);
    var d1 := SwOk(S0, SAVE1, d);
    var d2 := SwOk(S1, SAVE2, d1);
    WordKept(d1, d2, sp + SAVE1, sp + SAVE2, sp + SAVE1);
    var d3 := SwOk(rs2, A, d2);
    WordKept(d2, d3, sp + SAVE1, sp + A, sp + SAVE3);
    WordKept(d2, d3, sp + SAVE2, sp + A, sp + SAVE3);
    var d4 := Exec(Addi(S0, rs1, 0), d3);
    SameMemory(d3, d4);
    d' := Exec(Lw(S1, SP, A), d4);
    SameMemory(d4, d');
    SltOperandsCode(rs1, rs2, d);
  }

  lemma SltOperandsCode(rs1: Reg, rs2: Reg, d: Data)
    ensures Run(SltOperands(rs1, rs2), d)
         == Exec(Lw(S1, SP, A), Exec(Addi(S0, rs1, 0),
              Exec(Sw(rs2, SP, A), Exec(Sw(S1, SP, SAVE2), Exec(Sw(S0, SP, SAVE1), d)))))
  {
    hide Run, Exec;
    var saves := [Sw(S0, SP, SAVE1), Sw(S1, SP, SAVE2), Sw(rs2, SP, A)];
    var d3 := Exec(Sw(rs2, SP, A), Exec(Sw(S1, SP, SAVE2), Exec(Sw(S0, SP, SAVE1), d)));
    Run3(Sw(S0, SP, SAVE1), Sw(S1, SP, SAVE2), Sw(rs2, SP, A), d);
    RunAppend(saves + Mv(S0, rs1), [Lw(S1, SP, A)], d);
    RunAppend(saves, Mv(S0, rs1), d);
    Run1(Addi(S0, rs1, 0), d3);
    Run1(Lw(S1, SP, A), Exec(Addi(S0, rs1, 0), d3));
  }

  /** Three macros in a row. */
  lemma RunGroups(x: seq<Base>, y: seq<Base>, z: seq<Base>, d: Data)
    ensures Run(x + y + z, d) == Run(z, Run(y, Run(x, d)))
  {
    RunAppend(x + y, z, d);
    RunAppend(x, y, d);
  }

  lemma OperandSignsOk(d: Data) returns (d': Data)
    requires 28 <= d.Get(SP)
    ensures d' == Run(OperandSigns(), d)
    ensures d'.Get(GP) == 4 * Sign(d.Get(S0)) + 2 * Sign(d.Get(S1))
    ensures forall r: Reg :: r != GP && r != TP ==> d'.Get(r) == d.Get(r)
    ensures MemKept(d, d', d.Get(SP) + C, d.Get(SP) + B)
  {
    hide Run, Msb, Slli, Data.LoadWord;
    assert Pow2(1) == 2;
    var d1 := MsbOk(GP, S0, d);
    var d2 := SlliSmallOk(GP, GP, 1, d1);
    SameMemory(d1, d2);
    var d3 := MsbOk(TP, S1, d2);
    var d4 := Exec(Add(GP, GP, TP), d3);
    SameMemory(d3, d4);
    d' := SlliSmallOk(GP, GP, 1, d4);
    SameMemory(d4, d');
    Run1(Add(GP, GP, TP), d3);
    RunAppend(Msb(GP, S0), Slli(GP, GP, 1), d);
    RunGroups(Msb(TP, S1), [Add(GP, GP, TP)], Slli(GP, GP, 1), d2);
    RunAppend(Msb(GP, S0) + Slli(GP, GP, 1), Msb(TP, S1) + [Add(GP, GP, TP)] + Slli(GP, GP, 1), d);
  }

  lemma SltBitsOk(t: Layout, bytes: seq<Byte>, d: Data) returns (d': Data)
    requires NotReady(t, bytes, d)
    ensures d' == Run(SltBits(t), d)
    ensures d'.Get(GP) == SignIndex(d.Get(S0), d.Get(S1))
    ensures forall r: Reg :: r != GP && r != TP ==> d'.Get(r) == d.Get(r)
    ensures MemKept(d, d', d.Get(SP) + D, d.Get(SP) + SAVE2)
  {
    hide Run, Msb, OperandSigns, Sub, Data.LoadWord;
    var sp := d.Get(SP);
    var d1 := OperandSignsOk(d);
    HoldsKept(d, d1, LutAddr(t, LogicOffset(Xor) + 0xff00), bytes, sp + C, sp + B);
    var d2 := SubOk(t, TP, S0, S1, bytes, d1);
    var d3 := MsbOk(TP, TP, d2);
    d' := Exec(Add(GP, GP, TP), d3);
    SameMemory(d3, d');
    Run1(Add(GP, GP, TP), d3);
    RunGroups(Sub(t, TP, S0, S1), Msb(TP, TP), [Add(GP, GP, TP)], d1);
    RunAppend(OperandSigns(), Sub(t, TP, S0, S1) + Msb(TP, TP) + [Add(GP, GP, TP)], d);
  }

  /** The end of `slt_template`: index the table, restore `s0` and `s1`, load the result. */
  lemma LookupOk(table: Word, rd: Reg, d: Data) returns (d': Data)
    requires 28 <= d.Get(SP) && table + d.Get(GP) < W
    ensures d' == Exec(Lbu(rd, TP, 0), Exec(Lw(S0, SP, SAVE1), Exec(Lw(S1, SP, SAVE2),
      Run(La(TP, table) + [Add(TP, TP, GP)], d))))
    ensures rd != X0 ==> d'.Get(rd) == d.Load(table + d.Get(GP))
    ensures rd != S0 ==> d'.Get(S0) == d.LoadWord(d.Get(SP) + SAVE1)
    ensures rd != S1 ==> d'.Get(S1) == d.LoadWord(d.Get(SP) + SAVE2)
    ensures forall r: Reg :: r != rd && r != TP && r != S0 && r != S1 ==> d'.Get(r) == d.Get(r)
    ensures d'.mem == d.mem
  {
    hide Run, La, Data.LoadWord;
    var d3 := LaOk(TP, table, d);
    SameMemory(d, d3);
    var d4 := Exec(Add(TP, TP, GP), d3);
    SameMemory(d3, d4);
    var d5 := Exec(Lw(S1, SP, SAVE2), d4);
    SameMemory(d4, d5);
    var d6 := Exec(Lw(S0, SP, SAVE1), d5);
    SameMemory(d5, d6);
    d' := Exec(Lbu(rd, TP, 0), d6);
    Run1(Add(TP, TP, GP), d3);
    RunAppend(La(TP, table), [Add(TP, TP, GP)], d);
  }

  lemma SltTemplateOk(t: Layout, table: Word, tab: seq<Byte>, rd: Reg, rs1: Reg, rs2: Reg, bytes: seq<Byte>, d: Data)
    returns (d': Data)
    requires NotReady(t, bytes, d)
    requires |tab| == 8 && Holds(d, table, tab) && Apart(d.Get(SP), table, 8)
    ensures d' == Run(SltTemplate(t, table, rd, rs1, rs2), d)
    ensures rd != X0 ==> d'.Get(rd) == tab[SignIndex(d.Get(rs1), d.Get(rs2))]
    ensures forall r: Reg :: r != rd && r != GP && r != TP ==> d'.Get(r) == d.Get(r)
    ensures MemKept(d, d', d.Get(SP) + D, d.Get(SP))
  {
    hide Run, SltOperands, SltBits, La, Data.LoadWord, SignIndex;
    var sp := d.Get(SP);
    var d1 := SltOperandsOk(rs1, rs2, d);
    HoldsKept(d, d1, LutAddr(t, LogicOffset(Xor) + 0xff00), bytes, sp + D, sp);
    HoldsKept(d, d1, table, tab, sp + D, sp);
    var d2 := SltBitsOk(t, bytes, d1);
    HoldsKept(d1, d2, table, tab, sp + D, sp);
    WordKept(d1, d2, sp + SAVE1, sp + D, sp + SAVE2);
    WordKept(d1, d2, sp + SAVE2, sp + D, sp + SAVE2);
    assert d2.Load(table + d2.Get(GP)) == tab[d2.Get(GP)];
    d' := LookupOk(table, rd, d2);
    SltCode(t, table, rd, rs1, rs2, d, d1, d2);
  }

  lemma SltCode(t: Layout, table: Word, rd: Reg, rs1: Reg, rs2: Reg, d: Data, d1: Data, d2: Data)
    requires d1 == Run(SltOperands(rs1, rs2), d) && d2 == Run(SltBits(t), d1)
    ensures var d3 := Run(La(TP, table) + [Add(TP, TP, GP)], d2);
      Run(SltTemplate(t, table, rd, rs1, rs2), d)
      == Exec(Lbu(rd, TP, 0), Exec(Lw(S0, SP, SAVE1), Exec(Lw(S1, SP, SAVE2), d3)))
  {
    hide Run, SltOperands, SltBits, La, Exec;
    Run3(Lw(S1, SP, SAVE2), Lw(S0, SP, SAVE1), Lbu(rd, TP, 0), Run(La(TP, table) + [Add(TP, TP, GP)], d2));
    RunAppend(SltOperands(rs1, rs2) + SltBits(t) + (La(TP, table) + [Add(TP, TP, GP)]),
      [Lw(S1, SP, SAVE2), Lw(S0, SP, SAVE1), Lbu(rd, TP, 0)], d);
    RunGroups(SltOperands(rs1, rs2), SltBits(t), La(TP, table) + [Add(TP, TP, GP)], d);
  }

  const SAME: seq<Byte> := [1, 0, 0, 0, 0, 0, 0, 0]
  const SLT1: seq<Byte> := [0, 1, 0, 0, 1, 1, 0, 1]
  const SLTU1: seq<Byte> := [0, 1, 1, 1, 0, 0, 0, 1]
  const OR1: seq<Byte> := [0, 1, 1, 1]

  /** Memory is unchanged outside the scratch words and the check array. */
  ghost predicate ScratchOnly(d: Data, d': Data, sp: Word, check: Word) {
    forall a: Word :: !(sp + D <= a < sp) && !(check <= a < check + 256) ==> d'.Load(a) == d.Load(a)
  }

  /** First half of `check_8bit_same`: mark the byte of VAR_A. */
  lemma MarkOk(rd: Reg, k: nat, d: Data) returns (d': Data)
    requires k < 4 && rd != S0 && rd != TP && rd != SP && rd != X0
    requires d.Get(S0) + 256 <= W && 28 <= d.Get(SP)
    ensures d' == Run([Lbu(rd, SP, A + k), Add(TP, S0, rd), Addi(rd, X0, 1), Sb(rd, TP, 0)], d)
    ensures d'.Get(TP) == d.Get(S0) + d.Load(d.Get(SP) + A + k)
    ensures forall r: Reg :: r != rd && r != TP ==> d'.Get(r) == d.Get(r)
    ensures forall a: Word :: d'.Load(a) == if a == d'.Get(TP) then 1 else d.Load(a)
  {
    hide Run, ByteOf;
    var d1 := Exec(Lbu(rd, SP, A + k), d);
    var d2 := Exec(Add(TP, S0, rd), d1);
    var d3 := Exec(Addi(rd, X0, 1), d2);
    SameMemory(d, d3);
    d' := Exec(Sb(rd, TP, 0), d3);
    OneByte();
    Run4(Lbu(rd, SP, A + k), Add(TP, S0, rd), Addi(rd, X0, 1), Sb(rd, TP, 0), d);
  }

  /** Second half: clear the byte of VAR_B and look at the mark again. */
  lemma UnmarkOk(rd: Reg, k: nat, d: Data) returns (d': Data)
    requires k < 4 && rd != S0 && rd != TP && rd != SP && rd != X0
    requires d.Get(S0) + 256 <= W && 28 <= d.Get(SP)
    ensures d' == Run([Lbu(rd, SP, B + k), Add(rd, S0, rd), Sb(X0, rd, 0), Lbu(rd, TP, 0)], d)
    ensures d'.Get(rd) == if d.Get(TP) == d.Get(S0) + d.Load(d.Get(SP) + B + k) then 0 else d.Load(d.Get(TP))
    ensures forall r: Reg :: r != rd ==> d'.Get(r) == d.Get(r)
    ensures MemKept(d, d', d.Get(S0), d.Get(S0) + 256)
  {
    hide Run, ByteOf;
    var d5 := Exec(Lbu(rd, SP, B + k), d);
    var d6 := Exec(Add(rd, S0, rd), d5);
    SameMemory(d, d6);
    var d7 := Exec(Sb(X0, rd, 0), d6);
    d' := Exec(Lbu(rd, TP, 0), d7);
    SameMemory(d7, d');
    OneByte();
    Run4(Lbu(rd, SP, B + k), Add(rd, S0, rd), Sb(X0, rd, 0), Lbu(rd, TP, 0), d);
  }

  lemma Check8SameOk(rd: Reg, k: nat, d: Data) returns (d': Data)
    requires k < 4 && rd != S0 && rd != TP && rd != SP && rd != X0
    requires d.Get(S0) + 256 <= W && Apart(d.Get(SP), d.Get(S0), 256)
    ensures d' == Run(Check8Same(S0, rd, k), d)
    ensures d'.Get(rd) == if d.Load(d.Get(SP) + A + k) == d.Load(d.Get(SP) + B + k) then 0 else 1
    ensures forall r: Reg :: r != rd && r != TP ==> d'.Get(r) == d.Get(r)
    ensures MemKept(d, d', d.Get(S0), d.Get(S0) + 256)
  {
    hide Run;
    var d4 := MarkOk(rd, k, d);
    d' := UnmarkOk(rd, k, d4);
    RunAppend([Lbu(rd, SP, A + k), Add(TP, S0, rd), Addi(rd, X0, 1), Sb(rd, TP, 0)],
      [Lbu(rd, SP, B + k), Add(rd, S0, rd), Sb(X0, rd, 0), Lbu(rd, TP, 0)], d);
  }

  lemma OneByte()
    ensures ByteOf(0, 0) == 0 && ByteOf(1, 0) == 1
  {
  }

  function Differ(x: Word, y: Word, k: nat): (b: nat)
    requires k < 4
    ensures b < 2
  {
    if ByteOf(x, k) == ByteOf(y, k) then 0 else 1
  }

  /** One more byte position compared, its verdict added to `gp`. */
  lemma CountStepOk(k: nat, x: Word, y: Word, sp: Word, check: Word, d: Data) returns (d': Data)
    requires k < 4 && CountReady(d, x, y, sp, check) && d.Get(GP) < 4
    ensures d' == Run(Check8Same(S0, S1, k) + [Add(GP, GP, S1)], d)
    ensures CountReady(d', x, y, sp, check)
    ensures d'.Get(GP) == d.Get(GP) + Differ(x, y, k)
    ensures forall r: Reg :: r != S1 && r != GP && r != TP ==> d'.Get(r) == d.Get(r)
    ensures MemKept(d, d', check, check + 256)
  {
    hide Run, Check8Same, Data.LoadWord, ByteOf;
    LoadedBytes(d, sp + A, x);
    LoadedBytes(d, sp + B, y);
    var d1 := Check8SameOk(S1, k, d);
    d' := Exec(Add(GP, GP, S1), d1);
    SameMemory(d1, d');
    WordKept(d, d', sp + A, check, check + 256);
    WordKept(d, d', sp + B, check, check + 256);
    Run1(Add(GP, GP, S1), d1);
    RunAppend(Check8Same(S0, S1, k), [Add(GP, GP, S1)], d);
  }

  ghost predicate CountReady(d: Data, x: Word, y: Word, sp: Word, check: Word) {
    && d.Get(SP) == sp && d.Get(S0) == check && check + 256 <= W && Apart(sp, check, 256)
    && d.LoadWord(sp + A) == x && d.LoadWord(sp + B) == y
  }

  lemma CountDifferentOk(x: Word, y: Word, sp: Word, check: Word, d: Data) returns (d': Data)
    requires CountReady(d, x, y, sp, check)
    ensures d' == Run(CountDifferent(), d)
    ensures d'.Get(GP) == Differ(x, y, 0) + Differ(x, y, 1) + Differ(x, y, 2) + Differ(x, y, 3)
    ensures forall r: Reg :: r != S1 && r != GP && r != TP ==> d'.Get(r) == d.Get(r)
    ensures MemKept(d, d', check, check + 256)
  {
    hide Run, Check8Same, Data.LoadWord, ByteOf;
    LoadedBytes(d, sp + A, x);
    LoadedBytes(d, sp + B, y);
    var d1 := Check8SameOk(GP, 0, d);
    WordKept(d, d1, sp + A, check, check + 256);
    WordKept(d, d1, sp + B, check, check + 256);
    var d2 := CountStepOk(1, x, y, sp, check, d1);
    var d3 := CountStepOk(2, x, y, sp, check, d2);
    d' := CountStepOk(3, x, y, sp, check, d3);
    var step := k requires 0 <= k < 4 => Check8Same(S0, S1, k) + [Add(GP, GP, S1)];
    RunAppend(Check8Same(S0, GP, 0) + step(1) + step(2), step(3), d);
    RunAppend(Check8Same(S0, GP, 0) + step(1), step(2), d);
    RunAppend(Check8Same(S0, GP, 0), step(1), d);
  }

  /** `tp` points into a table at offset `gp`; the byte there goes to `rd`. */
  lemma TableByteOk(table: Word, tab: seq<Byte>, rd: Reg, d: Data) returns (d': Data)
    requires Holds(d, table, tab) && d.Get(GP) < |tab|
    ensures d' == Run(La(TP, table) + [Add(TP, TP, GP)] + [Lbu(rd, TP, 0)], d)
    ensures rd != X0 ==> d'.Get(rd) == tab[d.Get(GP)]
    ensures forall r: Reg :: r != rd && r != TP ==> d'.Get(r) == d.Get(r)
    ensures d'.mem == d.mem
  {
    hide Run, La, Data.LoadWord;
    var d1 := LaOk(TP, table, d);
    var d2 := Exec(Add(TP, TP, GP), d1);
    SameMemory(d, d2);
    d' := Exec(Lbu(rd, TP, 0), d2);
    assert d.Load(table + d.Get(GP)) == tab[d.Get(GP)];
    Run1(Add(TP, TP, GP), d1);
    Run1(Lbu(rd, TP, 0), d2);
    RunGroups(La(TP, table), [Add(TP, TP, GP)], [Lbu(rd, TP, 0)], d);
  }

  /** The count of differing bytes selects 1 exactly when the words are equal. */
  lemma SameLookup(x: Word, y: Word)
    ensures SAME[Differ(x, y, 0) + Differ(x, y, 1) + Differ(x, y, 2) + Differ(x, y, 3)] == if x == y then 1 else 0
  {
    WordBytes(x);
    WordBytes(y);
  }

  lemma SeqOperandsOk(rs1: Reg, rs2: Reg, d: Data) returns (d': Data)
    requires 28 <= d.Get(SP)
    ensures d' == Run([Sw(rs1, SP, A), Sw(rs2, SP, B), Sw(S0, SP, SAVE1), Sw(S1, SP, SAVE2)], d)
    ensures forall r: Reg :: d'.Get(r) == d.Get(r)
    ensures d'.LoadWord(d.Get(SP) + A) == d.Get(rs1) && d'.LoadWord(d.Get(SP) + B) == d.Get(rs2)
    ensures d'.LoadWord(d.Get(SP) + SAVE1) == d.Get(S0) && d'.LoadWord(d.Get(SP) + SAVE2) == d.Get(S1)
    ensures MemKept(d, d', d.Get(SP) + D, d.Get(SP))
  {
    hide Run, Data.LoadWord;
    var sp := d.Get(SP);
    var d1 := SwOk(rs1, A, d);
    var d2 := SwOk(rs2, B, d1);
    WordKept(d1, d2, sp + A, sp + B, sp + A);
    var d3 := SwOk(S0, SAVE1, d2);
    WordKept(d2, d3, sp + A, sp + SAVE1, sp);
    WordKept(d2, d3, sp + B, sp + SAVE1, sp);
    d' := SwOk(S1, SAVE2, d3);
    WordKept(d3, d', sp + A, sp + SAVE2, sp + SAVE1);
    WordKept(d3, d', sp + B, sp + SAVE2, sp + SAVE1);
    WordKept(d3, d', sp + SAVE1, sp + SAVE2, sp + SAVE1);
    Run4(Sw(rs1, SP, A), Sw(rs2, SP, B), Sw(S0, SP, SAVE1), Sw(S1, SP, SAVE2), d);
  }

  lemma SeqOk(t: Layout, rd: Reg, rs1: Reg, rs2: Reg, d: Data) returns (d': Data)
    requires rd != SP
    requires t.check + 256 <= W && Apart(d.Get(SP), t.check, 256)
    requires Holds(d, t.same, SAME) && Apart(d.Get(SP), t.same, 8)
    requires t.same + 8 <= t.check || t.check + 256 <= t.same
    ensures d' == Run(Seq(t, rd, rs1, rs2), d)
    ensures rd != X0 && rd != S0 && rd != S1 ==> d'.Get(rd) == if d.Get(rs1) == d.Get(rs2) then 1 else 0
    ensures rd == S0 || rd == S1 ==> d'.Get(rd) == d.Get(rd)
    ensures forall r: Reg :: r != rd && r != GP && r != TP ==> d'.Get(r) == d.Get(r)
    ensures ScratchOnly(d, d', d.Get(SP), t.check)
  {
    hide Run, La, CountDifferent, Data.LoadWord, Differ;
    var sp, x, y := d.Get(SP), d.Get(rs1), d.Get(rs2);
    var d1 := SeqOperandsOk(rs1, rs2, d);
    var d2 := LaOk(S0, t.check, d1);
    SameMemory(d1, d2);
    HoldsKept(d, d2, t.same, SAME, sp + D, sp);
    var d3 := CountDifferentOk(x, y, sp, t.check, d2);
    HoldsKept(d2, d3, t.same, SAME, t.check, t.check + 256);
    WordKept(d2, d3, sp + SAVE1, t.check, t.check + 256);
    WordKept(d2, d3, sp + SAVE2, t.check, t.check + 256);
    var d4 := TableByteOk(t.same, SAME, rd, d3);
    SameMemory(d3, d4);
    SameLookup(x, y);
    var d5 := Exec(Lw(S1, SP, SAVE2), d4);
    SameMemory(d4, d5);
    d' := Exec(Lw(S0, SP, SAVE1), d5);
    SameMemory(d5, d');
    Run2(Lw(S1, SP, SAVE2), Lw(S0, SP, SAVE1), d4);
    var first := [Sw(rs1, SP, A), Sw(rs2, SP, B), Sw(S0, SP, SAVE1), Sw(S1, SP, SAVE2)];
    var look := La(TP, t.same) + [Add(TP, TP, GP)] + [Lbu(rd, TP, 0)];
    RunAppend(first + La(S0, t.check) + CountDifferent() + look, [Lw(S1, SP, SAVE2), Lw(S0, SP, SAVE1)], d);
    RunAppend(first + La(S0, t.check) + CountDifferent(), look, d);
    RunGroups(first, La(S0, t.check), CountDifferent(), d);
  }

  function ZeroTable(): (z: seq<Byte>)
    ensures |z| == 256 && forall k :: 0 <= k < 256 ==> z[k] == if k == 0 then 0 else 1
  {
    [0] + seq(255, _ => 1)
  }

  ghost predicate ZeroReady(d: Data, x: Word, sp: Word, table: Word) {
    && d.Get(SP) == sp && 28 <= sp && d.Get(S0) == table && Holds(d, table, ZeroTable())
    && d.LoadWord(sp + A) == x
  }

  lemma Check8ZeroOk(rd: Reg, k: nat, x: Word, sp: Word, table: Word, d: Data) returns (d': Data)
    requires k < 4 && rd != S0 && rd != SP && rd != X0 && ZeroReady(d, x, sp, table)
    ensures d' == Run(Check8Zero(S0, rd, k), d) && ZeroReady(d', x, sp, table)
    ensures d'.Get(rd) == Differ(x, 0, k)
    ensures forall r: Reg :: r != rd ==> d'.Get(r) == d.Get(r)
    ensures d'.mem == d.mem
  {
    hide Run, Data.LoadWord;
    LoadedBytes(d, sp + A, x);
    var d1 := Exec(Lbu(rd, SP, A + k), d);
    var d2 := Exec(Add(rd, S0, rd), d1);
    SameMemory(d, d2);
    d' := Exec(Lbu(rd, rd, 0), d2);
    SameMemory(d, d');
    assert d.Load(table + ByteOf(x, k)) == ZeroTable()[ByteOf(x, k)];
    Run3(Lbu(rd, SP, A + k), Add(rd, S0, rd), Lbu(rd, rd, 0), d);
  }

  lemma ZeroStepOk(k: nat, x: Word, sp: Word, table: Word, d: Data) returns (d': Data)
    requires k < 4 && ZeroReady(d, x, sp, table) && d.Get(GP) < 4
    ensures d' == Run(Check8Zero(S0, TP, k) + [Add(GP, GP, TP)], d) && ZeroReady(d', x, sp, table)
    ensures d'.Get(GP) == d.Get(GP) + Differ(x, 0, k)
    ensures forall r: Reg :: r != GP && r != TP ==> d'.Get(r) == d.Get(r)
    ensures d'.mem == d.mem
  {
    hide Run, Check8Zero, Data.LoadWord, Differ;
    var d1 := Check8ZeroOk(TP, k, x, sp, table, d);
    d' := Exec(Add(GP, GP, TP), d1);
    SameMemory(d, d');
    Run1(Add(GP, GP, TP), d1);
    RunAppend(Check8Zero(S0, TP, k), [Add(GP, GP, TP)], d);
  }

  lemma CountNonZeroOk(x: Word, sp: Word, table: Word, d: Data) returns (d': Data)
    requires ZeroReady(d, x, sp, table)
    ensures d' == Run(CountNonZero(), d)
    ensures d'.Get(GP) == Differ(x, 0, 0) + Differ(x, 0, 1) + Differ(x, 0, 2) + Differ(x, 0, 3)
    ensures forall r: Reg :: r != GP && r != TP ==> d'.Get(r) == d.Get(r)
    ensures d'.mem == d.mem
  {
    hide Run, Check8Zero, ZeroReady, Differ;
    var d1 := Check8ZeroOk(GP, 0, x, sp, table, d);
    var d2 := ZeroStepOk(1, x, sp, table, d1);
    var d3 := ZeroStepOk(2, x, sp, table, d2);
    d' := ZeroStepOk(3, x, sp, table, d3);
    var step := k requires 0 <= k < 4 => Check8Zero(S0, TP, k) + [Add(GP, GP, TP)];
    RunAppend(Check8Zero(S0, GP, 0) + step(1) + step(2), step(3), d);
    RunAppend(Check8Zero(S0, GP, 0) + step(1), step(2), d);
    RunAppend(Check8Zero(S0, GP, 0), step(1), d);
  }

  /** `seqz` up to the restore of `s0`; `d2` is the state after its two stores. */
  lemma SeqzLookOk(t: Layout, rd: Reg, rs1: Reg, d: Data) returns (d2: Data, d5: Data)
    requires Holds(d, t.zero, ZeroTable()) && Apart(d.Get(SP), t.zero, 256)
    requires Holds(d, t.same, SAME) && Apart(d.Get(SP), t.same, 8)
    ensures d2 == Exec(Sw(S0, SP, SAVE1), Exec(Sw(rs1, SP, A), d))
    ensures Run(Seqz(t, rd, rs1), d) == Exec(Lw(S0, SP, SAVE1), d5) && d5.mem == d2.mem
    ensures rd != X0 ==> d5.Get(rd) == if d.Get(rs1) == 0 then 1 else 0
    ensures forall r: Reg :: r != rd && r != GP && r != TP && r != S0 ==> d5.Get(r) == d.Get(r)
    ensures d2.LoadWord(d.Get(SP) + SAVE1) == d.Get(S0) && MemKept(d, d2, d.Get(SP) + D, d.Get(SP))
  {
    hide Run, La, CountNonZero, Data.LoadWord, Differ, ZeroTable;
    var sp, x := d.Get(SP), d.Get(rs1);
    var d1 := SwOk(rs1, A, d);
    d2 := SwOk(S0, SAVE1, d1);
    WordKept(d1, d2, sp + A, sp + SAVE1, sp);
    var d3 := LaOk(S0, t.zero, d2);
    SameMemory(d2, d3);
    HoldsKept(d, d3, t.zero, ZeroTable(), sp + D, sp);
    HoldsKept(d, d3, t.same, SAME, sp + D, sp);
    var d4 := CountNonZeroOk(x, sp, t.zero, d3);
    SameMemory(d3, d4);
    SameLookup(x, 0);
    d5 := TableByteOk(t.same, SAME, rd, d4);
    SeqzCode(t, rd, rs1, d, d2, d4, d5);
  }

  lemma SeqzCode(t: Layout, rd: Reg, rs1: Reg, d: Data, d2: Data, d4: Data, d5: Data)
    requires d2 == Exec(Sw(S0, SP, SAVE1), Exec(Sw(rs1, SP, A), d))
    requires d4 == Run(CountNonZero(), Run(La(S0, t.zero), d2))
    requires d5 == Run(La(TP, t.same) + [Add(TP, TP, GP)] + [Lbu(rd, TP, 0)], d4)
    ensures Run(Seqz(t, rd, rs1), d) == Exec(Lw(S0, SP, SAVE1), d5)
  {
    hide Run, La, CountNonZero, Exec;
    Run2(Sw(rs1, SP, A), Sw(S0, SP, SAVE1), d);
    Run1(Lw(S0, SP, SAVE1), d5);
    var first, look := [Sw(rs1, SP, A), Sw(S0, SP, SAVE1)], La(TP, t.same) + [Add(TP, TP, GP)] + [Lbu(rd, TP, 0)];
    RunAppend(first + La(S0, t.zero) + CountNonZero() + look, [Lw(S0, SP, SAVE1)], d);
    RunAppend(first + La(S0, t.zero) + CountNonZero(), look, d);
    RunGroups(first, La(S0, t.zero), CountNonZero(), d);
  }

  /** `seqz`: the final restore of `s0` wins when `rd` is `s0`. */
  lemma SeqzOk(t: Layout, rd: Reg, rs1: Reg, d: Data) returns (d': Data)
    requires rd != SP
    requires Holds(d, t.zero, ZeroTable()) && Apart(d.Get(SP), t.zero, 256)
    requires Holds(d, t.same, SAME) && Apart(d.Get(SP), t.same, 8)
    ensures d' == Run(Seqz(t, rd, rs1), d)
    ensures rd != X0 && rd != S0 ==> d'.Get(rd) == if d.Get(rs1) == 0 then 1 else 0
    ensures rd == S0 ==> d'.Get(S0) == d.Get(S0)
    ensures forall r: Reg :: r != rd && r != GP && r != TP ==> d'.Get(r) == d.Get(r)
    ensures MemKept(d, d', d.Get(SP) + D, d.Get(SP))
  {
    hide Run, Seqz, Data.LoadWord, ZeroTable;
    var d2, d5 := SeqzLookOk(t, rd, rs1, d);
    SameMemory(d2, d5);
    d' := Exec(Lw(S0, SP, SAVE1), d5);
    SameMemory(d5, d');
  }

  /** `branch_resolve` leaves in `tp` the address that the 0/1 value of `tp` selects. */
  lemma ResolveOk(target: Word, next: Word, high: bool, d: Data) returns (d': Data)
    requires 28 <= d.Get(SP) && d.Get(TP) < 2
    ensures d' == Run(Resolve(target, next, high), d)
    ensures d'.Get(TP) == if (d.Get(TP) == 1) == high then target else next
    ensures forall r: Reg :: r != GP && r != TP ==> d'.Get(r) == d.Get(r)
    ensures MemKept(d, d', d.Get(SP) + D, d.Get(SP))
  {
    hide Run, La, Slli, Shl, Data.LoadWord;
    var sp := d.Get(SP);
    TimesFour(d.Get(TP));
    var x, y := if high then target else next, if high then next else target;
    var d1 := SlliSmallOk(TP, TP, 2, d);
    var d2 := Exec(Add(TP, SP, TP), d1);
    SameMemory(d, d2);
    var d3 := LaOk(GP, x, d2);
    var d4 := SwOk(GP, A, d3);
    SameMemory(d2, d3);
    var d5 := LaOk(GP, y, d4);
    SameMemory(d4, d5);
    var d6 := SwOk(GP, B, d5);
    WordKept(d5, d6, sp + A, sp + B, sp + A);
    d' := Exec(Lw(TP, TP, B), d6);
    SameMemory(d6, d');
    Run1(Add(TP, SP, TP), d1);
    Run1(Sw(GP, SP, A), d3);
    Run1(Sw(GP, SP, B), d5);
    Run1(Lw(TP, TP, B), d6);
    RunAppend(Slli(TP, TP, 2), [Add(TP, SP, TP)], d);
    RunAppend(La(GP, x), [Sw(GP, SP, A)], d2);
    RunAppend(La(GP, y), [Sw(GP, SP, B)], d4);
    RunAppend((Slli(TP, TP, 2) + [Add(TP, SP, TP)]) + (La(GP, x) + [Sw(GP, SP, A)]) + (La(GP, y) + [Sw(GP, SP, B)]),
      [Lw(TP, TP, B)], d);
    RunGroups(Slli(TP, TP, 2) + [Add(TP, SP, TP)], La(GP, x) + [Sw(GP, SP, A)], La(GP, y) + [Sw(GP, SP, B)], d);
  }

  lemma NotPositiveOk(t: Layout, rs2: Reg, d: Data) returns (d': Data)
    requires rs2 != GP && rs2 != TP
    requires Holds(d, t.or1, OR1) && Apart(d.Get(SP), t.or1, 4)
    ensures d' == Run(NotPositive(t, rs2), d)
    ensures d'.Get(TP) == if Signed(d.Get(rs2)) > 0 then 0 else 1
    ensures forall r: Reg :: r != GP && r != TP ==> d'.Get(r) == d.Get(r)
    ensures MemKept(d, d', d.Get(SP) + D, d.Get(SP))
  {
    hide Run, Msb, La;
    var sp, x := d.Get(SP), d.Get(rs2);
    var d1 := MsbOk(GP, rs2, d);
    var d2 := Exec(Addi(TP, rs2, -1), d1);
    SameMemory(d1, d2);
    var d3 := MsbOk(TP, TP, d2);
    var d4 := Exec(Add(GP, GP, TP), d3);
    SameMemory(d3, d4);
    HoldsKept(d, d4, t.or1, OR1, sp + D, sp);
    d' := OrLookupOk(t, d4);
    SameMemory(d4, d');
    Run1(Addi(TP, rs2, -1), d1);
    Run1(Add(GP, GP, TP), d3);
    RunGroups(Msb(GP, rs2), [Addi(TP, rs2, -1)], Msb(TP, TP), d);
    RunGroups(Msb(GP, rs2) + [Addi(TP, rs2, -1)] + Msb(TP, TP), [Add(GP, GP, TP)],
      La(TP, t.or1) + [Add(TP, GP, TP)] + [Lbu(TP, TP, 0)], d);
  }

  lemma OrLookupOk(t: Layout, d: Data) returns (d': Data)
    requires Holds(d, t.or1, OR1) && d.Get(GP) < 4
    ensures d' == Run(La(TP, t.or1) + [Add(TP, GP, TP)] + [Lbu(TP, TP, 0)], d)
    ensures d'.Get(TP) == OR1[d.Get(GP)]
    ensures forall r: Reg :: r != TP ==> d'.Get(r) == d.Get(r)
    ensures d'.mem == d.mem
  {
    hide Run, La;
    var d1 := LaOk(TP, t.or1, d);
    var d2 := Exec(Add(TP, GP, TP), d1);
    SameMemory(d, d2);
    d' := Exec(Lbu(TP, TP, 0), d2);
    assert d.Load(t.or1 + d.Get(GP)) == OR1[d.Get(GP)];
    Run1(Add(TP, GP, TP), d1);
    Run1(Lbu(TP, TP, 0), d2);
    RunGroups(La(TP, t.or1), [Add(TP, GP, TP)], [Lbu(TP, TP, 0)], d);
  }

  /** The truth tables above `_slt1_table`, for all operands. */
  lemma SltTables(x: Word, y: Word)
    ensures SLT1[SignIndex(x, y)] == if Signed(x) < Signed(y) then 1 else 0
    ensures SLTU1[SignIndex(x, y)] == if x < y then 1 else 0
  {
  }
}
