/** The destinations that `Covered` leaves out: exactly when `lb`, `seqz` and `sltz` do what they should there. */
module Destinations {
  import opened Machine
  import opened Tables
  import opened Macros
  import opened Words
  import opened WordTypes
  import opened BasicMacros
  import opened ShiftMacros
  import opened ShiftTables
  import opened CompareMacros
  import opened Rv32i
  import opened Lowering
  import opened Environment
  import opened LoweringProof

  /** `seqz s0, rs1` restores `s0` after writing it, so it works only if `s0` holds the result before. */
  lemma SeqzS0Exactly(t: Layout, rs1: Reg, d: Data)
    requires Ready(d, t) && Free(rs1)
    ensures Agree(SrcExec(Src.Seqz(S0, rs1), d), Run(Macros.Seqz(t, S0, rs1), d), d.Get(SP), t)
       <==> d.Get(S0) == Flag(d.Get(rs1) == 0)
  {
    hide Run, Macros.Seqz, ZeroTable, TablesLoaded;
    ReadyApart(d, t);
    assert Holds(d, t.zero, ZeroTable()) && Holds(d, t.same, SAME) by {
      TwoTables(d, t);
    }
    var d' := SeqzOk(t, S0, rs1, d);
    KeptAgrees(d, d', S0, Flag(d.Get(rs1) == 0), t);
  }

  lemma TwoTables(d: Data, t: Layout)
    requires TablesLoaded(d, t)
    ensures Holds(d, t.zero, ZeroTable()) && Holds(d, t.same, SAME)
  {
    hide Holds, ZeroTable, LutImage;
  }

  /** Agreement when only `rd`, the reserved registers and scratch memory have changed. */
  lemma KeptAgrees(d: Data, d': Data, rd: Reg, v: Word, t: Layout)
    requires Free(rd) && rd != X0
    requires forall r: Reg :: r != rd && Free(r) ==> d'.Get(r) == d.Get(r)
    requires MemKept(d, d', d.Get(SP) + D, d.Get(SP))
    ensures Agree(d.Set(rd, v), d', d.Get(SP), t) <==> d'.Get(rd) == v
  {
    var e := d.Set(rd, v);
    assert e.Get(rd) == v;
  }

  /** What `seqz sp, rs1` pops into `s0`: the word 4 bytes below the result. */
  function Popped(rs1: Reg, d: Data): Word {
    Exec(Sw(S0, SP, SAVE1), Exec(Sw(rs1, SP, A), d)).LoadWord(Wrap(Flag(d.Get(rs1) == 0) - 4))
  }

  lemma SeqzSpOk(t: Layout, rs1: Reg, d: Data) returns (d': Data)
    requires Holds(d, t.zero, ZeroTable()) && Apart(d.Get(SP), t.zero, 256)
    requires Holds(d, t.same, SAME) && Apart(d.Get(SP), t.same, 8)
    ensures d' == Run(Macros.Seqz(t, SP, rs1), d)
    ensures d'.Get(SP) == Flag(d.Get(rs1) == 0) && d'.Get(S0) == Popped(rs1, d)
    ensures forall r: Reg :: Free(r) && r != SP && r != S0 ==> d'.Get(r) == d.Get(r)
    ensures MemKept(d, d', d.Get(SP) + D, d.Get(SP))
  {
    hide Run, Macros.Seqz, Data.LoadWord, ZeroTable;
    var d2, d5 := SeqzLookOk(t, SP, rs1, d);
    SameMemory(d2, d5);
    d' := Exec(Lw(S0, SP, SAVE1), d5);
    SameMemory(d5, d');
  }

  /** `seqz sp, rs1` sets `sp` before the restore of `s0`, which then reads somewhere else. */
  lemma SeqzSpExactly(t: Layout, rs1: Reg, d: Data)
    requires Ready(d, t) && Free(rs1)
    ensures Agree(SrcExec(Src.Seqz(SP, rs1), d), Run(Macros.Seqz(t, SP, rs1), d), d.Get(SP), t)
       <==> Popped(rs1, d) == d.Get(S0)
  {
    hide Run, Macros.Seqz, ZeroTable, TablesLoaded, Popped;
    ReadyApart(d, t);
    assert Holds(d, t.zero, ZeroTable()) && Holds(d, t.same, SAME) by {
      TwoTables(d, t);
    }
    var d' := SeqzSpOk(t, rs1, d);
    assert SrcExec(Src.Seqz(SP, rs1), d).Get(S0) == d.Get(S0);
  }

  /** Storing the word `v` at `a` changes nothing that the source program can see. */
  ghost predicate Harmless(d: Data, t: Layout, a: Word, v: Word) {
    forall k: nat :: k < 4 ==> Unseen(d, t, Wrap(a + k)) || d.Load(Wrap(a + k)) == ByteOf(v, k)
  }

  /** Scratch memory below `sp`, or the check array. */
  predicate Unseen(d: Data, t: Layout, a: Word) {
    InScratch(d.Get(SP), a) || InCheck(t, a)
  }

  /** The same memory as far as the source program can see it. */
  ghost predicate SeenKept(d: Data, d': Data, t: Layout) {
    forall a: Word :: !Unseen(d, t, a) ==> d'.Load(a) == d.Load(a)
  }

  lemma StoreSeen(d: Data, d1: Data, t: Layout, a: Word, v: Word)
    requires SeenKept(d, d1, t)
    ensures SeenKept(d, d1.StoreWord(a, v), t) <==> Harmless(d, t, a, v)
  {
    hide ByteOf, Unseen;
    var e := d1.StoreWord(a, v);
    forall k: nat | k < 4
      ensures e.Load(Wrap(a + k)) == ByteOf(v, k)
    {
    }
    if Harmless(d, t, a, v) {
      forall q: Word | !Unseen(d, t, q)
        ensures e.Load(q) == d.Load(q)
      {
        assert e.Load(q) == d1.Patched(q, a, v);
        assert Wrap(a + 0) == a;
      }
    }
  }

  /** `sltz sp, rs1` computes the right value but stores twice the top byte of `rs1` just below address twice that. */
  lemma SltzSpExactly(t: Layout, rs1: Reg, d: Data)
    requires Ready(d, t) && Free(rs1)
    ensures var b := ByteOf(d.Get(rs1), 3);
      Agree(SrcExec(Src.Sltz(SP, rs1), d), Run(Msb(SP, rs1), d), d.Get(SP), t)
      <==> Harmless(d, t, Wrap(2 * b + C), 2 * b)
  {
    hide Run, Msb, ByteOf, Harmless, Data.LoadWord;
    assert 28 <= d.Get(SP) by { ReadySp(d, t); }
    var d1, d' := MsbSpOk(rs1, d);
    var b := ByteOf(d.Get(rs1), 3);
    assert SeenKept(d, d1, t);
    StoreSeen(d, d1, t, Wrap(2 * b + C), 2 * b);
    SignOfByte(d.Get(rs1));
  }

  lemma SignOfByte(x: Word)
    ensures ByteOf(2 * ByteOf(x, 3), 1) == Flag(Signed(x) < 0)
  {
  }

  lemma MsbSpOk(rs1: Reg, d: Data) returns (d1: Data, d': Data)
    requires 28 <= d.Get(SP)
    ensures MemKept(d, d1, d.Get(SP) + D, d.Get(SP))
    ensures var b := ByteOf(d.Get(rs1), 3);
      && d' == Run(Msb(SP, rs1), d) && d'.Get(SP) == ByteOf(2 * b, 1)
      && forall a: Word :: d'.Load(a) == d1.StoreWord(Wrap(2 * b + C), 2 * b).Load(a)
    ensures forall r: Reg :: r != SP ==> d'.Get(r) == d.Get(r)
  {
    hide Run, Getbyte, Slli, Shl, ByteOf;
    var b := ByteOf(d.Get(rs1), 3);
    d1 := GetbyteOk(SP, rs1, 3, d);
    Doubled(b);
    var d2 := SlliSmallOk(SP, SP, 1, d1);
    SameMemory(d1, d2);
    assert Run(Getbyte(SP, SP, 1), d2) == Exec(Lbu(SP, SP, C + 1), Exec(Sw(SP, SP, C), d2)) by {
      GetbyteCode(SP, SP, 1, d2);
    }
    d' := Exec(Lbu(SP, SP, C + 1), Exec(Sw(SP, SP, C), d2));
    RunAppend(Getbyte(SP, rs1, 3) + Slli(SP, SP, 1), Getbyte(SP, SP, 1), d);
    RunAppend(Getbyte(SP, rs1, 3), Slli(SP, SP, 1), d);
  }

  lemma GetbyteCode(rd: Reg, rs1: Reg, k: nat, d: Data)
    requires k < 4
    ensures Run(Getbyte(rd, rs1, k), d) == Exec(Lbu(rd, SP, C + k), Exec(Sw(rs1, SP, C), d))
  {
    Run2(Sw(rs1, SP, C), Lbu(rd, SP, C + k), d);
  }

  /** The states of `lb sp, off(rs1)` after each of its stores: VAR_A cleared, the byte stored, the word stored. */
  function Cleared(d: Data): Data {
    Exec(Sw(X0, SP, A), d)
  }

  function ByteStored(b: Byte, d: Data): Data {
    Cleared(d).Store(Wrap(b + A + 3), b)
  }

  /** What it then takes for VAR_A, the stack pointer being the byte; its top byte is the byte again. */
  function LoadedWordAt(b: Byte, d: Data): Word {
    ByteStored(b, d).LoadWord(Wrap(b + A))
  }

  function WordStored(b: Byte, d: Data): Data {
    var w := LoadedWordAt(b, d);
    ByteStored(b, d).StoreWord(Wrap(w + A), w)
  }

  /** No byte that the source program can see is changed by the two stores to wrong addresses. */
  ghost predicate LbHarmless(b: Byte, d: Data, t: Layout) {
    var w := LoadedWordAt(b, d);
    && Harmless(d, t, Wrap(w + A), w)
    && (Unseen(d, t, Wrap(b + A + 3)) || d.Load(Wrap(b + A + 3)) == b || InWord(Wrap(w + A), Wrap(b + A + 3)))
  }

  predicate InWord(a: Word, q: Word) {
    q == a || q == Wrap(a + 1) || q == Wrap(a + 2) || q == Wrap(a + 3)
  }

  lemma LbStores(b: Byte, d: Data, t: Layout)
    requires 28 <= d.Get(SP)
    ensures SeenKept(d, WordStored(b, d), t) <==> LbHarmless(b, d, t)
  {
    hide ByteOf, Unseen, LoadedWordAt;
    var p, w := Wrap(b + A + 3), LoadedWordAt(b, d);
    var d1 := Cleared(d);
    assert SeenKept(d, d1, t) by {
      ClearedSeen(d, t);
    }
    var e := ByteStored(b, d).StoreWord(Wrap(w + A), w);
    assert forall q: Word :: e.Load(q) == ByteStored(b, d).Patched(q, Wrap(w + A), w);
    assert forall q: Word :: q != p ==> e.Load(q) == d1.StoreWord(Wrap(w + A), w).Load(q);
    assert InWord(Wrap(w + A), p) ==> e.Load(p) == d1.StoreWord(Wrap(w + A), w).Load(p);
    StoreSeen(d, d1, t, Wrap(w + A), w);
    WordSeen(d, d1, t, e, Wrap(w + A), w, p, b);
  }

  lemma ClearedSeen(d: Data, t: Layout)
    requires 28 <= d.Get(SP)
    ensures SeenKept(d, Cleared(d), t)
  {
    hide ByteOf, Data.LoadWord;
    var d1 := SwOk(X0, A, d);
  }

  /** A word and before it a byte: only the last value of each byte counts. */
  lemma WordSeen(d: Data, d1: Data, t: Layout, e: Data, a: Word, v: Word, p: Word, b: Byte)
    requires SeenKept(d, d1, t) && (forall q: Word :: q != p ==> e.Load(q) == d1.StoreWord(a, v).Load(q))
    requires e.Load(p) == if InWord(a, p) then d1.StoreWord(a, v).Load(p) else b
    requires SeenKept(d, d1.StoreWord(a, v), t) <==> Harmless(d, t, a, v)
    ensures SeenKept(d, e, t) <==> Harmless(d, t, a, v) && (Unseen(d, t, p) || d.Load(p) == b || InWord(a, p))
  {
    hide ByteOf, Unseen, Harmless;
    var f := d1.StoreWord(a, v);
    if !InWord(a, p) {
      assert f.Load(p) == d1.Load(p);
    }
  }

  /** `lb` up to the shift: `sp` holds the loaded word, and the byte has been stored. */
  lemma LbSpLoad(rs1: Reg, off: Imm12, d: Data) returns (d': Data)
    requires 28 <= d.Get(SP) && !InScratch(d.Get(SP), d.Addr(rs1, off))
    ensures d' == Run([Sw(X0, SP, A), Lbu(SP, rs1, off), Sb(SP, SP, A + 3), Lw(SP, SP, A)], d)
    ensures var b := d.Load(d.Addr(rs1, off));
      && d'.mem == ByteStored(b, d).mem && d'.Get(SP) == LoadedWordAt(b, d) && ByteOf(LoadedWordAt(b, d), 3) == b
    ensures forall r: Reg :: r != SP ==> d'.Get(r) == d.Get(r)
  {
    hide Run, Data.LoadWord;
    var a := d.Addr(rs1, off);
    var b, d1 := d.Load(a), Cleared(d);
    assert d1.Addr(rs1, off) == a && d1.Load(a) == b by {
      var e := SwOk(X0, A, d);
    }
    var d2 := Exec(Lbu(SP, rs1, off), d1);
    var d3 := Exec(Sb(SP, SP, A + 3), d2);
    assert ByteOf(b, 0) == b;
    assert d3.mem == ByteStored(b, d).mem;
    SameMemory(ByteStored(b, d), d3);
    d' := Exec(Lw(SP, SP, A), d3);
    TopByte(ByteStored(b, d), Wrap(b + A), b);
    Run4(Sw(X0, SP, A), Lbu(SP, rs1, off), Sb(SP, SP, A + 3), Lw(SP, SP, A), d);
  }

  lemma TopByte(d: Data, a: Word, b: Byte)
    requires d.Load(Wrap(a + 3)) == b
    ensures ByteOf(d.LoadWord(a), 3) == b
  {
    BytesWord(d.Load(a), d.Load(Wrap(a + 1)), d.Load(Wrap(a + 2)), b);
  }

  /** The fast path of `srai sp, sp, 24` with any `sp`. */
  lemma SraiSpOk(t: Layout, w: Word, b: Byte, d: Data) returns (d': Data)
    requires t.lut + LUT_SIZE <= W && d.Get(SP) == w && ByteOf(w, 3) == b
    ensures d' == Run(ShiftRight(t, SP, SP, Imm(24), true), d)
    ensures d'.mem == d.StoreWord(Wrap(w + A), w).mem
    ensures d'.Get(SP) == d.StoreWord(Wrap(w + A), w).LoadWord(RowAddr(t, Sra, 24) + 4 * b)
    ensures forall r: Reg :: r != SP && r != TP ==> d'.Get(r) == d.Get(r)
  {
    hide Run, La, Slli, Data.LoadWord, ByteOf, ShiftRight;
    var d1 := Exec(Sw(SP, SP, A), d);
    var d2 := LaOk(TP, RowAddr(t, Sra, 24), d1);
    SameMemory(d1, d2);
    assert d1.Load(Wrap(w + A + 3)) == b;
    var d4;
    d4, d' := TopEntryOk(SP, b, RowAddr(t, Sra, 24), d2);
    FastSraCode(t, SP, SP, d, d2, d4);
  }

  /** As long as nothing that can be seen has changed, the table still holds the sign-extended byte. */
  lemma ExtendedByte(d: Data, e: Data, t: Layout, b: Byte)
    requires Ready(d, t) && SeenKept(d, e, t)
    ensures 0 <= RowAddr(t, Sra, 24) + 4 * b < W && e.LoadWord(RowAddr(t, Sra, 24) + 4 * b) == ByteSigned(b)
  {
    hide ShiftWord, ShiftEntry, TablesLoaded, ByteSigned, WordOf;
    var a := RowAddr(t, Sra, 24) + 4 * b;
    assert d.LoadWord(a) == RowWords(Sra, 24)[b] == ShiftEntry(Sra, 24, b) by {
      RowLoaded(d, t, Sra, 24);
    }
    SignedByte(b);
    ShiftBy24(b * 0x100_0000);
    assert InTables(t, a) && InTables(t, a + 1) && InTables(t, a + 2) && InTables(t, a + 3);
    assert !Unseen(d, t, a) && !Unseen(d, t, a + 1) && !Unseen(d, t, a + 2) && !Unseen(d, t, a + 3);
  }

  /**
   * `lb sp, off(rs1)` moves the stack pointer before it is done with the scratch words, so it works only if the stores
   * through the moved pointer do no harm.
   */
  lemma LbSpExactly(t: Layout, rs1: Reg, off: Imm12, d: Data)
    requires Ready(d, t) && Free(rs1) && !InScratch(d.Get(SP), d.Addr(rs1, off))
    ensures Agree(SrcExec(Src.Lb(SP, rs1, off), d), Run(Macros.Lb(t, SP, rs1, off), d), d.Get(SP), t)
       <==> LbHarmless(d.Load(d.Addr(rs1, off)), d, t)
  {
    hide Run, ShiftRight, LoadedWordAt, WordStored, LbHarmless, Ready, Agree, ByteSigned, Data.LoadWord, ByteOf,
      Data.Addr;
    assert 28 <= d.Get(SP) && t.lut + LUT_SIZE <= W by { ReadySp(d, t); LutHeld(t, d); }
    var b := d.Load(d.Addr(rs1, off));
    var d1 := LbSpLoad(rs1, off, d);
    var d' := SraiSpOk(t, LoadedWordAt(b, d), b, d1);
    RunAppend([Sw(X0, SP, A), Lbu(SP, rs1, off), Sb(SP, SP, A + 3), Lw(SP, SP, A)],
      ShiftRight(t, SP, SP, Imm(24), true), d);
    var e := WordStored(b, d);
    StoredSame(b, d, d1);
    SameMemory(e, d');
    LbStores(b, d, t);
    if SeenKept(d, e, t) {
      ExtendedByte(d, e, t, b);
    }
    StackAgrees(d, d', ByteSigned(b), t);
  }

  lemma StoredSame(b: Byte, d: Data, d1: Data)
    requires 28 <= d.Get(SP) && d1.mem == ByteStored(b, d).mem
    ensures var e, f := WordStored(b, d), d1.StoreWord(Wrap(LoadedWordAt(b, d) + A), LoadedWordAt(b, d));
      f.mem == e.mem && forall q: Word :: f.LoadWord(q) == e.LoadWord(q)
  {
    hide LoadedWordAt, Data.LoadWord;
    SameStore(ByteStored(b, d), d1, Wrap(LoadedWordAt(b, d) + A), LoadedWordAt(b, d));
  }

  /** Agreement when only `sp`, the reserved registers and memory have changed. */
  lemma StackAgrees(d: Data, d': Data, v: Word, t: Layout)
    requires forall r: Reg :: r != SP && Free(r) ==> d'.Get(r) == d.Get(r)
    ensures Agree(d.Set(SP, v), d', d.Get(SP), t) <==> d'.Get(SP) == v && SeenKept(d, d', t)
  {
    var e := d.Set(SP, v);
    assert e.Get(SP) == v;
  }

  lemma SameStore(d: Data, d': Data, a: Word, v: Word)
    requires d'.mem == d.mem
    ensures d'.StoreWord(a, v).mem == d.StoreWord(a, v).mem
    ensures forall q: Word :: d'.StoreWord(a, v).LoadWord(q) == d.StoreWord(a, v).LoadWord(q)
  {
    hide ByteOf;
    assert d'.StoreWord(a, v).mem == d.StoreWord(a, v).mem;
    SameMemory(d.StoreWord(a, v), d'.StoreWord(a, v));
  }

  const A0: Reg := 10

  /** One placement of the tables, and one machine state with that placement. */
  const SAMPLE: Layout := Layout(0x2000, 0x1000, 0x1100, 0x1200, 0x1210, 0x1220, 0x10_0000)

  function SampleByte(a: Word): Byte
    requires a < 0x10_0000 + LUT_SIZE
  {
    if 0x1000 <= a < 0x1008 then SAME[a - 0x1000]
    else if 0x1100 <= a < 0x1200 then ZeroTable()[a - 0x1100]
    else if 0x1200 <= a < 0x1208 then SLT1[a - 0x1200]
    else if 0x1210 <= a < 0x1218 then SLTU1[a - 0x1210]
    else if 0x1220 <= a < 0x1224 then OR1[a - 0x1220]
    else if 0x10_0000 <= a then LutImage()[a - 0x10_0000]
    else if a == 0x4000 then 200
    else 0
  }

  ghost function Sample(): Data {
    Data(map[SP := 0x8000, S0 := 5, RA := 0x4000_0000, A0 := 0x4000],
      map a: Word | 0x1000 <= a < 0x10_0000 + LUT_SIZE :: SampleByte(a))
  }

  lemma SampleReady()
    ensures Ready(Sample(), SAMPLE)
  {
    hide LutImage, ZeroTable;
  }

  /** Inputs on which each of the four fails. */
  lemma DestinationsFail()
    ensures var d, t := Sample(), SAMPLE;
      && Ready(d, t)
      && !Agree(SrcExec(Src.Seqz(S0, X0), d), Run(Macros.Seqz(t, S0, X0), d), d.Get(SP), t)
      && !Agree(SrcExec(Src.Seqz(SP, X0), d), Run(Macros.Seqz(t, SP, X0), d), d.Get(SP), t)
      && !Agree(SrcExec(Src.Sltz(SP, RA), d), Run(Msb(SP, RA), d), d.Get(SP), t)
      && !Agree(SrcExec(Src.Lb(SP, A0, 0), d), Run(Macros.Lb(t, SP, A0, 0), d), d.Get(SP), t)
  {
    hide Run, Macros.Seqz, Msb, Macros.Lb, Agree, Ready, Sample, Popped, Harmless, LbHarmless, SrcExec, ByteOf,
      Data.Addr;
    SampleReady();
    SampleFacts();
    SeqzS0Exactly(SAMPLE, X0, Sample());
    SeqzSpExactly(SAMPLE, X0, Sample());
    SltzSpExactly(SAMPLE, RA, Sample());
    LbSpExactly(SAMPLE, A0, 0, Sample());
    SeqzSample();
    SltzSample();
    LbSample();
  }

  lemma SampleFacts()
    ensures var d := Sample();
      && d.Get(X0) == 0 && d.Get(SP) == 0x8000 && d.Get(S0) == 5 && d.Get(RA) == 0x4000_0000 && d.Get(A0) == 0x4000
      && d.Addr(A0, 0) == 0x4000 && d.Load(0x4000) == 200
      && forall a: Word :: a < 0x1000 || 0x10_0000 + LUT_SIZE <= a ==> d.Load(a) == 0
  {
    hide LutImage, ZeroTable;
  }

  lemma SeqzSample()
    ensures Popped(X0, Sample()) == 0
  {
    hide Sample, Popped;
    SampleFacts();
    PoppedZero(Sample());
  }

  lemma PoppedZero(d: Data)
    requires d.Get(X0) == 0 && d.Get(SP) == 0x8000 && d.Load(0) == 0
    requires d.Load(0xFFFF_FFFD) == 0 && d.Load(0xFFFF_FFFE) == 0 && d.Load(0xFFFF_FFFF) == 0
    ensures Popped(X0, d) == 0
  {
    hide Data.LoadWord, ByteOf, Data.Get;
    var d1 := SwOk(X0, A, d);
    var d2 := SwOk(S0, SAVE1, d1);
    ZeroWord(d2, 0xFFFF_FFFD);
  }

  lemma ZeroWord(d: Data, a: Word)
    requires d.Load(a) == 0 && d.Load(Wrap(a + 1)) == 0 && d.Load(Wrap(a + 2)) == 0 && d.Load(Wrap(a + 3)) == 0
    ensures d.LoadWord(a) == 0
  {
  }

  lemma SltzSample()
    ensures ByteOf(Sample().Get(RA), 3) == 0x40 && !Harmless(Sample(), SAMPLE, Wrap(2 * 0x40 + C), 2 * 0x40)
  {
    SampleFacts();
    var d := Sample();
    hide Sample;
    assert !Unseen(d, SAMPLE, 104) && Wrap(104 + 0) == 104 && ByteOf(128, 0) == 128;
  }

  lemma LbSample()
    ensures !LbHarmless(200, Sample(), SAMPLE)
  {
    hide Sample, LbHarmless;
    SampleFacts();
    LbHarm(Sample());
  }

  lemma LbHarm(d: Data)
    requires d.Get(SP) == 0x8000 && d.Load(184) == 0 && d.Load(185) == 0 && d.Load(186) == 0 && d.Load(187) == 0
    ensures !LbHarmless(200, d, SAMPLE)
  {
    hide Data.LoadWord, Harmless, Cleared, ByteOf;
    var e := ByteStored(200, d);
    assert e.Load(184) == 0 && e.Load(185) == 0 && e.Load(186) == 0 && e.Load(187) == 200 by {
      ClearedSeen(d, SAMPLE);
    }
    assert LoadedWordAt(200, d) == 0xC800_0000 by {
      WordLoaded(e, 184, 0, 0, 0, 200);
    }
    assert !Unseen(d, SAMPLE, 187) && !InWord(0xC800_0000 - 16, 187);
  }
}
