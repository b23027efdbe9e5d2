/** Whole programs: the lowered code, run by the base machine, simulates the source program. */
module Simulation {
  import opened Machine
  import opened Tables
  import opened Macros
  import opened Rv32i
  import opened Lowering
  import opened Environment
  import opened CompareMacros
  import opened BasicMacros
  import opened LoweringProof
  import opened Words
  import opened WordTypes

  // ---------------------------------------------------------------- the base machine

  /** A running base machine: data and program counter. */
  datatype State = State(pc: Word, d: Data)

  function ClearBit0(v: Word): (r: Word)
    ensures r % 2 == 0 && v - 1 <= r <= v
  {
    v - v % 2
  }

  /** One instruction at `s.pc`. */
  function Step(i: Base, s: State): State {
    match i
    case Jalr(rd, rs1, off) =>
      State(ClearBit0(s.d.Addr(rs1, off)), s.d.Set(rd, Wrap(s.pc + 4)))
    case _ => State(Wrap(s.pc + 4), Exec(i, s.d))
  }

  predicate InCode(code: seq<Base>, base: Word, pc: Word) {
    base <= pc && (pc - base) % 4 == 0 && (pc - base) / 4 < |code|
  }

  /** Fetch and execute; a program counter outside the code stops the machine. */
  function RunFor(code: seq<Base>, base: Word, s: State, n: nat): State
    decreases n
  {
    if n == 0 then s
    else if InCode(code, base, s.pc) then
      RunFor(code, base, Step(code[(s.pc - base) / 4], s), n - 1)
    else s
  }

  // ---------------------------------------------------------------- the lowered program

  /** The label an instruction names. */
  function Dest(i: Src): nat {
    match i
    case Jal(_, dest) => dest
    case Branch(_, _, _, dest) => dest
    case _ => 0
  }

  ghost predicate CoveredProgram(prog: seq<Src>) {
    && (forall k :: 0 <= k < |prog| ==> Covered(prog[k]))
    && (forall k :: 0 <= k < |prog| ==> Dest(prog[k]) <= |prog|)
  }

  /** The number of base instructions in an expansion does not depend on the addresses in it. */
  function Size(t: Layout, i: Src): nat
    requires Covered(i)
  {
    |Expand(t, i, 0, 0)|
  }

  lemma SizeFixed(t: Layout, i: Src, next: Word, target: Word)
    requires Covered(i)
    ensures |Expand(t, i, next, target)| == Size(t, i)
  {
  }

  /** Position of the expansion of `prog[k]`, in base instructions. */
  function Offset(t: Layout, prog: seq<Src>, k: nat): nat
    requires CoveredProgram(prog) && k <= |prog|
  {
    if k == 0 then 0 else Offset(t, prog, k - 1) + Size(t, prog[k - 1])
  }

  lemma {:induction false} OffsetMono(t: Layout, prog: seq<Src>, k: nat, m: nat)
    requires CoveredProgram(prog) && k <= m <= |prog|
    ensures Offset(t, prog, k) <= Offset(t, prog, m)
  {
    hide Covered, Size;
    if k < m {
      OffsetMono(t, prog, k, m - 1);
    }
  }

  /** The linked program fits below the top of the address space. */
  ghost predicate Fits(t: Layout, prog: seq<Src>, base: Word) {
    CoveredProgram(prog) && base % 4 == 0 && base + 4 * Offset(t, prog, |prog|) < W
  }

  /** The address of the code of `prog[k]`; labels stand for these addresses. */
  function AddrOf(t: Layout, prog: seq<Src>, base: Word, k: nat): Word
    requires Fits(t, prog, base) && k <= |prog|
  {
    OffsetMono(t, prog, k, |prog|);
    base + 4 * Offset(t, prog, k)
  }

  function ExpandAt(t: Layout, prog: seq<Src>, base: Word, k: nat): seq<Base>
    requires Fits(t, prog, base) && k < |prog|
  {
    Expand(t, prog[k], AddrOf(t, prog, base, k + 1), AddrOf(t, prog, base, Dest(prog[k])))
  }

  function Code(t: Layout, prog: seq<Src>, base: Word, k: nat): seq<Base>
    requires Fits(t, prog, base) && k <= |prog|
  {
    if k == 0 then [] else Code(t, prog, base, k - 1) + ExpandAt(t, prog, base, k - 1)
  }

  lemma {:induction false} CodeLength(t: Layout, prog: seq<Src>, base: Word, k: nat)
    requires Fits(t, prog, base) && k <= |prog|
    ensures |Code(t, prog, base, k)| == Offset(t, prog, k)
  {
    hide ExpandAt, Size, Covered;
    if k > 0 {
      CodeLength(t, prog, base, k - 1);
      ExpandAtSize(t, prog, base, k - 1);
    }
  }

  lemma ExpandAtSize(t: Layout, prog: seq<Src>, base: Word, k: nat)
    requires Fits(t, prog, base) && k < |prog|
    ensures |ExpandAt(t, prog, base, k)| == Size(t, prog[k])
  {
    SizeFixed(t, prog[k], AddrOf(t, prog, base, k + 1), AddrOf(t, prog, base, Dest(prog[k])));
    hide Size, Covered, AddrOf, Expand;
  }

  /** The expansion of `prog[k]` is found at its offset in the finished code. */
  lemma {:induction false} CodeAt(t: Layout, prog: seq<Src>, base: Word, k: nat, m: nat)
    requires Fits(t, prog, base) && k < m <= |prog|
    ensures Offset(t, prog, k) + |ExpandAt(t, prog, base, k)| == Offset(t, prog, k + 1) <= |Code(t, prog, base, m)|
    ensures Code(t, prog, base, m)[Offset(t, prog, k)..Offset(t, prog, k + 1)] == ExpandAt(t, prog, base, k)
  {
    hide Covered, Size, Expand;
    SizeFixed(t, prog[k], AddrOf(t, prog, base, k + 1), AddrOf(t, prog, base, Dest(prog[k])));
    CodeLength(t, prog, base, m);
    OffsetMono(t, prog, k + 1, m);
    CodeLength(t, prog, base, m - 1);
    Slices(Code(t, prog, base, m - 1), ExpandAt(t, prog, base, m - 1), Offset(t, prog, k), Offset(t, prog, k + 1));
    if k < m - 1 {
      CodeAt(t, prog, base, k, m - 1);
      OffsetMono(t, prog, k + 1, m - 1);
    }
  }

  lemma Slices<T>(a: seq<T>, b: seq<T>, i: nat, j: nat)
    requires i <= j <= |a| + |b|
    ensures j <= |a| ==> (a + b)[i..j] == a[i..j]
    ensures i == |a| && j == |a| + |b| ==> (a + b)[i..j] == b
  {
  }

  // ---------------------------------------------------------------- the source program

  /** A running source program: the index of the next instruction, and data. */
  datatype Source = Source(k: nat, d: Data)

  /** The first instruction whose code is at address `v`. */
  function IndexOf(t: Layout, prog: seq<Src>, base: Word, v: Word, k: nat): (r: nat)
    requires Fits(t, prog, base) && k <= |prog| + 1
    ensures r <= |prog| ==> AddrOf(t, prog, base, r) == v
    decreases |prog| + 1 - k
  {
    if k > |prog| then k
    else if AddrOf(t, prog, base, k) == v then k
    else IndexOf(t, prog, base, v, k + 1)
  }

  /** RV32I, with the code addresses of the linked program as the values of labels and links. */
  function SrcStep(t: Layout, prog: seq<Src>, base: Word, s: Source): Source
    requires Fits(t, prog, base) && s.k < |prog|
  {
    var i := prog[s.k];
    var link := AddrOf(t, prog, base, s.k + 1);
    if i.Jal? then Source(i.dest, s.d.Set(i.rd, link))
    else if i.Branch? then Source(if Taken(i.c, s.d.Get(i.rs1), s.d.Get(i.rs2)) then i.dest else s.k + 1, s.d)
    else if i.IsJump() then
      Source(IndexOf(t, prog, base, ClearBit0(s.d.Addr(i.i.rs1, i.i.off)), 0), s.d.Set(i.i.rd, link))
    else Source(s.k + 1, SrcExec(i, s.d))
  }

  function SrcRun(t: Layout, prog: seq<Src>, base: Word, s: Source, n: nat): Source
    requires Fits(t, prog, base)
    decreases n
  {
    if n == 0 || s.k >= |prog| then s else SrcRun(t, prog, base, SrcStep(t, prog, base, s), n - 1)
  }

  // ---------------------------------------------------------------- the run-time assumptions

  /** Base instructions and `jal` expand without using the scratch words. */
  predicate UsesScratch(i: Src) {
    !i.Plain? && !i.Jal?
  }

  function ScratchBytes(sp: Word, t: Layout): set<Word> {
    set a: Word | InScratch(sp, a) || InCheck(t, a)
  }

  /** The bytes whose contents the source program and the lowered program may disagree on:
      scratch words of any earlier `sp` that have not been written since. */
  function NextDirty(t: Layout, i: Src, d: Data, dirty: set<Word>): set<Word> {
    dirty - Writes(i, d) + if UsesScratch(i) then ScratchBytes(d.Get(SP), t) else {}
  }

  /** "Stack below sp is not used yet": a step reads no byte below `sp` and no byte that was below an
      earlier `sp` and has not been written since; it does not write to the read-only tables. */
  ghost predicate SafeStep(t: Layout, i: Src, d: Data, dirty: set<Word>) {
    && (UsesScratch(i) ==> StackOk(d.Get(SP), t))
    && (forall a :: a in Reads(i, d) ==> a !in dirty && (UsesScratch(i) ==> !InScratch(d.Get(SP), a)))
    && (forall a :: a in Writes(i, d) ==> !InTables(t, a))
  }

  ghost predicate SafeRun(t: Layout, prog: seq<Src>, base: Word, s: Source, dirty: set<Word>, n: nat)
    requires Fits(t, prog, base)
    decreases n
  {
    n > 0 ==>
      && s.k < |prog|
      && SafeStep(t, prog[s.k], s.d, dirty)
      && SafeRun(t, prog, base, SrcStep(t, prog, base, s), NextDirty(t, prog[s.k], s.d, dirty), n - 1)
  }

  function DirtyAfter(t: Layout, prog: seq<Src>, base: Word, s: Source, dirty: set<Word>, n: nat): set<Word>
    requires Fits(t, prog, base)
    decreases n
  {
    if n == 0 || s.k >= |prog| then dirty
    else DirtyAfter(t, prog, base, SrcStep(t, prog, base, s), NextDirty(t, prog[s.k], s.d, dirty), n - 1)
  }

  // ---------------------------------------------------------------- simulation

  /** Data agree except in `tp`, `gp` and the dirty bytes; the tables are intact. */
  ghost predicate SameData(t: Layout, d: Data, d': Data, dirty: set<Word>) {
    && (forall r: Reg :: Free(r) ==> d'.Get(r) == d.Get(r))
    && (forall a: Word :: a !in dirty ==> d'.Load(a) == d.Load(a))
    && TablesLoaded(d', t)
  }

  ghost predicate Sim(t: Layout, prog: seq<Src>, base: Word, s: Source, m: State, dirty: set<Word>)
    requires Fits(t, prog, base)
  {
    && SameData(t, s.d, m.d, dirty)
    && (s.k <= |prog| ==> m.pc == AddrOf(t, prog, base, s.k))
  }

  /** A straight-line stretch of the code runs to its end. */
  lemma {:induction false} Straight(code: seq<Base>, base: Word, s: State, k: nat, x: seq<Base>)
    requires NoJump(x) && k + |x| <= |code| && code[k..k + |x|] == x
    requires base + 4 * |code| < W && s.pc == base + 4 * k
    ensures RunFor(code, base, s, |x|) == State(base + 4 * (k + |x|), Run(x, s.d))
    decreases |x|
  {
    hide Exec;
    if x != [] {
      var s1 := Step(x[0], s);
      assert code[k] == x[0];
      assert code[k + 1..k + 1 + |x[1..]|] == x[1..];
      Straight(code, base, s1, k + 1, x[1..]);
    }
  }

  lemma {:induction false} RunForAdd(code: seq<Base>, base: Word, s: State, m: nat, n: nat)
    ensures RunFor(code, base, s, m + n) == RunFor(code, base, RunFor(code, base, s, m), n)
    decreases m
  {
    hide Step;
    if m > 0 && InCode(code, base, s.pc) {
      RunForAdd(code, base, Step(code[(s.pc - base) / 4], s), m - 1, n);
    }
  }

  /** The source instruction behaves alike on data that agree where it looks. */
  lemma SrcExecSame(t: Layout, i: Src, d: Data, d': Data, dirty: set<Word>)
    requires Covered(i) && !i.IsJump() && SameData(t, d, d', dirty)
    requires forall a :: a in Reads(i, d) ==> a !in dirty
    ensures Reads(i, d') == Reads(i, d) && Writes(i, d') == Writes(i, d)
    ensures forall r: Reg :: Free(r) ==> SrcExec(i, d').Get(r) == SrcExec(i, d).Get(r)
    ensures forall a: Word :: a !in dirty - Writes(i, d) ==> SrcExec(i, d').Load(a) == SrcExec(i, d).Load(a)
  {
    hide Alu, ShiftWord, BitOp32, TablesLoaded, ByteSigned, HalfSigned, HalfUnsigned;
    if i.Plain? {
      PlainSame(t, i.i, d, d', dirty);
    } else if i.Lb? || i.Lh? || i.Lhu? {
      LoadSame(t, i, d, d', dirty);
    } else if i.Sh? {
      ShSame(t, i, d, d', dirty);
    }
  }

  lemma LoadSame(t: Layout, i: Src, d: Data, d': Data, dirty: set<Word>)
    requires Covered(i) && (i.Lb? || i.Lh? || i.Lhu?) && SameData(t, d, d', dirty)
    requires forall a :: a in Reads(i, d) ==> a !in dirty
    ensures Reads(i, d') == Reads(i, d) && Writes(i, d') == Writes(i, d)
    ensures forall r: Reg :: Free(r) ==> SrcExec(i, d').Get(r) == SrcExec(i, d).Get(r)
    ensures forall a: Word :: a !in dirty - Writes(i, d) ==> SrcExec(i, d').Load(a) == SrcExec(i, d).Load(a)
  {
    LoadAddress(t, i, d, d', dirty);
    LoadValue(i, d, d');
  }

  lemma LoadAddress(t: Layout, i: Src, d: Data, d': Data, dirty: set<Word>)
    requires Covered(i) && (i.Lb? || i.Lh? || i.Lhu?) && SameData(t, d, d', dirty)
    requires forall a :: a in Reads(i, d) ==> a !in dirty
    ensures Free(i.rs1) && d'.Addr(i.rs1, i.off) == d.Addr(i.rs1, i.off)
    ensures forall a :: a in Reads(i, d) ==> d'.Load(a) == d.Load(a)
  {
    hide TablesLoaded, Data.Load, Reads;
  }

  /** A load gives the same value where the bytes that it reads are the same. */
  lemma LoadValue(i: Src, d: Data, d': Data)
    requires i.Lb? || i.Lh? || i.Lhu?
    requires d'.Addr(i.rs1, i.off) == d.Addr(i.rs1, i.off)
    requires forall a :: a in Reads(i, d) ==> d'.Load(a) == d.Load(a)
    ensures Reads(i, d') == Reads(i, d) && Writes(i, d') == Writes(i, d) == {}
    ensures exists v: Word :: SrcExec(i, d) == d.Set(i.rd, v) && SrcExec(i, d') == d'.Set(i.rd, v)
  {
    hide ByteSigned, HalfSigned, HalfUnsigned, Data.Addr, Data.Load, Data.Set, Wrap;
    var a: int := d.Addr(i.rs1, i.off);
    var v := if i.Lb? then ByteSigned(d.Load(a))
      else if i.Lh? then HalfSigned(d.Load(a), d.Load(Wrap(a + 1))) else HalfUnsigned(d.Load(a), d.Load(Wrap(a + 1)));
    assert a in Reads(i, d) && (!i.Lb? ==> Wrap(a + 1) in Reads(i, d));
    assert SrcExec(i, d) == d.Set(i.rd, v) && SrcExec(i, d') == d'.Set(i.rd, v);
  }

  lemma ShSame(t: Layout, i: Src, d: Data, d': Data, dirty: set<Word>)
    requires Covered(i) && i.Sh? && SameData(t, d, d', dirty)
    requires forall a :: a in Reads(i, d) ==> a !in dirty
    ensures Reads(i, d') == Reads(i, d) && Writes(i, d') == Writes(i, d)
    ensures forall r: Reg :: Free(r) ==> SrcExec(i, d').Get(r) == SrcExec(i, d).Get(r)
    ensures forall a: Word :: a !in dirty - Writes(i, d) ==> SrcExec(i, d').Load(a) == SrcExec(i, d).Load(a)
  {
    assert d'.Addr(i.rs1, i.off) == d.Addr(i.rs1, i.off) && d'.Get(i.rs2) == d.Get(i.rs2);
    hide TablesLoaded, ByteOf, Data.Addr, Wrap, Covered;
  }

  lemma PlainSame(t: Layout, b: Base, d: Data, d': Data, dirty: set<Word>)
    requires Covered(Plain(b)) && !b.Jalr? && SameData(t, d, d', dirty)
    requires forall a :: a in Reads(Plain(b), d) ==> a !in dirty
    ensures Reads(Plain(b), d') == Reads(Plain(b), d) && Writes(Plain(b), d') == Writes(Plain(b), d)
    ensures forall r: Reg :: Free(r) ==> Exec(b, d').Get(r) == Exec(b, d).Get(r)
    ensures forall a: Word :: a !in dirty - Writes(Plain(b), d) ==> Exec(b, d').Load(a) == Exec(b, d).Load(a)
  {
    hide TablesLoaded, WordOf, ByteOf;
    match b
    case Lw(_, rs1, off) => assert d'.Addr(rs1, off) == d.Addr(rs1, off);
    case Lbu(_, rs1, off) => assert d'.Addr(rs1, off) == d.Addr(rs1, off);
    case Sw(_, rs1, off) => assert d'.Addr(rs1, off) == d.Addr(rs1, off);
    case Sb(_, rs1, off) => assert d'.Addr(rs1, off) == d.Addr(rs1, off);
    case _ =>
  }

  /** Bytes an instruction does not write keep their value. */
  lemma WritesOnly(i: Src, d: Data)
    requires !i.IsJump() && (i.ShiftImm? ==> i.n < 32)
    ensures forall a: Word :: a !in Writes(i, d) ==> SrcExec(i, d).Load(a) == d.Load(a)
  {
    hide Alu, ShiftWord, BitOp32, ByteOf;
  }

  lemma TablesKept(t: Layout, d: Data, d': Data)
    requires TablesLoaded(d, t)
    requires forall a: Word :: InTables(t, a) ==> d'.Load(a) == d.Load(a)
    ensures TablesLoaded(d', t)
  {
    hide LutImage, ZeroTable;
  }

  /** After an expansion without a jump, the data still agree outside the new dirty bytes. */
  lemma BodySim(t: Layout, i: Src, next: Word, target: Word, d: Data, m: Data, dirty: set<Word>)
    requires GoodLayout(t) && Covered(i) && !i.IsJump()
    requires SameData(t, d, m, dirty) && SafeStep(t, i, d, dirty)
    ensures SameData(t, SrcExec(i, d), Run(Body(t, i, next, target), m), NextDirty(t, i, d, dirty))
  {
    hide SrcExec, Body, Run, TablesLoaded, Reads, Writes;
    SrcExecSame(t, i, d, m, dirty);
    WritesOnly(i, m);
    BodyOk(t, i, next, target, m);
    if i.Plain? {
      PlainBody(t, i, next, target, m);
    }
    TablesKept(t, m, Run(Body(t, i, next, target), m));
  }

  lemma PlainBody(t: Layout, i: Src, next: Word, target: Word, m: Data)
    requires i.Plain? && !i.IsJump() && Covered(i)
    ensures Run(Body(t, i, next, target), m) == SrcExec(i, m)
  {
    Run1(i.i, m);
  }

  /** The whole lowered program. */
  function Linked(t: Layout, prog: seq<Src>, base: Word): seq<Base>
    requires Fits(t, prog, base)
  {
    Code(t, prog, base, |prog|)
  }

  function BodyAt(t: Layout, prog: seq<Src>, base: Word, k: nat): (code: seq<Base>)
    requires Fits(t, prog, base) && k < |prog|
    ensures NoJump(code)
  {
    hide Body, NoJump, AddrOf, Covered, Size, Offset;
    Body(t, prog[k], AddrOf(t, prog, base, k + 1), AddrOf(t, prog, base, Dest(prog[k])))
  }

  /** Running the straight-line part of an expansion. */
  lemma RunBody(t: Layout, prog: seq<Src>, base: Word, k: nat, m: State)
    requires Fits(t, prog, base) && k < |prog| && m.pc == AddrOf(t, prog, base, k)
    ensures var code, x := Linked(t, prog, base), BodyAt(t, prog, base, k);
      && base + 4 * (Offset(t, prog, k) + |x|) < W
      && RunFor(code, base, m, |x|) == State(base + 4 * (Offset(t, prog, k) + |x|), Run(x, m.d))
      && Offset(t, prog, k) + |x| + |Jump(prog[k])| == Offset(t, prog, k + 1) <= |code|
      && code[Offset(t, prog, k) + |x|..Offset(t, prog, k + 1)] == Jump(prog[k])
  {
    hide Body, Jump, Run, Covered, RunFor, Size;
    var code, x := Linked(t, prog, base), BodyAt(t, prog, base, k);
    var o := Offset(t, prog, k);
    CodeAt(t, prog, base, k, |prog|);
    CodeLength(t, prog, base, |prog|);
    var e := ExpandAt(t, prog, base, k);
    assert e == x + Jump(prog[k]);
    assert code == Code(t, prog, base, |prog|) && m.pc == base + 4 * o;
    assert base + 4 * |code| < W;
    hide *;
    TwoParts(code, o, x, Jump(prog[k]));
    Straight(code, base, m, o, x);
  }

  lemma TwoParts<T>(code: seq<T>, o: nat, x: seq<T>, y: seq<T>)
    requires o + |x| + |y| <= |code| && code[o..o + |x| + |y|] == x + y
    ensures code[o..o + |x|] == x && code[o + |x|..o + |x| + |y|] == y
  {
    assert code[o..o + |x| + |y|][..|x|] == x && code[o..o + |x| + |y|][|x|..] == y;
  }

  /** Running an expansion that ends in a jump. */
  lemma RunJump(t: Layout, prog: seq<Src>, base: Word, k: nat, j: Base, m: State)
    requires Fits(t, prog, base) && k < |prog| && m.pc == AddrOf(t, prog, base, k) && Jump(prog[k]) == [j] && j.Jalr?
    ensures var x := BodyAt(t, prog, base, k); var d := Run(x, m.d);
      RunFor(Linked(t, prog, base), base, m, |x| + 1)
      == State(ClearBit0(d.Addr(j.rs1, j.off)), d.Set(j.rd, AddrOf(t, prog, base, k + 1)))
  {
    hide Body, Jump, Run, RunFor, Covered, Size, BodyAt, Linked, Offset, Exec, CoveredProgram;
    var code, x := Linked(t, prog, base), BodyAt(t, prog, base, k);
    var o := Offset(t, prog, k) + |x|;
    RunBody(t, prog, base, k, m);
    assert code[o] == code[o..o + 1][0] == j;
    var m1 := RunFor(code, base, m, |x|);
    RunForAdd(code, base, m, |x|, 1);
    OneStep(code, base, m1, o);
    OffsetMono(t, prog, k + 1, |prog|);
  }

  lemma OneStep(code: seq<Base>, base: Word, m: State, o: nat)
    requires o < |code| && m.pc == base + 4 * o
    ensures RunFor(code, base, m, 1) == Step(code[o], m)
  {
    hide Step;
    assert RunFor(code, base, Step(code[o], m), 0) == Step(code[o], m);
  }

  lemma AddrEven(t: Layout, prog: seq<Src>, base: Word, k: nat)
    requires Fits(t, prog, base) && k <= |prog|
    ensures ClearBit0(AddrOf(t, prog, base, k)) == AddrOf(t, prog, base, k)
    ensures Wrap(AddrOf(t, prog, base, k) + 0) == AddrOf(t, prog, base, k)
  {
    hide Offset, CoveredProgram;
    FourTimes(base, Offset(t, prog, k));
  }

  lemma FourTimes(b: nat, o: nat)
    requires b % 4 == 0
    ensures (b + 4 * o) % 2 == 0
  {
    var q := b / 4;
    assert b + 4 * o == 2 * (2 * q + 2 * o);
  }

  /** One source step is matched by some number of base-machine steps. */
  lemma StepSim(t: Layout, prog: seq<Src>, base: Word, s: Source, m: State, dirty: set<Word>) returns (n: nat)
    requires GoodLayout(t) && Fits(t, prog, base) && s.k < |prog|
    requires Sim(t, prog, base, s, m, dirty) && SafeStep(t, prog[s.k], s.d, dirty)
    ensures Sim(t, prog, base, SrcStep(t, prog, base, s), RunFor(Linked(t, prog, base), base, m, n),
                NextDirty(t, prog[s.k], s.d, dirty))
  {
    hide Sim, SafeStep, NextDirty, RunFor, Linked, GoodLayout, BodyAt, Jump, SrcStep, Offset, Size, Covered;
    var i := prog[s.k];
    n := |BodyAt(t, prog, base, s.k)| + |Jump(i)|;
    if !i.IsJump() {
      StraightSim(t, prog, base, s, m, dirty);
    } else if i.Jal? {
      JalSim(t, prog, base, s, m, dirty);
    } else if i.Branch? {
      BranchSim(t, prog, base, s, m, dirty);
    } else {
      JalrSim(t, prog, base, s, m, dirty);
    }
  }

  lemma StraightSim(t: Layout, prog: seq<Src>, base: Word, s: Source, m: State, dirty: set<Word>)
    requires GoodLayout(t) && Fits(t, prog, base) && s.k < |prog| && !prog[s.k].IsJump()
    requires Sim(t, prog, base, s, m, dirty) && SafeStep(t, prog[s.k], s.d, dirty)
    ensures Jump(prog[s.k]) == []
    ensures Sim(t, prog, base, SrcStep(t, prog, base, s),
                RunFor(Linked(t, prog, base), base, m, |BodyAt(t, prog, base, s.k)|),
                  NextDirty(t, prog[s.k], s.d, dirty))
  {
    hide Body, Run, Covered, Size, SrcExec, RunFor, Linked, SameData, SafeStep, NextDirty;
    var i := prog[s.k];
    RunBody(t, prog, base, s.k, m);
    BodySim(t, i, AddrOf(t, prog, base, s.k + 1), AddrOf(t, prog, base, Dest(i)), s.d, m.d, dirty);
  }

  lemma JalrSim(t: Layout, prog: seq<Src>, base: Word, s: Source, m: State, dirty: set<Word>)
    requires GoodLayout(t) && Fits(t, prog, base) && s.k < |prog|
    requires prog[s.k].Plain? && prog[s.k].i.Jalr?
    requires Sim(t, prog, base, s, m, dirty)
    ensures Sim(t, prog, base, SrcStep(t, prog, base, s),
                RunFor(Linked(t, prog, base), base, m, |BodyAt(t, prog, base, s.k)| + |Jump(prog[s.k])|),
                NextDirty(t, prog[s.k], s.d, dirty))
  {
    hide Size, RunFor, Linked, IndexOf, Offset, TablesLoaded, LutImage;
    var i := prog[s.k];
    assert Covered(i);
    RunJump(t, prog, base, s.k, i.i, m);
    LinkSame(t, s.d, m.d, i.i.rd, AddrOf(t, prog, base, s.k + 1), dirty);
    assert NextDirty(t, i, s.d, dirty) == dirty;
  }

  lemma LinkSame(t: Layout, d: Data, d': Data, rd: Reg, v: Word, dirty: set<Word>)
    requires SameData(t, d, d', dirty)
    ensures SameData(t, d.Set(rd, v), d'.Set(rd, v), dirty)
  {
    hide TablesLoaded, LutImage;
    TablesKept(t, d', d'.Set(rd, v));
  }

  lemma JalSim(t: Layout, prog: seq<Src>, base: Word, s: Source, m: State, dirty: set<Word>)
    requires GoodLayout(t) && Fits(t, prog, base) && s.k < |prog| && prog[s.k].Jal?
    requires Sim(t, prog, base, s, m, dirty)
    ensures Sim(t, prog, base, SrcStep(t, prog, base, s),
                RunFor(Linked(t, prog, base), base, m, |BodyAt(t, prog, base, s.k)| + |Jump(prog[s.k])|),
                NextDirty(t, prog[s.k], s.d, dirty))
  {
    hide Size, RunFor, Run, Linked, Offset, La, TablesLoaded;
    var i := prog[s.k];
    var link, target := AddrOf(t, prog, base, s.k + 1), AddrOf(t, prog, base, i.dest);
    var r := if i.rd == X0 then TP else i.rd;
    assert Covered(i);
    assert Dest(i) == i.dest;
    AddrEven(t, prog, base, i.dest);
    var d1 := LaOk(r, target, m.d);
    TablesKept(t, m.d, d1);
    RunJump(t, prog, base, s.k, Jalr(r, r, 0), m);
    LinkSame(t, s.d, m.d, i.rd, link, dirty);
    TablesKept(t, d1, d1.Set(r, link));
  }

  lemma BranchSim(t: Layout, prog: seq<Src>, base: Word, s: Source, m: State, dirty: set<Word>)
    requires GoodLayout(t) && Fits(t, prog, base) && s.k < |prog| && prog[s.k].Branch?
    requires Sim(t, prog, base, s, m, dirty) && SafeStep(t, prog[s.k], s.d, dirty)
    ensures Sim(t, prog, base, SrcStep(t, prog, base, s),
                RunFor(Linked(t, prog, base), base, m, |BodyAt(t, prog, base, s.k)| + |Jump(prog[s.k])|),
                NextDirty(t, prog[s.k], s.d, dirty))
  {
    hide Size, RunFor, Run, Linked, Offset, LowerCond, Resolve, OneIsTaken, Taken, TablesLoaded;
    var i := prog[s.k];
    var next, target := AddrOf(t, prog, base, s.k + 1), AddrOf(t, prog, base, i.dest);
    assert Covered(i);
    assert Dest(i) == i.dest;
    AddrEven(t, prog, base, i.dest);
    AddrEven(t, prog, base, s.k + 1);
    BranchOk(t, i.c, i.rs1, i.rs2, next, target, m.d);
    var d1 := Run(BodyAt(t, prog, base, s.k), m.d);
    TablesKept(t, m.d, d1);
    RunJump(t, prog, base, s.k, Jalr(X0, TP, 0), m);
    TablesKept(t, d1, d1.Set(X0, next));
  }

  /** Lowering preserves meaning: every safe run of the source program, of any length, is matched by a run
      of the lowered code that ends at the corresponding address with the same registers (except `tp` and
      `gp`) and the same memory (except bytes the source program may not rely on). */
  lemma {:induction false} LoweringSimulates(t: Layout, prog: seq<Src>, base: Word, s: Source, m: State,
    dirty: set<Word>, n: nat)
    returns (steps: nat)
    requires GoodLayout(t) && Fits(t, prog, base)
    requires Sim(t, prog, base, s, m, dirty) && SafeRun(t, prog, base, s, dirty, n)
    ensures Sim(t, prog, base, SrcRun(t, prog, base, s, n), RunFor(Linked(t, prog, base), base, m, steps),
                DirtyAfter(t, prog, base, s, dirty, n))
    decreases n
  {
    hide Sim, SrcStep, SafeStep, NextDirty, RunFor, Linked, GoodLayout, Fits;
    if n == 0 {
      steps := 0;
      NoSteps(Linked(t, prog, base), base, m);
    } else {
      var first := StepSim(t, prog, base, s, m, dirty);
      var m1 := RunFor(Linked(t, prog, base), base, m, first);
      var rest := LoweringSimulates(t, prog, base, SrcStep(t, prog, base, s), m1,
        NextDirty(t, prog[s.k], s.d, dirty), n - 1);
      steps := first + rest;
      RunForAdd(Linked(t, prog, base), base, m, first, rest);
    }
  }

  lemma NoSteps(code: seq<Base>, base: Word, m: State)
    ensures RunFor(code, base, m, 0) == m
  {
  }
}
