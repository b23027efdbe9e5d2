/** What the tables mean: translations, the kernel's share of every address space, and growth of a tree. */
module AddressSpaces {
  import opened Bits
  import opened Mmu
  import opened Options
  import opened PageTables
  import opened Subtrees

  /** A page of one of the kernel's areas, as the loop of `vme_init` meets it. */
  ghost predicate KernelPage(c: Config, addr: nat) {
    exists i: nat, k: nat :: KernelVisit(c, i, k) && addr == Visited(c, c.areas[i], PGSIZE, k)
  }

  ghost predicate KernelVisit(c: Config, i: nat, k: nat) {
    i < |c.areas| && c.areas[i].kernel && k < Steps(c, c.areas[i], PGSIZE)
  }

  /** What the constants of the configuration have to satisfy. */
  ghost predicate Layout(c: Config) {
    && Geometry(c)
    && c.width >= 16
    && (forall i :: 1 <= i <= c.levels ==> c.Size(i) == PGSIZE / (c.width / 8))
    && |c.areas| > 0 && !c.areas[0].kernel
    && (forall va: nat :: c.InUser(va) ==> va < Pow2(c.shift[1] + c.bits[1]) && !KernelIndex(c, IndexOf(c, va, 1)))
    && (forall i :: 0 <= i < |c.areas| && c.areas[i].kernel ==> WholeSteps(c, c.areas[i]))
    && (exists addr: nat :: KernelPage(c, addr))
    && (forall addr: nat :: KernelPage(c, addr) ==> IsPage(c, addr) && KernelIndex(c, IndexOf(c, addr, 1)))
  }

  /** The area's loops, by pages and by level-1 entries, end exactly at its end. */
  ghost predicate WholeSteps(c: Config, area: Area)
    requires Geometry(c)
  {
    && area.start < Pow2(c.width) && area.end < Pow2(c.width)
    && (area.end - area.start) % Pow2(c.width) == Steps(c, area, PGSIZE) * PGSIZE
    && (area.end - area.start) % Pow2(c.width) == Steps(c, area, Pow2(c.shift[1])) * Pow2(c.shift[1])
  }

  /** A page, and whether a program may write it and whether it may use it in user mode. */
  datatype Mapping = Mapping(page: nat, writable: bool, user: bool)

  /** What an entry says by itself. */
  ghost function Decode(c: Config, e: nat): Option<Mapping>
    requires c.width >= 12
  {
    if Present(c, e) then Some(Mapping(BaseOf(c, e), Writable(c, e), UserBit(c, e))) else None
  }

  /** What the last-level entry of `addr` says, whatever the entries above it allow. */
  ghost function LastEntry(c: Config, s: Trees, a: nat, addr: nat): Option<Mapping>
    requires Geometry(c)
  {
    Decode(c, Entry(c, s.mem, a, 0, addr))
  }

  /** The address spaces that have been set up and not torn down. */
  ghost predicate Live(s: Trees, a: nat) {
    a in s.owner && s.owner[a].path == [] && a != s.kernel
  }

  ghost predicate SlotsReady(c: Config, s: Trees)
    requires Geometry(c)
  {
    forall a :: Live(s, a) ==> a in s.mem && |s.mem[a]| == 1 && Present(c, s.mem[a][0])
  }

  /** The kernel's tree maps the kernel's pages to themselves and nothing else. */
  ghost predicate KernelMapped(c: Config, s: Trees)
    requires Geometry(c)
  {
    forall addr: nat :: IsPage(c, addr) ==>
      Entry(c, s.mem, s.kernel, 0, addr) == if KernelPage(c, addr) then addr + PTE_P + PTE_W else 0
  }

  /** A tree's pages in use. */
  ghost function Owned(s: Trees): set<nat> {
    set t | t in s.owner && s.owner[t].path != []
  }

  ghost predicate SameEntries(c: Config, s: Trees, s': Trees)
    requires Geometry(c)
  {
    forall u: nat, addr: nat :: u in s.owner && s.owner[u].path == [] ==>
      Entry(c, s'.mem, u, 0, addr) == Entry(c, s.mem, u, 0, addr)
  }

  /** The tables of `s` are in `s'` too, unchanged but for the tree of `a`, which may have new ones. */
  ghost predicate SameOwners(s: Trees, s': Trees, a: nat) {
    && s'.kernel == s.kernel && s'.kpt == s.kpt
    && (forall u :: u in s.owner ==> u in s'.owner && s'.owner[u] == s.owner[u])
    && (forall u :: u in s'.owner && u !in s.owner ==> s'.owner[u].root == a && s'.owner[u].path != [])
    && (forall u :: u in s.owner && u in s.mem && (s.owner[u].root != a || (u == a && a != s.kernel)) ==>
          u in s'.mem && s'.mem[u] == s.mem[u])
  }

  /** From `s` to `s'` the tree of `a` got new, empty tables; nothing is translated differently. */
  ghost predicate Grew(c: Config, s: Trees, s': Trees, a: nat)
    requires Geometry(c)
  {
    SameOwners(s, s', a) && SameEntries(c, s, s')
  }

  lemma GrewRefl(c: Config, s: Trees, a: nat)
    requires Geometry(c)
    ensures Grew(c, s, s, a)
  {
    hide Entry;
  }

  lemma GrewTrans(c: Config, s0: Trees, s1: Trees, s2: Trees, a: nat)
    requires Geometry(c) && Grew(c, s0, s1, a) && Grew(c, s1, s2, a)
    ensures Grew(c, s0, s2, a)
  {
    hide Entry;
    forall u: nat, addr: nat | u in s0.owner && s0.owner[u].path == []
      ensures Entry(c, s2.mem, u, 0, addr) == Entry(c, s0.mem, u, 0, addr)
    {
      assert Entry(c, s1.mem, u, 0, addr) == Entry(c, s0.mem, u, 0, addr);
    }
  }

  lemma LinkGrew(c: Config, s: Trees, t0: nat, j: nat, page: nat, e: nat)
    requires Geometry(c) && WellFormed(c, s) && Linkable(c, s, t0, j, page, e)
    ensures Grew(c, s, Linked(c, s, t0, j, page, e), s.owner[t0].root)
    ensures WellFormed(c, Linked(c, s, t0, j, page, e))
  {
    LinkKeeps(c, s, t0, j, page, e);
    LinkSame(c, s, t0, j, page, e);
    ShapeAt(c, s, t0);
    hide WellFormed;
    LinkOwners(c, s, t0, j, page, e);
    hide *;
    GrewFrom(c, s, Linked(c, s, t0, j, page, e), s.owner[t0].root);
  }

  lemma LinkOwners(c: Config, s: Trees, t0: nat, j: nat, page: nat, e: nat)
    requires Geometry(c) && Linkable(c, s, t0, j, page, e) && Shape(c, s, t0)
    ensures SameOwners(s, Linked(c, s, t0, j, page, e), s.owner[t0].root)
  {
    hide KernelIndex, Present, BaseOf, UserBit, Writable, Zeros, Pow2;
  }

  lemma GrewFrom(c: Config, s: Trees, s': Trees, a: nat)
    requires Geometry(c) && SameOwners(s, s', a) && SameEntries(c, s, s')
    ensures Grew(c, s, s', a)
  {
  }

  lemma LinkSame(c: Config, s: Trees, t0: nat, j: nat, page: nat, e: nat)
    requires Geometry(c) && WellFormed(c, s) && Linkable(c, s, t0, j, page, e)
    ensures SameEntries(c, s, Linked(c, s, t0, j, page, e))
  {
    hide WellFormed, Entry, KernelIndex, Present, BaseOf, UserBit, Writable, Zeros, Linkable, Linked;
    forall u: nat, addr: nat | u in s.owner && s.owner[u].path == []
      ensures Entry(c, Linked(c, s, t0, j, page, e).mem, u, 0, addr) == Entry(c, s.mem, u, 0, addr)
    {
      assert OnWay(c, s, u, 0, addr);
      LinkEntry(c, s, t0, j, page, e, u, 0, addr);
    }
  }

  /** A walk may start from the kernel's slot before there is any address space, or from an address space's slot. */
  ghost predicate MayWalk(c: Config, s: Trees, a: nat, addr: nat)
    requires Geometry(c)
  {
    && a in s.owner && s.owner[a].path == [] && addr < Pow2(c.width)
    && (a == s.kernel ==> forall t :: t in s.owner ==> s.owner[t].root == s.kernel)
    && (a != s.kernel ==> !KernelIndex(c, IndexOf(c, addr, 1)))
  }

  /** The table of `a`'s own tree that a walk is at before level `i`. */
  ghost predicate Walking(c: Config, s: Trees, a: nat, addr: nat, i: nat, cur: nat)
    requires Geometry(c)
  {
    && OnWay(c, s, cur, i, addr) && s.owner[cur].root == a
    && cur in s.mem && IndexOf(c, addr, i) < |s.mem[cur]|
  }

  lemma WalkingInit(c: Config, s: Trees, a: nat, addr: nat)
    requires Geometry(c) && WellFormed(c, s) && MayWalk(c, s, a, addr)
    ensures Walking(c, s, a, addr, 0, a)
  {
    ShapeAt(c, s, a);
    IndexZero(c, addr);
  }

  /** Every table on the way is where a walk from the slot gets to. */
  lemma {:induction false} Climb(c: Config, s: Trees, a: nat, addr: nat, i: nat, cur: nat)
    requires Geometry(c) && WellFormed(c, s) && OnWay(c, s, cur, i, addr) && s.owner[cur].root == a
    ensures Leaf(c, s.mem, a, 0, addr) == Leaf(c, s.mem, cur, i, addr)
    decreases i
  {
    ShapeAt(c, s, cur);
    if i > 0 {
      ParentAt(c, s, cur);
      var p := s.owner[cur].parent;
      assert Path(c, addr, i) == Path(c, addr, i - 1) + [IndexOf(c, addr, i - 1)];
      assert Path(c, addr, i)[..i - 1] == Path(c, addr, i - 1);
      EntryStep(c, s.mem, p, i - 1, addr);
      hide WellFormed, KernelIndex, Present, BaseOf, UserBit, Writable, Entry, Leaf, Geometry, IndexOf, Pow2;
      Climb(c, s, a, addr, i - 1, p);
    }
  }

  /** The next table, where the entry is present. */
  lemma WalkingStep(c: Config, s: Trees, a: nat, addr: nat, i: nat, cur: nat)
    requires Geometry(c) && WellFormed(c, s) && MayWalk(c, s, a, addr) && Walking(c, s, a, addr, i, cur) && i < c.levels
    requires Present(c, s.mem[cur][IndexOf(c, addr, i)])
    ensures Walking(c, s, a, addr, i + 1, BaseOf(c, s.mem[cur][IndexOf(c, addr, i)]))
  {
    hide WellFormed, KernelIndex, Present, BaseOf, UserBit, Writable, IndexOf, Pow2, Shape;
    var b := StepDown(c, s, a, addr, i, cur);
    InRow(c, s, b, i + 1, addr);
  }

  lemma StepDown(c: Config, s: Trees, a: nat, addr: nat, i: nat, cur: nat) returns (b: nat)
    requires Geometry(c) && WellFormed(c, s) && MayWalk(c, s, a, addr) && Walking(c, s, a, addr, i, cur) && i < c.levels
    requires Present(c, s.mem[cur][IndexOf(c, addr, i)])
    ensures b == BaseOf(c, s.mem[cur][IndexOf(c, addr, i)])
    ensures OnWay(c, s, b, i + 1, addr) && s.owner[b].root == a
  {
    hide WellFormed, KernelIndex, Present, BaseOf, UserBit, Writable, IndexOf, Pow2;
    b := Follow(c, s, cur, IndexOf(c, addr, i));
    assert Path(c, addr, i + 1) == Path(c, addr, i) + [IndexOf(c, addr, i)];
  }

  lemma InRow(c: Config, s: Trees, t: nat, i: nat, addr: nat)
    requires Geometry(c) && WellFormed(c, s) && OnWay(c, s, t, i, addr) && addr < Pow2(c.width)
    ensures t in s.mem && IndexOf(c, addr, i) < |s.mem[t]|
  {
    ShapeAt(c, s, t);
    IndexBound(c, addr, i);
    hide WellFormed, KernelIndex, IndexOf, Pow2;
  }

  /** The next table, freshly linked, where it is not. */
  lemma WalkingLink(c: Config, s: Trees, a: nat, addr: nat, i: nat, cur: nat, page: nat, e: nat)
    requires Geometry(c) && WellFormed(c, s) && MayWalk(c, s, a, addr) && Walking(c, s, a, addr, i, cur) && i < c.levels
    requires Linkable(c, s, cur, IndexOf(c, addr, i), page, e)
    ensures var s' := Linked(c, s, cur, IndexOf(c, addr, i), page, e);
      && WellFormed(c, s') && Grew(c, s, s', a) && MayWalk(c, s', a, addr) && Walking(c, s', a, addr, i, cur)
      && Present(c, s'.mem[cur][IndexOf(c, addr, i)]) && BaseOf(c, s'.mem[cur][IndexOf(c, addr, i)]) == page
    ensures Leaf(c, s.mem, a, 0, addr) == None
  {
    var k := IndexOf(c, addr, i);
    LinkGrew(c, s, cur, k, page, e);
    LinkRow(c, s, cur, k, page, e, cur, k);
    Climb(c, s, a, addr, i, cur);
    EntryStep(c, s.mem, cur, i, addr);
    hide WellFormed, KernelIndex, Present, BaseOf, UserBit, Writable, IndexOf, Pow2, Entry, Leaf, Zeros, Grew;
  }

  /** The pages that can be allocated are in no table and not in use. */
  ghost predicate PoolFits(c: Config, s: Trees, pool: set<nat>) {
    forall p :: p in pool ==> 0 < p < Pow2(c.width) && p % PGSIZE == 0 && p !in s.mem && p !in s.owner
  }

  ghost predicate Sound(c: Config, s: Trees, pool: set<nat>) {
    Layout(c) && WellFormed(c, s) && SlotsReady(c, s) && PoolFits(c, s, pool)
  }

  lemma StartWalk(c: Config, s: Trees, pool: set<nat>, a: nat, addr: nat)
    requires Sound(c, s, pool) && MayWalk(c, s, a, addr)
    ensures Geometry(c) && PoolFits(c, s, pool)
    ensures Walking(c, s, a, addr, 0, a) && Grew(c, s, s, a)
  {
    WalkingInit(c, s, a, addr);
    GrewRefl(c, s, a);
  }

  lemma AtTable(c: Config, s: Trees, pool: set<nat>, a: nat, addr: nat, i: nat, cur: nat)
    requires Sound(c, s, pool) && MayWalk(c, s, a, addr) && Walking(c, s, a, addr, i, cur)
    ensures Geometry(c) && PoolFits(c, s, pool) && WellFormed(c, s)
    ensures |c.mask| == |c.shift| == c.levels + 1 && c.width >= 12
    ensures cur in s.owner && cur in s.mem && IndexOf(c, addr, i) < |s.mem[cur]|
    ensures i == c.levels ==> Leaf(c, s.mem, a, 0, addr) == Some(cur)
  {
    Climb(c, s, a, addr, i, cur);
  }

  /** All tables on the way of `addr` exist. */
  ghost predicate Complete(c: Config, mem: Memory, a: nat, addr: nat)
    requires Geometry(c)
  {
    Leaf(c, mem, a, 0, addr).Some?
  }

  /** How many tables on the way of `addr` below `t` do not exist. */
  ghost function Absent(c: Config, mem: Memory, t: nat, i: nat, addr: nat): nat
    requires Geometry(c)
    decreases c.levels - i
  {
    if i >= c.levels then 0
    else if t in mem && IndexOf(c, addr, i) < |mem[t]| && Present(c, mem[t][IndexOf(c, addr, i)]) then
      Absent(c, mem, BaseOf(c, mem[t][IndexOf(c, addr, i)]), i + 1, addr)
    else c.levels - i
  }

  /** One level of the walk, by a present entry or into a fresh table. */
  lemma AbsentStep(c: Config, mem: Memory, t: nat, i: nat, addr: nat)
    requires Geometry(c) && i < c.levels && t in mem && IndexOf(c, addr, i) < |mem[t]|
    ensures var e := mem[t][IndexOf(c, addr, i)];
      Absent(c, mem, t, i, addr) == if Present(c, e) then Absent(c, mem, BaseOf(c, e), i + 1, addr) else c.levels - i
  {
    hide Geometry, Present, BaseOf, IndexOf;
  }

  lemma NoneAbsent(c: Config, mem: Memory, t: nat, i: nat, addr: nat)
    requires Geometry(c) && i == c.levels
    ensures Absent(c, mem, t, i, addr) == 0
  {
  }

  lemma AbsentFresh(c: Config, mem: Memory, t: nat, i: nat, addr: nat, n: nat)
    requires Geometry(c) && i <= c.levels && t in mem && mem[t] == Zeros(n)
    ensures Absent(c, mem, t, i, addr) == c.levels - i
  {
    ZeroEntry(c);
    hide Geometry, Present, BaseOf, IndexOf;
  }

  lemma Missing(c: Config, s: Trees, a: nat, addr: nat, i: nat, cur: nat)
    requires Geometry(c) && WellFormed(c, s) && Walking(c, s, a, addr, i, cur) && i < c.levels
    requires !Present(c, s.mem[cur][IndexOf(c, addr, i)])
    ensures !Complete(c, s.mem, a, addr)
    ensures cur in s.owner && s.owner[cur].root == a
  {
    Climb(c, s, a, addr, i, cur);
    EntryStep(c, s.mem, cur, i, addr);
  }

  /** The entry that the walk writes for a fresh page. */
  lemma TablePte(c: Config, page: nat, flags: nat)
    requires c.width >= 13 && page % PGSIZE == 0 && page < Pow2(c.width) && (flags == PTE_W || flags == PTE_W + PTE_U)
    ensures var e := Pte(c, Pte(c, page, PTE_P), flags);
      e < Pow2(c.width) && Present(c, e) && BaseOf(c, e) == page && Writable(c, e)
      && (UserBit(c, e) <==> flags == PTE_W + PTE_U)
  {
    FlagSums();
    OrFlags(c, page, 0, PTE_P);
    OrFlags(c, page, 1, flags);
    hide Pte, Present, BaseOf, UserBit, Writable;
    PteParts(c, page, 1 + flags);
  }

  lemma LinkSound(c: Config, s: Trees, pool: set<nat>, a: nat, addr: nat, i: nat, cur: nat, page: nat, flags: nat)
    requires Sound(c, s, pool) && MayWalk(c, s, a, addr) && Walking(c, s, a, addr, i, cur) && i < c.levels
    requires !Present(c, s.mem[cur][IndexOf(c, addr, i)]) && page in pool
    requires flags == PTE_W + if a == s.kernel then 0 else PTE_U
    ensures var e := Pte(c, Pte(c, page, PTE_P), flags);
      && Linkable(c, s, cur, IndexOf(c, addr, i), page, e)
      && c.Size(i + 1) == PGSIZE / (c.width / 8) && |s.owner[cur].path| == i
      && var s' := Linked(c, s, cur, IndexOf(c, addr, i), page, e);
      && Sound(c, s', pool - {page}) && MayWalk(c, s', a, addr) && Walking(c, s', a, addr, i, cur) && Grew(c, s, s', a)
      && Present(c, s'.mem[cur][IndexOf(c, addr, i)]) && BaseOf(c, s'.mem[cur][IndexOf(c, addr, i)]) == page
      && pool - {page} + Owned(s') == pool + Owned(s)
    ensures Leaf(c, s.mem, a, 0, addr) == None
  {
    var e := Pte(c, Pte(c, page, PTE_P), flags);
    TablePte(c, page, flags);
    LinkableHere(c, s, pool, a, addr, i, cur, page, e);
    WalkingLink(c, s, a, addr, i, cur, page, e);
    LinkRest(c, s, pool, a, addr, i, cur, page, e);
    hide *;
  }

  lemma LinkableHere(c: Config, s: Trees, pool: set<nat>, a: nat, addr: nat, i: nat, cur: nat, page: nat, e: nat)
    requires Sound(c, s, pool) && MayWalk(c, s, a, addr) && Walking(c, s, a, addr, i, cur) && i < c.levels
    requires !Present(c, s.mem[cur][IndexOf(c, addr, i)]) && page in pool
    requires e < Pow2(c.width) && Present(c, e) && BaseOf(c, e) == page && Writable(c, e)
    requires UserBit(c, e) <==> a != s.kernel
    ensures Linkable(c, s, cur, IndexOf(c, addr, i), page, e)
  {
    IndexZero(c, addr);
    hide WellFormed, KernelIndex, Present, BaseOf, UserBit, Writable, IndexOf, Pow2, Pte;
    if i == 0 {
      ShapeAt(c, s, cur);
      assert Live(s, a) <==> a != s.kernel;
    }
  }

  lemma LinkRest(c: Config, s: Trees, pool: set<nat>, a: nat, addr: nat, i: nat, cur: nat, page: nat, e: nat)
    requires Sound(c, s, pool) && Walking(c, s, a, addr, i, cur) && i < c.levels && page in pool
    requires Linkable(c, s, cur, IndexOf(c, addr, i), page, e) && (i == 0 ==> a == s.kernel)
    ensures var s' := Linked(c, s, cur, IndexOf(c, addr, i), page, e);
      && SlotsReady(c, s') && PoolFits(c, s', pool - {page})
      && pool - {page} + Owned(s') == pool + Owned(s)
    ensures c.Size(i + 1) == PGSIZE / (c.width / 8) && |s.owner[cur].path| == i
  {
    hide WellFormed, KernelIndex, Present, BaseOf, UserBit, Writable, IndexOf, Pow2, Pte, Zeros;
    var s' := Linked(c, s, cur, IndexOf(c, addr, i), page, e);
    assert Owned(s') == Owned(s) + {page};
    forall u | Live(s', u)
      ensures u in s'.mem && |s'.mem[u]| == 1 && Present(c, s'.mem[u][0])
    {
      assert Live(s, u);
    }
  }
}
