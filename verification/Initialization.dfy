/** The identity mapping that `vme_init` builds in the kernel's tree. */
module Initialization {
  import opened Bits
  import opened Mmu
  import opened PageTables
  import opened Subtrees
  import opened AddressSpaces
  import opened Areas
  import opened Mappings

  /** No address space yet; the kernel's slot maps the pages met before turn `k` of area `i`, and no others. */
  ghost predicate Building(c: Config, s: Trees, pool: set<nat>, i: nat, k: nat) {
    && Sound(c, s, pool) && Alone(s, s.kernel)
    && forall addr: nat :: IsPage(c, addr) ==>
         Entry(c, s.mem, s.kernel, 0, addr) == if Met(c, i, k, addr) then addr + PTE_P + PTE_W else 0
  }

  /** Only the kernel's slot, with a null pointer. */
  ghost function Empty(a: nat, kpt: nat): Trees {
    Trees(map[a := [0]], map[a := Node(a, [], a)], a, kpt)
  }

  lemma BuildingInit(c: Config, pool: set<nat>, a: nat, kpt: nat)
    requires Layout(c) && a !in pool && forall p :: p in pool ==> 0 < p < Pow2(c.width) && p % PGSIZE == 0
    ensures Building(c, Empty(a, kpt), pool, 0, 0)
  {
    var s := Empty(a, kpt);
    EmptyTable(c, a, kpt);
    hide KernelIndex, Present, BaseOf, UserBit, Writable, Pow2, Geometry, IndexOf, Met, Layout, TableOk;
    assert forall u :: !Live(s, u);
    assert WellFormed(c, s) && SlotsReady(c, s) && PoolFits(c, s, pool);
    forall addr: nat | IsPage(c, addr)
      ensures Entry(c, s.mem, a, 0, addr) == if Met(c, 0, 0, addr) then addr + PTE_P + PTE_W else 0
    {
      EmptyEntry(c, a, kpt, addr);
      MetAll(c, addr);
    }
  }

  lemma EmptyTable(c: Config, a: nat, kpt: nat)
    requires Layout(c)
    ensures Geometry(c) && TableOk(c, Empty(a, kpt), a)
  {
    IndexZero(c, 0);
    ZeroEntry(c);
    hide KernelIndex, Present, BaseOf, UserBit, Writable, Pow2;
    assert Points(c, Empty(a, kpt), a, 0);
  }

  lemma EmptyEntry(c: Config, a: nat, kpt: nat, addr: nat)
    requires Geometry(c)
    ensures Entry(c, Empty(a, kpt).mem, a, 0, addr) == 0
  {
    IndexZero(c, addr);
    ZeroEntry(c);
    hide KernelIndex, Present, BaseOf, UserBit, Writable, Pow2, IndexOf, Entry, Leaf;
    EntryStep(c, Empty(a, kpt).mem, a, 0, addr);
  }

  lemma BuildingFacts(c: Config, s: Trees, pool: set<nat>, i: nat, k: nat)
    requires Building(c, s, pool, i, k)
    ensures Layout(c) && Geometry(c) && Sound(c, s, pool) && WellFormed(c, s) && Alone(s, s.kernel)
    ensures s.kernel in s.owner && s.owner[s.kernel].path == []
    ensures forall addr: nat :: addr < Pow2(c.width) ==> MayWalk(c, s, s.kernel, addr)
  {
    hide WellFormed, SlotsReady, PoolFits, KernelIndex, IndexOf;
  }

  /** The walk changes no translation. */
  lemma BuildingWalked(c: Config, s: Trees, pool: set<nat>, s': Trees, pool': set<nat>, i: nat, k: nat)
    requires Building(c, s, pool, i, k) && Sound(c, s', pool') && Geometry(c) && Grew(c, s, s', s.kernel)
    ensures Building(c, s', pool', i, k) && s'.kernel == s.kernel
  {
    hide Sound, Entry, Met, IsPage, Geometry;
    forall addr: nat | IsPage(c, addr)
      ensures Entry(c, s'.mem, s'.kernel, 0, addr) == if Met(c, i, k, addr) then addr + PTE_P + PTE_W else 0
    {
      assert Entry(c, s'.mem, s.kernel, 0, addr) == Entry(c, s.mem, s.kernel, 0, addr);
    }
  }

  /** Writing the identity entry of one page. */
  lemma BuildingTurn(c: Config, s: Trees, pool: set<nat>, i: nat, k: nat, cur: nat, pt: nat)
    requires Building(c, s, pool, i, k) && KernelVisit(c, i, k) && cur == Visited(c, c.areas[i], PGSIZE, k)
    requires Geometry(c) && Walking(c, s, s.kernel, cur, c.levels, pt)
    ensures var e := Pte(c, Pte(c, cur, PTE_P), PTE_W);
      Building(c, Stored(s, pt, IndexOf(c, cur, c.levels), e), pool, i, k + 1)
  {
    var e := Pte(c, Pte(c, cur, PTE_P), PTE_W);
    BuildingFacts(c, s, pool, i, k);
    KernelPte(c, cur);
    BuildingStore(c, s, pool, cur, pt, e);
    StoreTranslations(c, s, s.kernel, cur, pt, e);
    var s' := Stored(s, pt, IndexOf(c, cur, c.levels), e);
    hide Sound, Entry, Met, IsPage, Geometry, Layout, WellFormed, IndexOf, Visited, Walking, MayWalk, Pte;
    forall addr: nat | IsPage(c, addr)
      ensures Entry(c, s'.mem, s'.kernel, 0, addr) == if Met(c, i, k + 1, addr) then addr + PTE_P + PTE_W else 0
    {
      MetStep(c, i, k, addr);
      if addr != cur {
        assert Entry(c, s'.mem, s.kernel, 0, addr) == Entry(c, s.mem, s.kernel, 0, addr);
      }
    }
  }

  lemma KernelPte(c: Config, cur: nat)
    requires Layout(c) && KernelPage(c, cur)
    ensures Geometry(c) && IsPage(c, cur)
    ensures Pte(c, Pte(c, cur, PTE_P), PTE_W) == cur + PTE_P + PTE_W < Pow2(c.width)
  {
    LayoutPage(c, cur);
    hide *;
    EntryValue(c, cur);
  }

  lemma LayoutPage(c: Config, addr: nat)
    requires Layout(c) && KernelPage(c, addr)
    ensures Geometry(c) && IsPage(c, addr) && c.width >= 13 && addr % PGSIZE == 0 && addr < Pow2(c.width)
  {
    hide KernelPage, KernelIndex;
    Powers(c, 1);
  }

  lemma EntryValue(c: Config, cur: nat)
    requires c.width >= 13 && cur % PGSIZE == 0 && cur < Pow2(c.width)
    ensures Pte(c, Pte(c, cur, PTE_P), PTE_W) == cur + PTE_P + PTE_W < Pow2(c.width)
  {
    hide Pte, Bitwise, Pow2;
    FlagSums();
    OrFlags(c, cur, 0, PTE_P);
    OrFlags(c, cur, 1, PTE_W);
    PteParts(c, cur, 3);
  }

  lemma BuildingStore(c: Config, s: Trees, pool: set<nat>, cur: nat, pt: nat, e: nat)
    requires Sound(c, s, pool) && Alone(s, s.kernel) && Geometry(c) && Walking(c, s, s.kernel, cur, c.levels, pt)
    requires e < Pow2(c.width)
    ensures var s' := Stored(s, pt, IndexOf(c, cur, c.levels), e);
      Sound(c, s', pool) && Alone(s', s.kernel)
  {
    StoreKeeps(c, s, pt, IndexOf(c, cur, c.levels), e);
    NoSpaces(c, s);
    StoreSafe(c, s, pool, pt, IndexOf(c, cur, c.levels), e);
    hide WellFormed, IndexOf, KernelIndex, Pow2, Layout, Stored, SlotsReady, PoolFits, Alone, Geometry;
  }

  lemma StoreSafe(c: Config, s: Trees, pool: set<nat>, pt: nat, j: nat, e: nat)
    requires Geometry(c) && PoolFits(c, s, pool) && Alone(s, s.kernel) && pt in s.owner && pt in s.mem
      && j < |s.mem[pt]|
    requires forall u :: !Live(s, u)
    ensures SlotsReady(c, Stored(s, pt, j, e)) && PoolFits(c, Stored(s, pt, j, e), pool)
      && Alone(Stored(s, pt, j, e), s.kernel)
  {
    hide Present, Pow2, Geometry;
    assert forall u :: Live(Stored(s, pt, j, e), u) ==> Live(s, u);
  }

  lemma NoSpaces(c: Config, s: Trees)
    requires Geometry(c) && WellFormed(c, s) && Alone(s, s.kernel)
    ensures forall u :: !Live(s, u)
  {
    forall u | Live(s, u)
      ensures false
    {
      ShapeAt(c, s, u);
    }
  }

  lemma BuildingArea(c: Config, s: Trees, pool: set<nat>, i: nat, k: nat)
    requires Building(c, s, pool, i, k) && i < |c.areas| && (c.areas[i].kernel ==> k == Steps(c, c.areas[i], PGSIZE))
    ensures Building(c, s, pool, i + 1, 0)
  {
    hide Sound, Entry, Met, IsPage, Steps;
    forall addr: nat
      ensures Met(c, i + 1, 0, addr) <==> Met(c, i, k, addr)
    {
      MetArea(c, i, k, addr);
    }
  }

  /** When all areas are done, the level-1 table is there and the kernel's tree is complete. */
  lemma BuildingDone(c: Config, s: Trees, pool: set<nat>)
    requires Building(c, s, pool, |c.areas|, 0)
    ensures s.kernel in s.mem && |s.mem[s.kernel]| == 1 && c.width >= 12
    ensures Ready(c, s.(kpt := BaseOf(c, s.mem[s.kernel][0])), pool)
    ensures forall u :: !Live(s, u)
  {
    BuildingFacts(c, s, pool, |c.areas|, 0);
    NoSpaces(c, s);
    BuildingRoot(c, s, pool);
    BuildingMapped(c, s, pool);
    var s' := s.(kpt := BaseOf(c, s.mem[s.kernel][0]));
    RenameKpt(c, s, BaseOf(c, s.mem[s.kernel][0]));
    hide WellFormed, Entry, IsPage, KernelPage, BaseOf, KernelMapped, Layout, Geometry;
    assert PoolFits(c, s', pool);
    assert forall u :: Live(s', u) ==> Live(s, u);
    assert SlotsReady(c, s');
  }

  lemma BuildingMapped(c: Config, s: Trees, pool: set<nat>)
    requires Building(c, s, pool, |c.areas|, 0) && Geometry(c)
    ensures KernelMapped(c, s)
  {
    hide Sound, Entry, Met, IsPage, KernelPage;
    forall addr: nat | IsPage(c, addr)
      ensures Entry(c, s.mem, s.kernel, 0, addr) == if KernelPage(c, addr) then addr + PTE_P + PTE_W else 0
    {
      MetAll(c, addr);
    }
  }

  lemma RenameKpt(c: Config, s: Trees, kpt: nat)
    requires Geometry(c) && WellFormed(c, s) && Alone(s, s.kernel)
    ensures WellFormed(c, s.(kpt := kpt))
    ensures KernelMapped(c, s) ==> KernelMapped(c, s.(kpt := kpt))
  {
    var s' := s.(kpt := kpt);
    hide Entry, KernelPage, IsPage;
    forall t | t in s'.owner
      ensures TableOk(c, s', t)
    {
      assert TableOk(c, s, t);
      hide WellFormed, KernelIndex, Present, BaseOf, UserBit, Writable, Pow2;
      forall j | 0 <= j < |s'.mem[t]|
        ensures Points(c, s', t, j)
      {
        assert Points(c, s, t, j);
      }
    }
  }

  lemma BuildingRoot(c: Config, s: Trees, pool: set<nat>)
    requires Building(c, s, pool, |c.areas|, 0) && Geometry(c) && WellFormed(c, s)
    ensures s.kernel in s.mem && |s.mem[s.kernel]| == 1 && Present(c, s.mem[s.kernel][0])
    ensures BaseOf(c, s.mem[s.kernel][0]) in s.owner
    ensures s.owner[BaseOf(c, s.mem[s.kernel][0])] == Node(s.kernel, [0], s.kernel)
  {
    var page := SomePage(c);
    MetAll(c, page);
    IndexZero(c, page);
    ShapeAt(c, s, s.kernel);
    EntryStep(c, s.mem, s.kernel, 0, page);
    assert Present(c, s.mem[s.kernel][0]);
    var b := Follow(c, s, s.kernel, 0);
    assert [] + [0] == [0];
    ParentAt(c, s, b);
    ShapeAt(c, s, s.owner[b].parent);
  }

  lemma SomePage(c: Config) returns (page: nat)
    requires Layout(c)
    ensures KernelPage(c, page) && Geometry(c) && IsPage(c, page)
  {
    hide KernelPage, KernelIndex, IsPage;
    page :| KernelPage(c, page);
  }
}
