/** Setting up and tearing down whole address spaces. */
module Lifecycle {
  import opened Bits
  import opened Mmu
  import opened Options
  import opened PageTables
  import opened AddressSpaces
  import opened Mappings

  /** The view without the address space at slot `a`. */
  ghost function Dropped(v: View, a: nat): View {
    imap k: (nat, nat) | k in v && k.0 != a :: v[k]
  }

  /** A slot that is free for a new address space. */
  ghost predicate FreeSlot(s: Trees, pool: set<nat>, a: nat) {
    a !in s.owner && a !in pool
  }

  /** `protect`: a fresh level-1 table with the kernel's entries, hung on slot `a`. */
  lemma ProtectReady(c: Config, s: Trees, pool: set<nat>, a: nat, upt: nat, row: seq<nat>, e: nat)
    requires Ready(c, s, pool) && FreeSlot(s, pool, a) && upt in pool
    requires s.kpt in s.mem && |row| == |s.mem[s.kpt]|
    requires forall j :: 0 <= j < |row| ==> row[j] == if KernelIndex(c, j) then s.mem[s.kpt][j] else 0
    requires e < Pow2(c.width) && Present(c, e) && UserBit(c, e) && BaseOf(c, e) == upt
    ensures var s' := Protected(s, a, upt, row, e);
      && Ready(c, s', pool - {upt}) && KernelKept(s, s')
      && ViewOf(c, s') == ViewOf(c, s) + KernelView(c, a)
      && (forall u :: Live(s', u) <==> Live(s, u) || u == a)
      && pool - {upt} + Owned(s') == pool + Owned(s)
  {
    hide *;
    ProtectableNow(c, s, pool, a, upt, row, e);
    ProtectKeeps(c, s, a, upt, row, e);
    ProtectRest(c, s, pool, a, upt, row, e);
    ProtectKernel(c, s, pool, a, upt, row, e);
    ProtectView(c, s, pool, a, upt, row, e);
    ReadyFrom(c, Protected(s, a, upt, row, e), pool - {upt});
    ViewsAgree(c, s, pool);
    ViewsAgree(c, Protected(s, a, upt, row, e), pool - {upt});
  }

  lemma ProtectableNow(c: Config, s: Trees, pool: set<nat>, a: nat, upt: nat, row: seq<nat>, e: nat)
    requires Ready(c, s, pool) && FreeSlot(s, pool, a) && upt in pool
    requires s.kpt in s.mem && |row| == |s.mem[s.kpt]|
    requires forall j :: 0 <= j < |row| ==> row[j] == if KernelIndex(c, j) then s.mem[s.kpt][j] else 0
    requires e < Pow2(c.width) && Present(c, e) && UserBit(c, e) && BaseOf(c, e) == upt
    ensures Protectable(c, s, a, upt, row, e) && Geometry(c) && WellFormed(c, s) && Layout(c)
  {
    hide WellFormed, KernelMapped, SlotsReady, KernelIndex, Present, UserBit, Writable, BaseOf, Pow2;
  }

  lemma ReadyFrom(c: Config, s: Trees, pool: set<nat>)
    requires Layout(c) && WellFormed(c, s) && SlotsReady(c, s) && PoolFits(c, s, pool) && KernelReady(s)
      && KernelMapped(c, s)
    ensures Ready(c, s, pool)
  {
  }

  lemma ProtectRest(c: Config, s: Trees, pool: set<nat>, a: nat, upt: nat, row: seq<nat>, e: nat)
    requires Ready(c, s, pool) && FreeSlot(s, pool, a) && upt in pool && Protectable(c, s, a, upt, row, e)
    ensures var s' := Protected(s, a, upt, row, e);
      && SlotsReady(c, s') && PoolFits(c, s', pool - {upt}) && KernelKept(s, s')
      && (forall u :: Live(s', u) <==> Live(s, u) || u == a)
      && pool - {upt} + Owned(s') == pool + Owned(s)
  {
    hide WellFormed, KernelMapped, KernelIndex, UserBit, Writable, Present, BaseOf, Pow2;
    var s' := Protected(s, a, upt, row, e);
    assert Owned(s') == Owned(s) + {upt};
    assert forall u :: Live(s', u) <==> Live(s, u) || u == a;
    forall u | Live(s', u)
      ensures u in s'.mem && |s'.mem[u]| == 1 && Present(c, s'.mem[u][0])
    {
      assert u != a ==> Live(s, u);
    }
  }

  lemma ProtectKernel(c: Config, s: Trees, pool: set<nat>, a: nat, upt: nat, row: seq<nat>, e: nat)
    requires Ready(c, s, pool) && Protectable(c, s, a, upt, row, e)
    ensures KernelMapped(c, Protected(s, a, upt, row, e))
  {
    var s' := Protected(s, a, upt, row, e);
    assert s.kernel in s.owner && s.owner[s.kernel].path == [] && s'.kernel == s.kernel;
    forall addr: nat | IsPage(c, addr)
      ensures Entry(c, s'.mem, s'.kernel, 0, addr) == if KernelPage(c, addr) then addr + PTE_P + PTE_W else 0
    {
      hide WellFormed, SlotsReady, PoolFits, Entry, Protectable, Protected, IsPage, KernelPage;
      ProtectFrame(c, s, pool, a, upt, row, e, s.kernel, addr);
    }
  }

  lemma ProtectView(c: Config, s: Trees, pool: set<nat>, a: nat, upt: nat, row: seq<nat>, e: nat)
    requires Ready(c, s, pool) && Protectable(c, s, a, upt, row, e)
    ensures LastView(c, Protected(s, a, upt, row, e)) == LastView(c, s) + KernelView(c, a)
  {
    var s' := Protected(s, a, upt, row, e);
    ProtectLive(c, s, a, upt, row, e);
    KernelPages(c, s, pool);
    hide *;
    forall k: (nat, nat) | Live(s, k.0)
      ensures LastEntry(c, s', k.0, k.1) == LastEntry(c, s, k.0, k.1)
    {
      ProtectOld(c, s, pool, a, upt, row, e, k.0, k.1);
    }
    forall addr: nat | IsPage(c, addr)
      ensures LastEntry(c, s', a, addr) == if KernelPage(c, addr) then Some(Mapping(addr, true, false)) else None
    {
      ProtectOwn(c, s, pool, a, upt, row, e, addr);
    }
    ViewUnion(c, s, s', a);
  }

  lemma ProtectLive(c: Config, s: Trees, a: nat, upt: nat, row: seq<nat>, e: nat)
    requires Geometry(c) && Protectable(c, s, a, upt, row, e)
    ensures forall u :: Live(Protected(s, a, upt, row, e), u) <==> Live(s, u) || u == a
    ensures !Live(s, a)
  {
    hide Present, BaseOf, UserBit, Writable, KernelIndex;
  }

  lemma KernelPages(c: Config, s: Trees, pool: set<nat>)
    requires Ready(c, s, pool)
    ensures Geometry(c) && forall addr: nat :: KernelPage(c, addr) ==> IsPage(c, addr)
  {
    hide WellFormed, KernelMapped, SlotsReady, PoolFits;
  }

  lemma ProtectOld(c: Config, s: Trees, pool: set<nat>, a: nat, upt: nat, row: seq<nat>, e: nat, u: nat, addr: nat)
    requires Ready(c, s, pool) && Protectable(c, s, a, upt, row, e) && Live(s, u)
    ensures LastEntry(c, Protected(s, a, upt, row, e), u, addr) == LastEntry(c, s, u, addr)
  {
    hide WellFormed, KernelMapped, SlotsReady, PoolFits, Protectable, Protected, Entry;
    ProtectFrame(c, s, pool, a, upt, row, e, u, addr);
  }

  lemma ViewUnion(c: Config, s: Trees, s': Trees, a: nat)
    requires Geometry(c) && !Live(s, a) && forall u :: Live(s', u) <==> Live(s, u) || u == a
    requires forall k: (nat, nat) :: Live(s, k.0) ==> LastEntry(c, s', k.0, k.1) == LastEntry(c, s, k.0, k.1)
    requires forall addr: nat :: IsPage(c, addr) ==>
      LastEntry(c, s', a, addr) == if KernelPage(c, addr) then Some(Mapping(addr, true, false)) else None
    requires forall addr: nat :: KernelPage(c, addr) ==> IsPage(c, addr)
    ensures LastView(c, s') == LastView(c, s) + KernelView(c, a)
  {
    hide LastEntry, Live, KernelPage, IsPage, Geometry;
  }

  /** `unprotect`: all of `a`'s table pages go back to the pool, and only those. */
  lemma PruneReady(c: Config, s: Trees, pool: set<nat>, a: nat)
    requires Ready(c, s, pool) && Live(s, a)
    ensures var s' := Pruned(s, a);
      && Ready(c, s', pool + Pages(s, a)) && KernelKept(s, s')
      && ViewOf(c, s') == Dropped(ViewOf(c, s), a)
      && (forall u :: Live(s', u) <==> Live(s, u) && u != a)
      && Owned(s') == Owned(s) - Pages(s, a) && Pages(s, a) !! pool && Pages(s, a) <= Owned(s)
  {
    hide *;
    PruneFacts(c, s, pool, a);
    PruneKeeps(c, s, a);
    PruneRest(c, s, pool, a);
    PruneEntries(c, s, pool, a);
    PruneView(c, s, a);
    ReadyFrom(c, Pruned(s, a), pool + Pages(s, a));
    ViewsAgree(c, s, pool);
    ViewsAgree(c, Pruned(s, a), pool + Pages(s, a));
  }

  lemma PruneFacts(c: Config, s: Trees, pool: set<nat>, a: nat)
    requires Ready(c, s, pool) && Live(s, a)
    ensures Layout(c) && Geometry(c) && WellFormed(c, s) && KernelReady(s) && a != s.kernel && KernelMapped(c, s)
    ensures Pages(s, a) <= Owned(s) && a in s.owner
  {
    hide WellFormed, KernelMapped, SlotsReady, PoolFits;
  }

  lemma PruneRest(c: Config, s: Trees, pool: set<nat>, a: nat)
    requires Ready(c, s, pool) && Live(s, a)
    ensures var s' := Pruned(s, a);
      && SlotsReady(c, s') && PoolFits(c, s', pool + Pages(s, a)) && KernelKept(s, s')
      && (forall u :: Live(s', u) <==> Live(s, u) && u != a)
      && Owned(s') == Owned(s) - Pages(s, a) && Pages(s, a) !! pool
  {
    PruneTables(c, s, pool, a);
    PrunePool(c, s, pool, a);
    PruneSlots(c, s, pool, a);
    hide *;
  }

  lemma PruneTables(c: Config, s: Trees, pool: set<nat>, a: nat)
    requires Ready(c, s, pool) && Live(s, a)
    ensures forall t :: t in s.owner ==>
      && t in s.mem && (s.owner[t].path == [] ==> s.owner[t].root == t)
      && (s.owner[t].path != [] ==> t % PGSIZE == 0 && 0 < t < Pow2(c.width))
  {
    forall t | t in s.owner
      ensures t in s.mem && (s.owner[t].path == [] ==> s.owner[t].root == t)
      ensures s.owner[t].path != [] ==> t % PGSIZE == 0 && 0 < t < Pow2(c.width)
    {
      ShapeAt(c, s, t);
    }
  }

  lemma PrunePool(c: Config, s: Trees, pool: set<nat>, a: nat)
    requires Ready(c, s, pool) && Live(s, a)
    ensures PoolFits(c, Pruned(s, a), pool + Pages(s, a)) && Pages(s, a) !! pool
    ensures Owned(Pruned(s, a)) == Owned(s) - Pages(s, a)
  {
    PruneTables(c, s, pool, a);
    PoolApart(c, s, pool);
    hide WellFormed, KernelMapped, SlotsReady, Pow2, Layout, Ready, Geometry;
    PruneOwned(s, a);
  }

  lemma PoolApart(c: Config, s: Trees, pool: set<nat>)
    requires Ready(c, s, pool)
    ensures PoolFits(c, s, pool) && pool !! Owned(s) && forall a :: Pages(s, a) <= Owned(s)
  {
    hide WellFormed, KernelMapped, SlotsReady, Pow2, Layout;
  }

  lemma PruneOwned(s: Trees, a: nat)
    ensures Owned(Pruned(s, a)) == Owned(s) - Pages(s, a)
  {
  }

  lemma PruneSlots(c: Config, s: Trees, pool: set<nat>, a: nat)
    requires Ready(c, s, pool) && Live(s, a)
    ensures var s' := Pruned(s, a);
      SlotsReady(c, s') && KernelKept(s, s') && (forall u :: Live(s', u) <==> Live(s, u) && u != a)
  {
    PruneLive(c, s, pool, a);
    PruneKernel(c, s, pool, a);
    hide WellFormed, KernelMapped, PoolFits, Present, Pow2, KernelKept, Live, Pages;
    var s' := Pruned(s, a);
    forall u | Live(s', u)
      ensures u in s'.mem && |s'.mem[u]| == 1 && Present(c, s'.mem[u][0])
    {
      assert Live(s, u);
    }
  }

  lemma PruneLive(c: Config, s: Trees, pool: set<nat>, a: nat)
    requires Ready(c, s, pool) && Live(s, a)
    ensures forall u :: Live(Pruned(s, a), u) <==> Live(s, u) && u != a
    ensures forall u :: Live(s, u) ==> u !in Pages(s, a)
  {
    PruneTables(c, s, pool, a);
    hide WellFormed, KernelMapped, PoolFits, SlotsReady, Pow2, Layout, Geometry;
  }

  lemma PruneKernel(c: Config, s: Trees, pool: set<nat>, a: nat)
    requires Ready(c, s, pool) && Live(s, a)
    ensures KernelKept(s, Pruned(s, a))
  {
    hide WellFormed, KernelMapped, PoolFits, SlotsReady, Pow2, Layout, Geometry;
  }

  lemma PruneEntries(c: Config, s: Trees, pool: set<nat>, a: nat)
    requires Ready(c, s, pool) && Live(s, a)
    ensures var s' := Pruned(s, a);
      && (forall u: nat, addr: nat :: (Live(s', u) || u == s.kernel) ==>
            Entry(c, s'.mem, u, 0, addr) == Entry(c, s.mem, u, 0, addr))
      && (forall u :: Live(s', u) <==> Live(s, u) && u != a)
      && KernelMapped(c, s')
  {
    hide Ready, WellFormed, SlotsReady, PoolFits, Entry, Leaf, KernelKept, IsPage, KernelPage, Geometry, Layout, Live,
      Pruned, Pages, Owned;
    PruneRest(c, s, pool, a);
    PruneFacts(c, s, pool, a);
    var s' := Pruned(s, a);
    forall u: nat, addr: nat | Live(s', u) || u == s.kernel
      ensures Entry(c, s'.mem, u, 0, addr) == Entry(c, s.mem, u, 0, addr)
    {
      PruneEntry(c, s, pool, a, u, addr);
    }
    assert s'.kernel == s.kernel by {
      PrunedKernel(s, a);
    }
  }

  lemma PrunedKernel(s: Trees, a: nat)
    ensures Pruned(s, a).kernel == s.kernel
  {
  }

  lemma PruneEntry(c: Config, s: Trees, pool: set<nat>, a: nat, u: nat, addr: nat)
    requires Ready(c, s, pool) && Live(s, a) && Geometry(c) && (Live(Pruned(s, a), u) || u == s.kernel)
    ensures Entry(c, Pruned(s, a).mem, u, 0, addr) == Entry(c, s.mem, u, 0, addr)
  {
    PruneFacts(c, s, pool, a);
    hide WellFormed, SlotsReady, PoolFits, KernelMapped, Entry, Leaf, KernelKept, Geometry, Layout, Ready;
    PruneTables(c, s, pool, a);
    assert u in s.owner && OnWay(c, s, u, 0, addr);
    hide Owned, Live;
    EntryFrame(c, s, Pruned(s, a).mem, a, u, 0, addr);
  }

  lemma PruneView(c: Config, s: Trees, a: nat)
    requires Geometry(c)
    requires forall u: nat, addr: nat :: (Live(Pruned(s, a), u) || u == s.kernel) ==>
      Entry(c, Pruned(s, a).mem, u, 0, addr) == Entry(c, s.mem, u, 0, addr)
    requires forall u :: Live(Pruned(s, a), u) <==> Live(s, u) && u != a
    ensures LastView(c, Pruned(s, a)) == Dropped(LastView(c, s), a)
  {
    hide Entry, Decode, IsPage, Pruned;
  }
}
