/** `vme.c`: allocation of tables, the walk, and the operations on address spaces. */
module Vme {
  import opened Bits
  import opened Mmu
  import opened Options
  import opened PageTables
  import opened Subtrees
  import opened AddressSpaces
  import opened Translation
  import opened Areas
  import opened Mappings
  import opened Lifecycle
  import opened Initialization
  import opened Footprint

  datatype Reason = NoPage | InvalidAddress | NotAligned | NotMapped | AlreadyMapped

  const MMAP_NONE: nat := 0
  const MMAP_WRITE: nat := 2

  /** `prot & MMAP_WRITE` */
  function Writes(prot: nat): bool {
    Bitwise(And, 32, prot, MMAP_WRITE) != 0
  }

  lemma WritesExactly(prot: nat)
    ensures Writes(prot) <==> prot / 2 % 2 == 1
  {
    SecondBit(32, prot);
    hide Bitwise;
  }

  /** What a call of `map` asks for: a page of the user, writable if bit 1 of `prot` is set. */
  function Requested(pa: nat, prot: nat): Option<Mapping> {
    if prot == 0 then None else Some(Mapping(pa, prot / 2 % 2 == 1, true))
  }

  /** The map changes at one page of one space, to nothing or to the user's page asked for, and nowhere else. */
  ghost predicate Remapped(v: View, v': View, a: nat, va: nat, pa: nat, prot: nat) {
    && (prot == 0 ==> (a, va) !in v')
    && (prot != 0 ==> (a, va) in v' && v'[(a, va)] == Mapping(pa, prot / 2 % 2 == 1, true))
    && forall k :: k != (a, va) ==> (k in v' <==> k in v) && (k in v ==> v'[k] == v[k])
  }

  lemma RequestRemaps(v: View, a: nat, va: nat, pa: nat, prot: nat)
    ensures Remapped(v, Updated(v, (a, va), Requested(pa, prot)), a, va, pa, prot)
  {
  }

  /** A user address and a physical address, both at page boundaries. */
  predicate Proper(c: Config, va: nat, pa: nat)
    requires |c.areas| > 0
  {
    c.InUser(va) && va % PGSIZE == 0 && pa % PGSIZE == 0
  }

  /** `panic_on` does not return to the caller. */
  datatype Outcome = Done | Panic(reason: Reason)

  class PageManager {
    const cfg: Config
    /** Every table page and every `AddrSpace.ptr`, which the walk treats as a one-entry table. */
    var mem: Memory
    /** The pages `pgalloc` can hand out. */
    var pool: set<nat>
    var kpt: nat
    ghost var owner: map<nat, Node>
    ghost var kernel: nat

    /** Before `vme_init`: nothing but the allocator. */
    constructor (cfg: Config, pages: set<nat>)
      ensures this.cfg == cfg && pool == pages && mem == map[] && owner == map[]
    {
      this.cfg := cfg;
      mem, pool, kpt := map[], pages, 0;
      owner, kernel := map[], 0;
    }

    ghost function Now(): Trees
      reads this
    {
      Trees(mem, owner, kernel, kpt)
    }

    ghost predicate Base()
      reads this
    {
      Sound(cfg, Now(), pool)
    }

    ghost predicate Valid()
      reads this
    {
      Ready(cfg, Now(), pool)
    }

    /** The partial map from (slot, page) to (page, permission) of all address spaces. */
    ghost function Spaces(): View
      requires Geometry(cfg)
      reads this
    {
      ViewOf(cfg, Now())
    }

    /** There are pages for all tables that the walk to `addr` has to allocate. */
    ghost predicate Enough(a: nat, addr: nat)
      requires Geometry(cfg)
      reads this
    {
      Absent(cfg, mem, a, 0, addr) <= |pool|
    }

    /** The number of `uintptr_t` in a page. */
    function Words(): nat {
      if cfg.width < 8 then 0 else PGSIZE / (cfg.width / 8)
    }

    /** A page with any contents, or 0 when there is none. */
    method PgAlloc() returns (base: nat)
      requires PoolFits(cfg, Now(), pool)
      modifies `pool, `mem
      ensures base == 0 <==> old(pool) == {}
      ensures base == 0 ==> mem == old(mem) && pool == old(pool)
      ensures base != 0 ==> base in old(pool) && pool == old(pool) - {base}
      ensures base != 0 ==> base in mem && mem == old(mem)[base := mem[base]] && |mem[base]| == Words()
    {
      if pool == {} {
        return 0;
      }
      base :| base in pool;
      pool := pool - {base};
      var contents: seq<nat> := *;
      mem := mem[base := if |contents| == Words() then contents else Zeros(Words())];
    }

    method PgAllocZ() returns (base: nat)
      requires PoolFits(cfg, Now(), pool)
      modifies `pool, `mem
      ensures base == 0 <==> old(pool) == {}
      ensures base == 0 ==> mem == old(mem) && pool == old(pool)
      ensures base != 0 ==> base in old(pool) && pool == old(pool) - {base} && mem == old(mem)[base := Zeros(Words())]
    {
      base := PgAlloc();
      if base == 0 {
        return;
      }
      for i := 0 to Words()
        invariant base in old(pool) && pool == old(pool) - {base}
        invariant base in mem && mem == old(mem)[base := mem[base]] && |mem[base]| == Words()
        invariant forall k :: 0 <= k < i ==> mem[base][k] == 0
      {
        var row: seq<nat> := mem[base][i := 0];
        mem := mem[base := row];
      }
      assert mem[base] == Zeros(Words());
    }

    /** The branch of the walk that hangs a new table at an entry. */
    method AddTable(ghost a: nat, ghost addr: nat, ghost i: nat, pt: nat, index: nat, flags: nat)
      returns (nextPage: nat)
      requires Base() && MayWalk(cfg, Now(), a, addr) && Walking(cfg, Now(), a, addr, i, pt) && i < cfg.levels
      requires index == IndexOf(cfg, addr, i) && !Present(cfg, mem[pt][index])
      requires flags == PTE_W + if a == kernel then 0 else PTE_U
      modifies `mem, `pool, `owner
      ensures !old(Complete(cfg, mem, a, addr))
      ensures nextPage == 0 ==> pool == {} && mem == old(mem) && pool == old(pool) && owner == old(owner)
      ensures nextPage != 0 ==>
        && Base() && MayWalk(cfg, Now(), a, addr) && Walking(cfg, Now(), a, addr, i, pt)
        && Grew(cfg, old(Now()), Now(), a) && pool + Owned(Now()) == old(pool + Owned(Now()))
        && Present(cfg, mem[pt][index]) && BaseOf(cfg, mem[pt][index]) == nextPage
        && |pool| + 1 == |old(pool)| && AddedFor(cfg, old(Now()), Now(), addr)
        && Absent(cfg, mem, nextPage, i + 1, addr) + 1 == old(Absent(cfg, mem, pt, i, addr))
    {
      hide AddedFor, Absent, Sound, Grew, MayWalk, Walking, Leaf, Present, BaseOf, IndexOf, Pte, Owned, Linkable,
        Geometry, PoolFits, Zeros, Complete, WellFormed, Layout;
      AtTable(cfg, Now(), pool, a, addr, i, pt);
      Missing(cfg, Now(), a, addr, i, pt);
      ghost var s, p := Now(), pool;
      nextPage := PgAllocZ();
      if nextPage != 0 {
        LinkSound(cfg, s, p, a, addr, i, pt, nextPage, flags);
        var row: seq<nat> := mem[pt][index := Pte(cfg, Pte(cfg, nextPage, PTE_P), flags)];
        mem := mem[pt := row];
        owner := owner[nextPage := Node(a, owner[pt].path + [index], pt)];
        assert Now() == Linked(cfg, s, pt, index, nextPage, Pte(cfg, Pte(cfg, nextPage, PTE_P), flags));
        TableAdded(cfg, s, a, addr, i, pt, nextPage, Now());
        AbsentStep(cfg, s.mem, pt, i, addr);
        AbsentFresh(cfg, mem, nextPage, i + 1, addr, Words());
      }
    }

    /** From the slot `a` down to the last-level entry of `addr`; missing tables are allocated on the way. */
    method PtWalk(a: nat, addr: nat, flags: nat) returns (pt: nat, index: nat, ok: bool)
      requires Base() && MayWalk(cfg, Now(), a, addr)
      requires flags == PTE_W + if a == kernel then 0 else PTE_U
      modifies `mem, `pool, `owner
      ensures Base() && Grew(cfg, old(Now()), Now(), a)
      ensures pool + Owned(Now()) == old(pool + Owned(Now()))
      ensures ok ==> Leaf(cfg, mem, a, 0, addr) == Some(pt) && index == IndexOf(cfg, addr, cfg.levels)
      ensures ok ==> Walking(cfg, Now(), a, addr, cfg.levels, pt)
      ensures old(Complete(cfg, mem, a, addr)) ==> ok && mem == old(mem) && pool == old(pool) && owner == old(owner)
      ensures AddedFor(cfg, old(Now()), Now(), addr)
      ensures ok <==> old(Enough(a, addr))
      ensures !ok ==> pool == {} && Blocked(cfg, Now(), a, addr)
    {
      hide AddedFor, Absent, Sound, Grew, MayWalk, Walking, Leaf, Complete, Present, BaseOf, IndexOf, Pte, Owned,
        Geometry, PoolFits, WellFormed;
      var cur, i := a, 0;
      StartWalk(cfg, Now(), pool, a, addr);
      AddedRefl(cfg, Now(), addr);
      while true
        invariant i <= cfg.levels && Base() && MayWalk(cfg, Now(), a, addr) && Walking(cfg, Now(), a, addr, i, cur)
        invariant Grew(cfg, old(Now()), Now(), a) && pool + Owned(Now()) == old(pool + Owned(Now()))
        invariant AddedFor(cfg, old(Now()), Now(), addr)
        invariant old(Complete(cfg, mem, a, addr)) ==> mem == old(mem) && pool == old(pool) && owner == old(owner)
        invariant old(Absent(cfg, mem, a, 0, addr)) + |pool| == |old(pool)| + Absent(cfg, mem, cur, i, addr)
        decreases cfg.levels - i
      {
        AtTable(cfg, Now(), pool, a, addr, i, cur);
        pt, index := cur, IndexOf(cfg, addr, i);
        if i == cfg.levels {
          NoneAbsent(cfg, mem, cur, i, addr);
          return pt, index, true;
        }
        AbsentStep(cfg, mem, cur, i, addr);
        var nextPage;
        if !Present(cfg, mem[pt][index]) {
          ghost var s := Now();
          nextPage := AddTable(a, addr, i, pt, index, flags);
          if nextPage == 0 {
            BlockedAt(cfg, Now(), a, addr, i, pt);
            return pt, index, false;
          }
          GrewTrans(cfg, old(Now()), s, Now(), a);
          AddedTrans(cfg, old(Now()), s, Now(), addr);
        } else {
          nextPage := BaseOf(cfg, mem[pt][index]);
        }
        AtTable(cfg, Now(), pool, a, addr, i, cur);
        WalkingStep(cfg, Now(), a, addr, i, cur);
        cur := nextPage;
        i := i + 1;
      }
    }

    /** `*ptentry = e` */
    method Write(pt: nat, index: nat, e: nat)
      requires pt in mem && index < |mem[pt]|
      modifies `mem
      ensures Now() == Stored(old(Now()), pt, index, e)
    {
      var row: seq<nat> := mem[pt][index := e];
      mem := mem[pt := row];
    }

    /** What `map` does with the entry it has walked to. */
    method SetEntry(ghost a: nat, ghost va: nat, pa: nat, prot: nat, pt: nat, index: nat) returns (out: Outcome)
      requires Valid() && Live(Now(), a)
      requires IsPage(cfg, va) && pa < Pow2(cfg.width) && pa % PGSIZE == 0
      requires Walking(cfg, Now(), a, va, cfg.levels, pt) && index == IndexOf(cfg, va, cfg.levels)
      modifies `mem
      ensures Evolved(cfg, old(Now()), pool, Now(), pool)
      ensures out == Panic(NotMapped) <==> prot == MMAP_NONE && (a, va) !in old(Spaces())
      ensures out == Panic(AlreadyMapped) <==> prot != MMAP_NONE && (a, va) in old(Spaces())
      ensures out.Panic? ==> out.reason in {NotMapped, AlreadyMapped} && Spaces() == old(Spaces())
      ensures out.Done? ==> Complete(cfg, mem, a, va)
      ensures out.Done? ==> Spaces() == Updated(old(Spaces()), (a, va), Requested(pa, prot))
    {
      hide Ready, Walking, Complete, Present, IndexOf, Pte, Geometry, ViewOf, Live, Updated, Evolved, Requested, IsPage,
        Stored, Writes, Pow2;
      AreasExist(cfg, Now(), pool);
      EntrySet(cfg, Now(), pool, a, va, pa, prot, pt, index);
      if prot == MMAP_NONE {
        if !Present(cfg, mem[pt][index]) {
          return Panic(NotMapped);
        }
        Write(pt, index, 0);
      } else {
        if Present(cfg, mem[pt][index]) {
          return Panic(AlreadyMapped);
        }
        var pte := Pte(cfg, Pte(cfg, Pte(cfg, pa, PTE_P), PTE_U), if Writes(prot) then PTE_W else 0);
        Write(pt, index, pte);
      }
      return Done;
    }

    /** Adds or removes one page of one address space. */
    method Map(a: nat, va: nat, pa: nat, prot: nat) returns (out: Outcome)
      requires Valid() && Live(Now(), a) && va < Pow2(cfg.width) && pa < Pow2(cfg.width)
      modifies `mem, `pool, `owner
      ensures Evolved(cfg, old(Now()), old(pool), Now(), pool)
      ensures out == Panic(InvalidAddress) <==> !cfg.InUser(va)
      ensures out == Panic(NotAligned) <==> cfg.InUser(va) && (va % PGSIZE != 0 || pa % PGSIZE != 0)
      ensures out == Panic(NoPage) <==> Proper(cfg, va, pa) && !old(Enough(a, va))
      ensures out == Panic(NotMapped) <==>
        Proper(cfg, va, pa) && old(Enough(a, va)) && prot == MMAP_NONE && (a, va) !in old(Spaces())
      ensures out == Panic(AlreadyMapped) <==>
        Proper(cfg, va, pa) && old(Enough(a, va)) && prot != MMAP_NONE && (a, va) in old(Spaces())
      ensures out.Panic? ==> Spaces() == old(Spaces())
      ensures out.Done? ==> ((a, va) in old(Spaces()) <==> prot == MMAP_NONE)
      ensures out.Done? ==> Spaces() == Updated(old(Spaces()), (a, va), Requested(pa, prot))
      ensures out.Done? ==> Remapped(old(Spaces()), Spaces(), a, va, pa, prot)
    {
      hide Remapped, Sound, Ready, Grew, MayWalk, Walking, Complete, Present, BaseOf, IndexOf, Pte, Owned, Geometry,
        ViewOf, Live, KernelKept, Updated, SameLive, Evolved, IsPage, KernelIndex, Requested, Pow2, PoolFits, Leaf,
        Absent, Enough;
      AreasExist(cfg, Now(), pool);
      if !cfg.InUser(va) {
        EvolvedRefl(cfg, Now(), pool);
        return Panic(InvalidAddress);
      }
      PageAligned(cfg, va);
      PageAligned(cfg, pa);
      if va != BaseOf(cfg, va) || pa != BaseOf(cfg, pa) {
        EvolvedRefl(cfg, Now(), pool);
        return Panic(NotAligned);
      }
      UserPage(cfg, Now(), pool, a, va);
      ghost var s0, p0 := Now(), pool;
      var pt, index, ok := PtWalk(a, va, PTE_W + PTE_U);
      ghost var s1, p1 := Now(), pool;
      GrewKeeps(cfg, s0, s1, p0, p1, a);
      if !ok {
        return Panic(NoPage);
      }
      out := SetEntry(a, va, pa, prot, pt, index);
      EvolvedTrans(cfg, s0, p0, s1, p1, Now(), pool);
      if out.Panic? {
        return;
      }
      EvolvedReady(cfg, s0, p0, Now(), pool, a);
      UserWalk(cfg, Now(), pool, a, va);
      RequestRemaps(ViewOf(cfg, s0), a, va, pa, prot);
      pt, index, ok := PtWalk(a, va, PTE_W + PTE_U);
    }

    /** The inner loop of `protect`: the level-1 entries of one area. */
    method CopyArea(upt: nat, i: nat)
      requires Layout(cfg) && i < |cfg.areas| && cfg.areas[i].kernel
      requires upt in mem && kpt in mem && upt != kpt && Copied(cfg, mem[upt], mem[kpt], i, 0)
      modifies `mem
      ensures upt in mem && mem == old(mem)[upt := mem[upt]] && Copied(cfg, mem[upt], mem[kpt], i + 1, 0)
    {
      assert Geometry(cfg);
      hide Layout, Geometry, IndexOf, Visited, Steps, Pow2, Covered;
      ghost var k: nat := 0;
      var cur := cfg.areas[i].start;
      AreaLoop(cfg, i, k);
      while cur != cfg.areas[i].end
        invariant k <= Steps(cfg, cfg.areas[i], Pow2(cfg.shift[1]))
          && cur == Visited(cfg, cfg.areas[i], Pow2(cfg.shift[1]), k)
        invariant upt in mem && mem == old(mem)[upt := mem[upt]] && Copied(cfg, mem[upt], mem[kpt], i, k)
        decreases Steps(cfg, cfg.areas[i], Pow2(cfg.shift[1])) - k
      {
        AreaLoop(cfg, i, k);
        var index := IndexOf(cfg, cur, 1);
        ghost var row := mem[upt];
        Write(upt, index, mem[kpt][index]);
        CopiedNext(cfg, row, mem[kpt], i, k, mem[upt], index);
        cur := (cur + Pow2(cfg.shift[1])) % Pow2(cfg.width);
        k := k + 1;
      }
      AreaLoop(cfg, i, k);
      CopiedArea(cfg, mem[upt], mem[kpt], i, k);
    }

    /** The outer loop: all areas of the kernel. */
    method CopyKernel(upt: nat)
      requires Layout(cfg) && upt in mem && kpt in mem && upt != kpt && |mem[kpt]| == cfg.Size(1)
      requires mem[upt] == Zeros(cfg.Size(1))
      modifies `mem
      ensures upt in mem && mem == old(mem)[upt := mem[upt]] && Copied(cfg, mem[upt], mem[kpt], |cfg.areas|, 0)
    {
      CopiedInit(cfg, mem[kpt]);
      assert Geometry(cfg);
      hide Layout, Geometry, IndexOf, Visited, Steps, Pow2, Covered, Copied;
      var i := 0;
      while i < |cfg.areas|
        invariant i <= |cfg.areas| && upt in mem && mem == old(mem)[upt := mem[upt]]
        invariant Copied(cfg, mem[upt], mem[kpt], i, 0)
      {
        if cfg.areas[i].kernel {
          CopyArea(upt, i);
        } else {
          CopiedArea(cfg, mem[upt], mem[kpt], i, 0);
        }
        i := i + 1;
      }
    }

    /** A new address space at slot `a`: its level-1 table gets copies of the kernel's entries. */
    method Protect(a: nat) returns (out: Outcome)
      requires Valid() && FreeSlot(Now(), pool, a)
      modifies `mem, `pool, `owner
      ensures out == Panic(NoPage) <==> old(pool) == {}
      ensures out.Panic? ==> out == Panic(NoPage) && Now() == old(Now()) && pool == old(pool)
      ensures out.Done? ==>
        && Valid() && KernelKept(old(Now()), Now())
        && (forall u :: Live(Now(), u) <==> old(Live(Now(), u)) || u == a)
        && Spaces() == old(Spaces()) + KernelView(cfg, a)
        && pool + Owned(Now()) == old(pool + Owned(Now()))
    {
      hide Layout, Sound, Ready, Present, BaseOf, UserBit, Writable, Pte, Owned, Geometry, ViewOf, Live, KernelKept,
        KernelView, Zeros, KernelIndex, FreeSlot, Copied, PoolFits;
      RootTable(cfg, Now(), pool);
      ghost var s, p := Now(), pool;
      var upt := PgAllocZ();
      if upt == 0 {
        return Panic(NoPage);
      }
      FreshPage(cfg, s, p, a, upt);
      CopyKernel(upt);
      ProtectDone(cfg, s, p, a, upt, mem[upt]);
      var e := Pte(cfg, Pte(cfg, upt, PTE_P), PTE_U);
      mem := mem[a := [e]];
      owner := owner[upt := Node(a, [0], a)][a := Node(a, [], a)];
      assert Now() == Protected(s, a, upt, mem[upt], e);
      return Done;
    }

    /** `pgfree`: a page that is in use, and so not already free. */
    method PgFree(page: nat)
      requires page in mem && page !in pool
      modifies `mem, `pool
      ensures pool == old(pool) + {page} && mem == old(mem) - {page}
    {
      pool := pool + {page};
      mem := mem - {page};
    }

    /**
     * Frees the tables below `pt`, and `pt` itself unless it is a slot. `s` and `p` are the tables and the pool when
     * the teardown of the whole address space began, `gone` the pages freed since.
     */
    method Teardown(level: nat, pt: nat, ghost s: Trees, ghost p: set<nat>, ghost gone: set<nat>)
      requires Geometry(cfg) && WellFormed(cfg, s) && Freed(s, p, gone, mem, pool)
      requires level <= cfg.levels ==> Tearable(s, p, gone, pt, level)
      modifies `mem, `pool
      ensures level <= cfg.levels ==> Freed(s, p, gone + Below(s, pt), mem, pool)
      ensures level > cfg.levels ==> mem == old(mem) && pool == old(pool)
      decreases cfg.levels + 1 - level
    {
      if level > cfg.levels {
        return;
      }
      TeardownStart(cfg, s, p, gone, pt, level);
      hide WellFormed, Geometry, Present, UserBit, Writable, BaseOf, Below, BelowFirst, Freed, Tearable;
      ghost var g := gone;
      for index := 0 to cfg.Size(level)
        invariant g == gone + BelowFirst(s, pt, index) && Freed(s, p, g, mem, pool)
      {
        TeardownTurn(cfg, s, p, gone, pt, level, index, mem, pool);
        if Present(cfg, mem[pt][index]) && UserBit(cfg, mem[pt][index]) {
          Teardown(level + 1, BaseOf(cfg, mem[pt][index]), s, p, g);
        }
        g := gone + BelowFirst(s, pt, index + 1);
      }
      TeardownEnd(cfg, s, p, gone, pt, level, mem, pool);
      if level >= 1 {
        PgFree(pt);
      }
    }

    /** All table pages of the address space at slot `a` are freed, each once, and nothing else is. */
    method Unprotect(a: nat)
      requires Valid() && Live(Now(), a)
      modifies `mem, `pool, `owner
      ensures Valid() && KernelKept(old(Now()), Now())
      ensures pool == old(pool) + Pages(old(Now()), a) && old(pool) !! Pages(old(Now()), a)
      ensures Owned(Now()) == old(Owned(Now())) - Pages(old(Now()), a)
      ensures mem == old(mem) - Pages(old(Now()), a)
      ensures Spaces() == Dropped(old(Spaces()), a)
      ensures forall u :: Live(Now(), u) <==> old(Live(Now(), u)) && u != a
    {
      hide Layout, Sound, Ready, Owned, Geometry, ViewOf, Live, KernelKept, PoolFits, WellFormed, OthersOf, Dropped,
        Pages, Below, KernelReady, Tearable;
      ghost var s, p := Now(), pool;
      PruneFacts(cfg, s, p, a);
      PruneReady(cfg, s, p, a);
      SlotFacts(cfg, s, p, a);
      Teardown(0, a, s, p, {});
      assert {} + Below(s, a) == Pages(s, a);
      owner := OthersOf(owner, a);
    }

    /** One page of the kernel's identity mapping. */
    method MapKernelPage(a: nat, cur: nat, ghost i: nat, ghost k: nat) returns (ok: bool)
      requires a == kernel && Building(cfg, Now(), pool, i, k) && Charted(cfg, Now(), i, k)
      requires KernelVisit(cfg, i, k) && cur == Visited(cfg, cfg.areas[i], PGSIZE, k)
      modifies `mem, `pool, `owner
      ensures ok ==> Building(cfg, Now(), pool, i, k + 1) && Charted(cfg, Now(), i, k + 1)
      ensures !ok ==> |Owned(Now())| < |KernelPaths(cfg)| && pool == {}
      ensures pool + Owned(Now()) == old(pool + Owned(Now()))
    {
      hide Building, Sound, Geometry, Layout, MayWalk, Walking, Pte, IndexOf, Visited, KernelVisit, Grew, Owned, Stored,
        Leaf, Complete, WellFormed, Alone, Charted, AddedFor, Blocked, KernelPaths, Enough, Reached;
      BuildingFacts(cfg, Now(), pool, i, k);
      VisitedRange(cfg, i, k);
      ghost var s, p := Now(), pool;
      var pt, index;
      pt, index, ok := PtWalk(a, cur, PTE_W);
      if ok {
        BuildingWalked(cfg, s, p, Now(), pool, i, k);
        BuildingFacts(cfg, Now(), pool, i, k);
        AtTable(cfg, Now(), pool, a, cur, cfg.levels, pt);
        BuildingTurn(cfg, Now(), pool, i, k, cur, pt);
        StoredOwned(Now(), pt, index, Pte(cfg, Pte(cfg, cur, PTE_P), PTE_W));
        ChartedWalk(cfg, s, Now(), i, k, cur, pt, index, Pte(cfg, Pte(cfg, cur, PTE_P), PTE_W));
        Write(pt, index, Pte(cfg, Pte(cfg, cur, PTE_P), PTE_W));
      } else {
        WalkShort(cfg, s, Now(), p, pool, i, k, cur);
      }
    }

    /** The loop of `vme_init` over the pages of one area, which may wrap around to its end. */
    method MapKernelArea(a: nat, i: nat) returns (ok: bool)
      requires a == kernel && Building(cfg, Now(), pool, i, 0) && i < |cfg.areas| && cfg.areas[i].kernel
      requires Charted(cfg, Now(), i, 0)
      modifies `mem, `pool, `owner
      ensures ok ==> Building(cfg, Now(), pool, i + 1, 0) && Charted(cfg, Now(), i + 1, 0)
      ensures !ok ==> |Owned(Now())| < |KernelPaths(cfg)| && pool == {}
      ensures pool + Owned(Now()) == old(pool + Owned(Now()))
    {
      hide Building, Layout, Visited, Steps, Pow2, Owned, Charted, KernelPaths, Geometry;
      ghost var k: nat := 0;
      var cur := cfg.areas[i].start;
      BuildingFacts(cfg, Now(), pool, i, k);
      PageLoop(cfg, Now(), pool, i, k);
      while cur != cfg.areas[i].end
        invariant k <= Steps(cfg, cfg.areas[i], PGSIZE) && cur == Visited(cfg, cfg.areas[i], PGSIZE, k)
        invariant Building(cfg, Now(), pool, i, k) && Charted(cfg, Now(), i, k)
        invariant pool + Owned(Now()) == old(pool + Owned(Now()))
        decreases Steps(cfg, cfg.areas[i], PGSIZE) - k
      {
        PageLoop(cfg, Now(), pool, i, k);
        ok := MapKernelPage(a, cur, i, k);
        if !ok {
          return;
        }
        cur := (cur + PGSIZE) % Pow2(cfg.width);
        k := k + 1;
      }
      PageLoop(cfg, Now(), pool, i, k);
      BuildingArea(cfg, Now(), pool, i, k);
      ChartedArea(cfg, Now(), i, k);
      ok := true;
    }

    /**
     * Builds the kernel's tree from the slot `a` and remembers its level-1 table. That takes a page for every table on
     * the way to a page of the kernel.
     */
    method VmeInit(a: nat) returns (out: Outcome)
      requires Layout(cfg) && owner == map[] && mem == map[] && PoolFits(cfg, Now(), pool) && a !in pool
      modifies this
      ensures out.Done? ==> Valid() && kernel == a && Spaces() == imap[] && forall u :: !Live(Now(), u)
      ensures out.Done? ==> forall addr: nat :: IsPage(cfg, addr) ==>
        Translate(cfg, Now(), a, addr) == if KernelPage(cfg, addr) then Some(Mapping(addr, true, false)) else None
      ensures out.Panic? ==> out == Panic(NoPage) && pool == {}
      ensures out.Done? <==> |old(pool)| >= |KernelPaths(cfg)|
      ensures pool + Owned(Now()) == old(pool)
    {
      hide Building, Layout, Owned, Ready, Geometry, Live, ViewOf, Charted, KernelPaths, Translate, IsPage, KernelPage;
      LayoutGeometry(cfg);
      StartInit(cfg, Now(), pool, a);
      ghost var pages := pool;
      mem := map[a := [0]];
      owner, kernel := map[a := Node(a, [], a)], a;
      ChartedInit(cfg, Now(), a);
      var i := 0;
      while i < |cfg.areas|
        invariant i <= |cfg.areas| && a == kernel
        invariant Building(cfg, Now(), pool, i, 0) && Charted(cfg, Now(), i, 0) && pool + Owned(Now()) == old(pool)
      {
        if cfg.areas[i].kernel {
          var ok := MapKernelArea(a, i);
          if !ok {
            assert Owned(Now()) == pages;
            return Panic(NoPage);
          }
        } else {
          BuildingArea(cfg, Now(), pool, i, 0);
          ChartedArea(cfg, Now(), i, 0);
        }
        i := i + 1;
      }
      ChartedAll(cfg, Now(), pool);
      SmallerSet(Owned(Now()), pages);
      BuildingDone(cfg, Now(), pool);
      NoView(cfg, Now(), pool);
      kpt := BaseOf(cfg, mem[a][0]);
      return Done;
    }
  }

  /** A completed walk and the write at its end add the tables on the way of one more page. */
  lemma ChartedWalk(c: Config, s: Trees, s': Trees, i: nat, k: nat, cur: nat, pt: nat, index: nat, e: nat)
    requires Geometry(c) && Charted(c, s, i, k) && KernelVisit(c, i, k) && cur == Visited(c, c.areas[i], PGSIZE, k)
    requires AddedFor(c, s, s', cur) && WellFormed(c, s') && Walking(c, s', s'.kernel, cur, c.levels, pt)
    requires index < |s'.mem[pt]|
    ensures Charted(c, Stored(s', pt, index, e), i, k + 1)
  {
    hide Geometry, Charted, KernelVisit, Visited, AddedFor, WellFormed, Reached, IndexOf;
    ReachedUp(c, s', s'.kernel, cur, c.levels, pt);
    ChartedTurn(c, s, s', i, k, cur);
    ChartedOwner(c, s', Stored(s', pt, index, e), i, k + 1);
  }

  lemma ChartedOwner(c: Config, s: Trees, s': Trees, i: nat, k: nat)
    requires Geometry(c) && Charted(c, s, i, k) && s'.owner == s.owner
    ensures Charted(c, s', i, k)
  {
    hide Geometry, PathMet;
  }

  /** A walk that fails shows that there are fewer pages than tables needed. */
  lemma WalkShort(c: Config, s: Trees, s': Trees, pool: set<nat>, pool': set<nat>, i: nat, k: nat, cur: nat)
    requires Geometry(c) && Building(c, s, pool, i, k) && Sound(c, s', pool') && Charted(c, s, i, k)
    requires KernelVisit(c, i, k) && cur == Visited(c, c.areas[i], PGSIZE, k)
    requires AddedFor(c, s, s', cur) && Grew(c, s, s', s.kernel) && Blocked(c, s', s.kernel, cur)
    ensures |Owned(s')| < |KernelPaths(c)|
  {
    SoundParts(c, s', pool');
    BuildingWalked(c, s, pool, s', pool', i, k);
    BuildingFacts(c, s', pool', i, k);
    hide *;
    BlockedShort(c, s, s', i, k, cur);
    CountTables(c, s');
  }

  lemma LayoutGeometry(c: Config)
    requires Layout(c)
    ensures Geometry(c)
  {
  }

  lemma SoundParts(c: Config, s: Trees, pool: set<nat>)
    requires Sound(c, s, pool)
    ensures Layout(c) && Geometry(c) && WellFormed(c, s)
  {
    hide WellFormed, SlotsReady, PoolFits;
  }

  lemma ChartedAll(c: Config, s: Trees, pool: set<nat>)
    requires Building(c, s, pool, |c.areas|, 0) && Charted(c, s, |c.areas|, 0)
    ensures |Owned(s)| == |KernelPaths(c)|
  {
    BuildingFacts(c, s, pool, |c.areas|, 0);
    hide *;
    ChartedDone(c, s);
    CountTables(c, s);
  }

  lemma TableAdded(c: Config, s: Trees, a: nat, addr: nat, i: nat, pt: nat, page: nat, s': Trees)
    requires Geometry(c) && Walking(c, s, a, addr, i, pt) && i < c.levels && page !in s.owner
    requires s'.owner == s.owner[page := Node(a, s.owner[pt].path + [IndexOf(c, addr, i)], pt)]
    ensures AddedFor(c, s, s', addr)
  {
    hide Geometry, IndexOf;
    Lengths(c);
    assert Path(c, addr, i + 1) == Path(c, addr, i) + [IndexOf(c, addr, i)];
  }

  lemma SlotFacts(c: Config, s: Trees, pool: set<nat>, a: nat)
    requires Ready(c, s, pool) && Live(s, a)
    ensures Tearable(s, pool, {}, a, 0) && Freed(s, pool, {}, s.mem, pool)
    ensures Below(s, a) == Pages(s, a)
  {
    hide Ready, WellFormed, KernelMapped, SlotsReady, Layout, Below, Pages, Geometry, Owned;
    PruneFacts(c, s, pool, a);
    ShapeAt(c, s, a);
    BelowSlot(c, s, a);
    SlotTree(c, s, pool, a);
  }

  lemma SlotTree(c: Config, s: Trees, pool: set<nat>, a: nat)
    requires Ready(c, s, pool) && Live(s, a) && s.owner[a].root == a
    ensures Owned(s) !! pool && s.mem - {} == s.mem && pool + {} == pool
  {
    hide WellFormed, KernelMapped, SlotsReady, Layout, Below, Pages;
  }

  lemma VisitedRange(c: Config, i: nat, k: nat)
    requires Layout(c) && KernelVisit(c, i, k)
    ensures Visited(c, c.areas[i], PGSIZE, k) < Pow2(c.width)
  {
    ModRange(c.areas[i].start + k * PGSIZE, Pow2(c.width));
  }

  lemma StoredOwned(s: Trees, pt: nat, j: nat, v: nat)
    requires pt in s.mem && j < |s.mem[pt]|
    ensures Owned(Stored(s, pt, j, v)) == Owned(s)
  {
  }

  /** One turn of the loop over an area's pages. */
  lemma PageLoop(c: Config, s: Trees, pool: set<nat>, i: nat, k: nat)
    requires Building(c, s, pool, i, k) && i < |c.areas| && c.areas[i].kernel && k <= Steps(c, c.areas[i], PGSIZE)
    ensures var area := c.areas[i];
      && Visited(c, area, PGSIZE, 0) == area.start
      && (Visited(c, area, PGSIZE, k) == area.end <==> k == Steps(c, area, PGSIZE))
      && Visited(c, area, PGSIZE, k + 1) == (Visited(c, area, PGSIZE, k) + PGSIZE) % Pow2(c.width)
      && (k < Steps(c, area, PGSIZE) ==> KernelVisit(c, i, k))
  {
    BuildingFacts(c, s, pool, i, k);
    assert WholeSteps(c, c.areas[i]);
    VisitNext(c, c.areas[i], PGSIZE, k);
  }

  lemma StartInit(c: Config, s: Trees, pool: set<nat>, a: nat)
    requires Layout(c) && PoolFits(c, s, pool) && a !in pool
    ensures Building(c, Empty(a, s.kpt), pool, 0, 0) && Owned(Empty(a, s.kpt)) == {}
    ensures pool + Owned(Empty(a, s.kpt)) == pool
  {
    BuildingInit(c, pool, a, s.kpt);
  }

  lemma NoView(c: Config, s: Trees, pool: set<nat>)
    requires s.kernel in s.mem && |s.mem[s.kernel]| == 1 && c.width >= 12
    requires Ready(c, s.(kpt := BaseOf(c, s.mem[s.kernel][0])), pool) && forall u :: !Live(s, u)
    ensures var s' := s.(kpt := BaseOf(c, s.mem[s.kernel][0]));
      && Geometry(c) && ViewOf(c, s') == imap[] && Owned(s') == Owned(s) && (forall u :: !Live(s', u))
      && forall addr: nat :: IsPage(c, addr) ==>
           Translate(c, s', s.kernel, addr) == if KernelPage(c, addr) then Some(Mapping(addr, true, false)) else None
  {
    var s' := s.(kpt := BaseOf(c, s.mem[s.kernel][0]));
    hide Ready, Geometry, Entry, IsPage, KernelPage, Translate;
    AreasExist(c, s', pool);
    ReadyParts(c, s', pool);
    forall addr: nat | IsPage(c, addr)
      ensures Translate(c, s', s.kernel, addr) == if KernelPage(c, addr) then Some(Mapping(addr, true, false)) else None
    {
      KernelTree(c, s', addr);
    }
    assert forall u :: !Live(s', u) by {
      assert forall u :: Live(s', u) ==> Live(s, u);
    }
  }

  /** What writing the entry of a page means, and what the entry says before. */
  lemma EntrySet(c: Config, s: Trees, pool: set<nat>, a: nat, va: nat, pa: nat, prot: nat, pt: nat, index: nat)
    requires Ready(c, s, pool) && Live(s, a) && Geometry(c)
    requires IsPage(c, va) && pa < Pow2(c.width) && pa % PGSIZE == 0
    requires Walking(c, s, a, va, c.levels, pt) && index == IndexOf(c, va, c.levels)
    ensures pt in s.mem && index < |s.mem[pt]| && c.width >= 13
    ensures Present(c, s.mem[pt][index]) <==> (a, va) in ViewOf(c, s)
    ensures Evolved(c, s, pool, s, pool)
    ensures var e := if prot == MMAP_NONE then 0
        else Pte(c, Pte(c, Pte(c, pa, PTE_P), PTE_U), if Writes(prot) then PTE_W else 0);
      var s' := Stored(s, pt, index, e);
      && Evolved(c, s, pool, s', pool) && Complete(c, s'.mem, a, va)
      && ViewOf(c, s') == Updated(ViewOf(c, s), (a, va), Requested(pa, prot))
  {
    AreasExist(c, s, pool);
    hide Ready, Live, IsPage, Walking, IndexOf, Pte, Geometry, Evolved, ViewOf, Present, Complete, Updated, Decode,
      Writes;
    MappedEntry(c, s, pool, a, va, pt);
    EvolvedRefl(c, s, pool);
    PagePte(c, pa, Writes(prot));
    WritesExactly(prot);
    var e := if prot == MMAP_NONE then 0
             else Pte(c, Pte(c, Pte(c, pa, PTE_P), PTE_U), if Writes(prot) then PTE_W else 0);
    MapDone(c, s, pool, a, va, pt, e, Requested(pa, prot));
  }

  /** Of the state `s`, `p` exactly the pages in `gone` have been freed. */
  ghost predicate Freed(s: Trees, p: set<nat>, gone: set<nat>, mem: Memory, pool: set<nat>) {
    mem == s.mem - gone && pool == p + gone
  }

  /** `pt` is a table of an address space on that level, and nothing of what hangs below it has been freed. */
  ghost predicate Tearable(s: Trees, p: set<nat>, gone: set<nat>, pt: nat, level: nat) {
    && pt in s.owner && |s.owner[pt].path| == level && s.owner[pt].root != s.kernel
    && Below(s, pt) + {pt} !! gone && Owned(s) !! p
  }

  lemma TeardownStart(c: Config, s: Trees, p: set<nat>, gone: set<nat>, pt: nat, level: nat)
    requires Geometry(c) && WellFormed(c, s) && Tearable(s, p, gone, pt, level)
    ensures pt in s.owner && level <= c.levels && |c.bits| == c.levels + 1 && c.width >= 12
    ensures BelowFirst(s, pt, 0) == {} && gone + BelowFirst(s, pt, 0) == gone
  {
    ShapeAt(c, s, pt);
    hide WellFormed;
  }

  lemma TeardownTurn(c: Config, s: Trees, p: set<nat>, gone: set<nat>, pt: nat, level: nat, index: nat,
                     mem: Memory, pool: set<nat>)
    requires Geometry(c) && WellFormed(c, s) && Tearable(s, p, gone, pt, level) && level <= c.levels
      && index < c.Size(level)
    requires pt in s.owner && Freed(s, p, gone + BelowFirst(s, pt, index), mem, pool)
    ensures pt in mem && index < |mem[pt]| && |c.bits| == c.levels + 1
    ensures Present(c, mem[pt][index]) && UserBit(c, mem[pt][index]) && level < c.levels ==>
      && Tearable(s, p, gone + BelowFirst(s, pt, index), BaseOf(c, mem[pt][index]), level + 1)
      && gone + BelowFirst(s, pt, index) + Below(s, BaseOf(c, mem[pt][index])) == gone + BelowFirst(s, pt, index + 1)
    ensures !(Present(c, mem[pt][index]) && UserBit(c, mem[pt][index]) && level < c.levels) ==>
      BelowFirst(s, pt, index) == BelowFirst(s, pt, index + 1)
  {
    ShapeAt(c, s, pt);
    hide WellFormed, Present, BaseOf, UserBit, Writable, Below, BelowFirst;
    BelowHere(c, s, pt, index);
  }

  lemma TeardownEnd(c: Config, s: Trees, p: set<nat>, gone: set<nat>, pt: nat, level: nat, mem: Memory, pool: set<nat>)
    requires Geometry(c) && WellFormed(c, s) && Tearable(s, p, gone, pt, level) && level <= c.levels
    requires pt in s.owner && Freed(s, p, gone + BelowFirst(s, pt, c.Size(level)), mem, pool)
    ensures level == 0 ==> Freed(s, p, gone + Below(s, pt), mem, pool)
    ensures level > 0 ==> pt in mem && pt !in pool && Freed(s, p, gone + Below(s, pt), mem - {pt}, pool + {pt})
  {
    TableSize(c, s, pt);
    BelowAll(c, s, pt);
    hide WellFormed, Geometry, BelowFirst, Below;
    assert level > 0 ==> pt in Owned(s);
    FreedOne(s, p, gone, BelowFirst(s, pt, c.Size(level)), pt, mem, pool);
  }

  lemma TableSize(c: Config, s: Trees, t: nat)
    requires Geometry(c) && WellFormed(c, s) && t in s.owner && |s.owner[t].path| <= c.levels
    ensures |c.bits| == c.levels + 1 && t in s.mem && |s.mem[t]| == c.Size(|s.owner[t].path|)
  {
    ShapeAt(c, s, t);
    hide WellFormed;
  }

  lemma FreedOne(s: Trees, p: set<nat>, gone: set<nat>, below: set<nat>, t: nat, mem: Memory, pool: set<nat>)
    requires Freed(s, p, gone + below, mem, pool)
    ensures Freed(s, p, gone + (below + {}), mem, pool)
    ensures Freed(s, p, gone + (below + {t}), mem - {t}, pool + {t})
    ensures t in s.mem && t !in gone && t !in below ==> t in mem
    ensures t !in p && t !in gone && t !in below ==> t !in pool
  {
    assert gone + (below + {}) == gone + below && gone + (below + {t}) == gone + below + {t};
    assert s.mem - (gone + below + {t}) == mem - {t};
  }

  lemma FreshPage(c: Config, s: Trees, pool: set<nat>, a: nat, upt: nat)
    requires PoolFits(c, s, pool) && FreeSlot(s, pool, a) && upt in pool
    ensures upt !in s.mem && upt != a
  {
  }

  lemma RootTable(c: Config, s: Trees, pool: set<nat>)
    requires Ready(c, s, pool)
    ensures Layout(c) && Geometry(c) && PoolFits(c, s, pool) && s.kpt in s.mem
      && |s.mem[s.kpt]| == c.Size(1) == PGSIZE / (c.width / 8)
    ensures c.width >= 13
  {
    ShapeAt(c, s, s.kpt);
    hide WellFormed, KernelMapped, SlotsReady, PoolFits;
  }

  /** What `protect` writes to the slot, and what follows. */
  lemma ProtectDone(c: Config, s: Trees, pool: set<nat>, a: nat, upt: nat, row: seq<nat>)
    requires Ready(c, s, pool) && FreeSlot(s, pool, a) && upt in pool
    requires s.kpt in s.mem && Geometry(c) && Copied(c, row, s.mem[s.kpt], |c.areas|, 0)
    ensures var s' := Protected(s, a, upt, row, Pte(c, Pte(c, upt, PTE_P), PTE_U));
      && Ready(c, s', pool - {upt}) && KernelKept(s, s')
      && ViewOf(c, s') == ViewOf(c, s) + KernelView(c, a)
      && (forall u :: Live(s', u) <==> Live(s, u) || u == a)
      && pool - {upt} + Owned(s') == pool + Owned(s)
  {
    RootTable(c, s, pool);
    CopiedAll(c, row, s.mem[s.kpt]);
    UserPte(c, upt);
    hide *;
    ProtectReady(c, s, pool, a, upt, row, Pte(c, Pte(c, upt, PTE_P), PTE_U));
  }

  lemma UserPte(c: Config, page: nat)
    requires c.width >= 13 && page % PGSIZE == 0 && page < Pow2(c.width)
    ensures var e := Pte(c, Pte(c, page, PTE_P), PTE_U);
      e < Pow2(c.width) && Present(c, e) && UserBit(c, e) && BaseOf(c, e) == page
  {
    FlagSums();
    OrFlags(c, page, 0, PTE_P);
    OrFlags(c, page, 1, PTE_U);
    hide Pte, Present, BaseOf, UserBit, Writable;
    PteParts(c, page, 5);
  }

  /** One turn of the loop over an area's level-1 entries. */
  lemma AreaLoop(c: Config, i: nat, k: nat)
    requires Layout(c) && i < |c.areas| && c.areas[i].kernel && k <= Steps(c, c.areas[i], Pow2(c.shift[1]))
    ensures var area, step := c.areas[i], Pow2(c.shift[1]);
      && Visited(c, area, step, 0) == area.start
      && (Visited(c, area, step, k) == area.end <==> k == Steps(c, area, step))
      && Visited(c, area, step, k + 1) == (Visited(c, area, step, k) + step) % Pow2(c.width)
      && (k < Steps(c, area, step) ==> KernelStep(c, i, k))
      && IndexOf(c, Visited(c, area, step, k), 1) < c.Size(1)
  {
    assert WholeSteps(c, c.areas[i]);
    VisitNext(c, c.areas[i], Pow2(c.shift[1]), k);
    ModRange(c.areas[i].start + k * Pow2(c.shift[1]), Pow2(c.width));
    IndexBound(c, Visited(c, c.areas[i], Pow2(c.shift[1]), k), 1);
  }

  lemma PageAligned(c: Config, x: nat)
    requires c.width >= 12 && x < Pow2(c.width)
    ensures x == BaseOf(c, x) <==> x % PGSIZE == 0
  {
    RoundDown(c, x);
  }

  lemma UserPage(c: Config, s: Trees, pool: set<nat>, a: nat, va: nat)
    requires Ready(c, s, pool) && Live(s, a) && |c.areas| > 0 && c.InUser(va) && va % PGSIZE == 0
    ensures Sound(c, s, pool) && Geometry(c) && MayWalk(c, s, a, va) && IsPage(c, va) && a != s.kernel
  {
    UserWalk(c, s, pool, a, va);
  }

  lemma AreasExist(c: Config, s: Trees, pool: set<nat>)
    requires Ready(c, s, pool)
    ensures |c.areas| > 0 && c.width >= 13 && Geometry(c)
  {
    hide WellFormed, KernelMapped, SlotsReady, PoolFits;
  }
}
