/** The partial map from (address space, page) to (page, permission) that the tables represent. */
module Mappings {
  import opened Bits
  import opened Mmu
  import opened Options
  import opened PageTables
  import opened AddressSpaces
  import opened Translation

  type View = imap<(nat, nat), Mapping>

  /** All that the processor can find in the address spaces. */
  ghost function ViewOf(c: Config, s: Trees): View
    requires Geometry(c)
  {
    imap k: (nat, nat) | Live(s, k.0) && IsPage(c, k.1) && Translate(c, s, k.0, k.1).Some? ::
      Translate(c, s, k.0, k.1).value
  }

  /** The same by the last-level entries alone. */
  ghost function LastView(c: Config, s: Trees): View
    requires Geometry(c)
  {
    imap k: (nat, nat) | Live(s, k.0) && IsPage(c, k.1) && LastEntry(c, s, k.0, k.1).Some? ::
      LastEntry(c, s, k.0, k.1).value
  }

  /** The view with one page mapped anew, or not mapped any more. */
  ghost function Updated(v: View, k: (nat, nat), m: Option<Mapping>): View {
    match m
    case Some(p) => v[k := p]
    case None => imap x | x in v && x != k :: v[x]
  }

  /** The same address spaces are set up. */
  ghost predicate SameLive(s: Trees, s': Trees) {
    forall u :: Live(s', u) <==> Live(s, u)
  }

  ghost predicate Ready(c: Config, s: Trees, pool: set<nat>) {
    Sound(c, s, pool) && KernelReady(s) && KernelMapped(c, s)
  }

  /** No kernel table is written. */
  ghost predicate KernelKept(s: Trees, s': Trees) {
    && s'.kernel == s.kernel && s'.kpt == s.kpt
    && forall t :: t in s.owner && t in s.mem && s.owner[t].root == s.kernel ==>
         t in s'.owner && s'.owner[t] == s.owner[t] && t in s'.mem && s'.mem[t] == s.mem[t]
  }

  /** What every operation on an existing address space keeps: the invariant, the kernel's tables, and the pages. */
  ghost predicate Evolved(c: Config, s: Trees, pool: set<nat>, s': Trees, pool': set<nat>) {
    Ready(c, s', pool') && KernelKept(s, s') && SameLive(s, s') && pool' + Owned(s') == pool + Owned(s)
  }

  /** In every state that occurs the upper levels take no right away from a mapping that the last level gives. */
  lemma ViewsAgree(c: Config, s: Trees, pool: set<nat>)
    requires Ready(c, s, pool)
    ensures Geometry(c) && ViewOf(c, s) == LastView(c, s)
  {
    hide *;
    ReadyParts(c, s, pool);
    forall k: (nat, nat) | Live(s, k.0) && IsPage(c, k.1)
      ensures Translate(c, s, k.0, k.1) == LastEntry(c, s, k.0, k.1)
    {
      SlotAt(c, s, k.0);
      TranslateLast(c, s, k.0, k.1);
    }
    SameViews(c, s);
  }

  lemma ReadyParts(c: Config, s: Trees, pool: set<nat>)
    requires Ready(c, s, pool)
    ensures Geometry(c) && WellFormed(c, s) && SlotsReady(c, s) && KernelReady(s) && KernelMapped(c, s)
  {
    hide WellFormed, SlotsReady, KernelReady, KernelMapped, Geometry;
  }

  lemma SlotAt(c: Config, s: Trees, a: nat)
    requires Geometry(c) && SlotsReady(c, s) && Live(s, a)
    ensures a in s.owner && s.owner[a].path == [] && a in s.mem && |s.mem[a]| == 1 && Present(c, s.mem[a][0])
  {
    hide Present, Geometry;
  }

  lemma SameViews(c: Config, s: Trees)
    requires Geometry(c)
    requires forall k: (nat, nat) :: Live(s, k.0) && IsPage(c, k.1) ==>
      Translate(c, s, k.0, k.1) == LastEntry(c, s, k.0, k.1)
    ensures ViewOf(c, s) == LastView(c, s)
  {
    hide Live, IsPage, Translate, LastEntry, Geometry;
  }

  lemma EvolvedRefl(c: Config, s: Trees, pool: set<nat>)
    requires Ready(c, s, pool)
    ensures Evolved(c, s, pool, s, pool)
  {
    hide Ready;
  }

  lemma EvolvedTrans(c: Config, s0: Trees, p0: set<nat>, s1: Trees, p1: set<nat>, s2: Trees, p2: set<nat>)
    requires Evolved(c, s0, p0, s1, p1) && Evolved(c, s1, p1, s2, p2)
    ensures Evolved(c, s0, p0, s2, p2)
  {
    hide Ready;
  }

  lemma EvolvedReady(c: Config, s: Trees, pool: set<nat>, s': Trees, pool': set<nat>, a: nat)
    requires Evolved(c, s, pool, s', pool')
    ensures Ready(c, s', pool') && (Live(s, a) ==> Live(s', a))
    ensures pool' + Owned(s') == pool + Owned(s)
  {
    hide Ready;
  }

  /** A user page and the walk to its entry. */
  lemma UserWalk(c: Config, s: Trees, pool: set<nat>, a: nat, va: nat)
    requires Ready(c, s, pool) && Live(s, a) && |c.areas| > 0 && c.InUser(va)
    ensures Sound(c, s, pool) && Geometry(c) && MayWalk(c, s, a, va) && va < Pow2(c.shift[1] + c.bits[1])
      && a != s.kernel
  {
    hide IndexOf, Pow2, KernelIndex, WellFormed, KernelMapped, SlotsReady, PoolFits, Geometry;
    UserBounds(c, va);
  }

  lemma UserBounds(c: Config, va: nat)
    requires Layout(c) && c.InUser(va)
    ensures Geometry(c) && va < Pow2(c.width) && va < Pow2(c.shift[1] + c.bits[1]) && !KernelIndex(c, IndexOf(c, va, 1))
  {
    Powers(c, 1);
    hide IndexOf, Pow2, KernelIndex;
  }

  lemma GrewKeeps(c: Config, s: Trees, s': Trees, pool: set<nat>, pool': set<nat>, a: nat)
    requires Ready(c, s, pool) && Sound(c, s', pool') && Grew(c, s, s', a) && Live(s, a)
    requires pool' + Owned(s') == pool + Owned(s)
    ensures Evolved(c, s, pool, s', pool') && Live(s', a) && Ready(c, s', pool')
    ensures Geometry(c) && ViewOf(c, s') == ViewOf(c, s)
  {
    hide *;
    GrewLast(c, s, s', pool, pool', a);
    ViewsAgree(c, s, pool);
    ViewsAgree(c, s', pool');
  }

  lemma GrewLast(c: Config, s: Trees, s': Trees, pool: set<nat>, pool': set<nat>, a: nat)
    requires Ready(c, s, pool) && Sound(c, s', pool') && Grew(c, s, s', a) && Live(s, a)
    requires pool' + Owned(s') == pool + Owned(s)
    ensures Evolved(c, s, pool, s', pool') && LastView(c, s') == LastView(c, s) && Live(s', a) && Ready(c, s', pool')
  {
    LiveGeometry(c, s, pool, a);
    GrewLive(c, s, s', a);
    hide WellFormed, Entry, IsPage, KernelPage, Grew, LastView, KernelKept, SlotsReady, PoolFits, Layout, Geometry,
      KernelMapped, SameEntries, SameLive, Live, KernelReady;
    KernelMapFrame(c, s, s');
    ViewFrame(c, s, s');
  }

  lemma LiveGeometry(c: Config, s: Trees, pool: set<nat>, a: nat)
    requires Ready(c, s, pool) && Live(s, a)
    ensures Geometry(c) && WellFormed(c, s)
  {
    hide WellFormed, SlotsReady, PoolFits, KernelMapped;
  }

  lemma GrewLive(c: Config, s: Trees, s': Trees, a: nat)
    requires Geometry(c) && WellFormed(c, s) && KernelReady(s) && Grew(c, s, s', a) && Live(s, a)
    ensures KernelReady(s') && SameEntries(c, s, s') && KernelKept(s, s') && SameLive(s, s') && Live(s', a)
    ensures s.kernel in s.owner && s.owner[s.kernel].path == [] && s'.kernel == s.kernel
  {
    ShapeAt(c, s, a);
    hide WellFormed, Entry;
  }

  lemma KernelMapFrame(c: Config, s: Trees, s': Trees)
    requires Geometry(c) && KernelMapped(c, s) && s.kernel in s.owner && s.owner[s.kernel].path == []
      && s'.kernel == s.kernel
    requires SameEntries(c, s, s')
    ensures KernelMapped(c, s')
  {
    hide Entry;
  }

  lemma ViewFrame(c: Config, s: Trees, s': Trees)
    requires Geometry(c) && SameEntries(c, s, s') && SameLive(s, s')
    ensures LastView(c, s') == LastView(c, s)
  {
    hide Entry;
    forall k: (nat, nat) | Live(s, k.0)
      ensures LastEntry(c, s', k.0, k.1) == LastEntry(c, s, k.0, k.1)
    {
      assert Entry(c, s'.mem, k.0, 0, k.1) == Entry(c, s.mem, k.0, 0, k.1);
    }
  }

  /** Slot `a` is an address space's, or there are no address spaces yet. */
  ghost predicate Alone(s: Trees, a: nat) {
    && a in s.owner && s.owner[a].path == []
    && (a == s.kernel ==> forall t :: t in s.owner ==> s.owner[t].root == s.kernel)
  }

  /** Two walks that end at the same entry start at the same slot and are for the same page. */
  lemma SameSlot(c: Config, s: Trees, a: nat, va: nat, u: nat, addr: nat, pt: nat)
    requires Geometry(c) && WellFormed(c, s) && Alone(s, a) && IsPage(c, va) && IsPage(c, addr)
    requires Walking(c, s, a, va, c.levels, pt) && u in s.owner && s.owner[u].path == []
    requires Leaf(c, s.mem, u, 0, addr) == Some(pt) && IndexOf(c, addr, c.levels) == IndexOf(c, va, c.levels)
    ensures u == a && addr == va
  {
    ShapeAt(c, s, u);
    assert OnWay(c, s, u, 0, addr);
    WalkOk(c, s, u, 0, addr);
    assert u == a && Path(c, addr, c.levels) == Path(c, va, c.levels) by {
      hide WellFormed, KernelIndex, IndexOf, Present, BaseOf;
    }
    forall i | 1 <= i <= c.levels
      ensures IndexOf(c, addr, i) == IndexOf(c, va, i)
    {
      if i < c.levels {
        PathAt(c, addr, c.levels, i);
        PathAt(c, va, c.levels, i);
      }
    }
    SameIndices(c, addr, va);
  }

  lemma {:induction false} PathAt(c: Config, addr: nat, n: nat, i: nat)
    requires Geometry(c) && i < n <= c.levels
    ensures Path(c, addr, n)[i] == IndexOf(c, addr, i)
  {
    hide IndexOf;
    if i < n - 1 {
      PathAt(c, addr, n - 1, i);
    }
  }

  /** `map`'s write to the last-level entry. */
  lemma StoreReady(c: Config, s: Trees, pool: set<nat>, a: nat, va: nat, pt: nat, e: nat)
    requires Ready(c, s, pool) && Live(s, a) && IsPage(c, va) && e < Pow2(c.width)
    requires Walking(c, s, a, va, c.levels, pt)
    ensures pt in s.mem && IndexOf(c, va, c.levels) < |s.mem[pt]|
    ensures var s' := Stored(s, pt, IndexOf(c, va, c.levels), e);
      && Ready(c, s', pool) && KernelKept(s, s')
      && Entry(c, s'.mem, a, 0, va) == e
      && (forall u: nat, addr: nat ::
            u in s.owner && s.owner[u].path == [] && IsPage(c, addr) && (u != a || addr != va) ==>
            Entry(c, s'.mem, u, 0, addr) == Entry(c, s.mem, u, 0, addr))
  {
    var j := IndexOf(c, va, c.levels);
    var s' := Stored(s, pt, j, e);
    StoreKeeps(c, s, pt, j, e);
    StoreTranslations(c, s, a, va, pt, e);
    StoreKernel(c, s, a, va, pt, e);
    StoreSlots(c, s, a, va, pt, e);
    hide WellFormed, Entry, IndexOf, KernelIndex, Geometry, SlotsReady, KernelMapped, KernelKept;
    assert PoolFits(c, s', pool);
  }

  lemma StoreSlots(c: Config, s: Trees, a: nat, va: nat, pt: nat, e: nat)
    requires Geometry(c) && SlotsReady(c, s) && Walking(c, s, a, va, c.levels, pt) && Live(s, a)
    ensures SlotsReady(c, Stored(s, pt, IndexOf(c, va, c.levels), e))
    ensures KernelKept(s, Stored(s, pt, IndexOf(c, va, c.levels), e))
  {
    hide Present, IndexOf;
    var s' := Stored(s, pt, IndexOf(c, va, c.levels), e);
    forall u | Live(s', u)
      ensures u in s'.mem && |s'.mem[u]| == 1 && Present(c, s'.mem[u][0])
    {
      assert Live(s, u);
    }
  }

  lemma StoreKernel(c: Config, s: Trees, a: nat, va: nat, pt: nat, e: nat)
    requires Geometry(c) && WellFormed(c, s) && KernelMapped(c, s) && KernelReady(s)
    requires Live(s, a) && IsPage(c, va) && Walking(c, s, a, va, c.levels, pt)
    ensures KernelMapped(c, Stored(s, pt, IndexOf(c, va, c.levels), e))
  {
    StoreTranslations(c, s, a, va, pt, e);
    hide WellFormed, Entry, IndexOf, KernelIndex, IsPage, KernelPage;
    var s' := Stored(s, pt, IndexOf(c, va, c.levels), e);
    forall addr: nat | IsPage(c, addr)
      ensures Entry(c, s'.mem, s'.kernel, 0, addr) == if KernelPage(c, addr) then addr + PTE_P + PTE_W else 0
    {
      assert Entry(c, s'.mem, s.kernel, 0, addr) == Entry(c, s.mem, s.kernel, 0, addr);
    }
  }

  lemma StoreTranslations(c: Config, s: Trees, a: nat, va: nat, pt: nat, e: nat)
    requires Geometry(c) && WellFormed(c, s) && Alone(s, a) && IsPage(c, va) && Walking(c, s, a, va, c.levels, pt)
    ensures var s' := Stored(s, pt, IndexOf(c, va, c.levels), e);
      && Entry(c, s'.mem, a, 0, va) == e
      && (forall u: nat, addr: nat ::
            u in s.owner && s.owner[u].path == [] && IsPage(c, addr) && (u != a || addr != va) ==>
            Entry(c, s'.mem, u, 0, addr) == Entry(c, s.mem, u, 0, addr))
  {
    var j := IndexOf(c, va, c.levels);
    Climb(c, s, a, va, c.levels, pt);
    assert Leaf(c, s.mem, a, 0, va) == Some(pt);
    assert OnWay(c, s, a, 0, va);
    StoreEntry(c, s, pt, j, e, a, 0, va);
    hide WellFormed, Entry, Present, BaseOf, Writable, IndexOf, KernelIndex, Leaf;
    forall u: nat, addr: nat | u in s.owner && s.owner[u].path == [] && IsPage(c, addr) && (u != a || addr != va)
      ensures Entry(c, Stored(s, pt, j, e).mem, u, 0, addr) == Entry(c, s.mem, u, 0, addr)
    {
      assert OnWay(c, s, u, 0, addr);
      StoreEntry(c, s, pt, j, e, u, 0, addr);
      if Leaf(c, s.mem, u, 0, addr) == Some(pt) && IndexOf(c, addr, c.levels) == j {
        SameSlot(c, s, a, va, u, addr, pt);
      }
    }
  }

  /** Mapping and unmapping one page. */
  lemma StoreView(c: Config, s: Trees, s': Trees, a: nat, va: nat, e: nat, m: Option<Mapping>)
    requires Geometry(c) && IsPage(c, va) && Live(s, a) && s'.owner == s.owner && s'.kernel == s.kernel
    requires Entry(c, s'.mem, a, 0, va) == e && m == Decode(c, e)
    requires forall u: nat, addr: nat ::
      u in s.owner && s.owner[u].path == [] && IsPage(c, addr) && (u != a || addr != va) ==>
      Entry(c, s'.mem, u, 0, addr) == Entry(c, s.mem, u, 0, addr)
    ensures LastView(c, s') == Updated(LastView(c, s), (a, va), m)
  {
    hide Entry, IsPage, Decode;
    forall k: (nat, nat) | Live(s, k.0) && IsPage(c, k.1) && k != (a, va)
      ensures LastEntry(c, s', k.0, k.1) == LastEntry(c, s, k.0, k.1)
    {
      assert Entry(c, s'.mem, k.0, 0, k.1) == Entry(c, s.mem, k.0, 0, k.1);
    }
  }

  /** What a page-aligned entry decodes to. */
  lemma DecodePte(c: Config, page: nat, flags: nat)
    requires c.width >= 13 && page % PGSIZE == 0 && page < Pow2(c.width) && flags < 8 && flags % 2 == 1
    ensures Decode(c, page + flags) == Some(Mapping(page, flags / 2 % 2 == 1, flags / 4 == 1))
    ensures Decode(c, 0) == None
  {
    PteParts(c, page, flags);
    ZeroEntry(c);
  }

  /** The last-level entry says whether the page is mapped. */
  lemma MappedEntry(c: Config, s: Trees, pool: set<nat>, a: nat, va: nat, pt: nat)
    requires Ready(c, s, pool) && Live(s, a) && IsPage(c, va) && Walking(c, s, a, va, c.levels, pt)
    ensures pt in s.mem && IndexOf(c, va, c.levels) < |s.mem[pt]|
    ensures (a, va) in ViewOf(c, s) <==> Present(c, s.mem[pt][IndexOf(c, va, c.levels)])
  {
    hide *;
    ViewsAgree(c, s, pool);
    MappedLast(c, s, pool, a, va, pt);
  }

  lemma MappedLast(c: Config, s: Trees, pool: set<nat>, a: nat, va: nat, pt: nat)
    requires Ready(c, s, pool) && Live(s, a) && IsPage(c, va) && Walking(c, s, a, va, c.levels, pt)
    ensures pt in s.mem && IndexOf(c, va, c.levels) < |s.mem[pt]|
    ensures (a, va) in LastView(c, s) <==> Present(c, s.mem[pt][IndexOf(c, va, c.levels)])
  {
    Climb(c, s, a, va, c.levels, pt);
    hide WellFormed, Present, BaseOf, Writable, IndexOf, Layout, KernelMapped, SlotsReady, PoolFits, IsPage;
  }

  /** Everything `map` does after the walk. */
  lemma MapStored(c: Config, s: Trees, pool: set<nat>, a: nat, va: nat, pt: nat, e: nat, m: Option<Mapping>)
    requires Ready(c, s, pool) && Live(s, a) && IsPage(c, va) && e < Pow2(c.width) && m == Decode(c, e)
    requires Walking(c, s, a, va, c.levels, pt)
    ensures pt in s.mem && IndexOf(c, va, c.levels) < |s.mem[pt]|
    ensures var s' := Stored(s, pt, IndexOf(c, va, c.levels), e);
      && Ready(c, s', pool) && KernelKept(s, s') && Complete(c, s'.mem, a, va)
      && ViewOf(c, s') == Updated(ViewOf(c, s), (a, va), m)
  {
    StoreReady(c, s, pool, a, va, pt, e);
    StoreView(c, s, Stored(s, pt, IndexOf(c, va, c.levels), e), a, va, e, m);
    StoreComplete(c, s, a, va, pt, e);
    ViewsAgree(c, s, pool);
    ViewsAgree(c, Stored(s, pt, IndexOf(c, va, c.levels), e), pool);
    hide *;
  }

  lemma MapDone(c: Config, s: Trees, pool: set<nat>, a: nat, va: nat, pt: nat, e: nat, m: Option<Mapping>)
    requires Ready(c, s, pool) && Live(s, a) && IsPage(c, va) && e < Pow2(c.width) && m == Decode(c, e)
    requires Walking(c, s, a, va, c.levels, pt)
    ensures pt in s.mem && IndexOf(c, va, c.levels) < |s.mem[pt]|
    ensures var s' := Stored(s, pt, IndexOf(c, va, c.levels), e);
      && Evolved(c, s, pool, s', pool) && Complete(c, s'.mem, a, va)
      && ViewOf(c, s') == Updated(ViewOf(c, s), (a, va), m)
  {
    LiveGeometry(c, s, pool, a);
    hide Ready, Complete, ViewOf, Updated, Walking, IndexOf, Present, BaseOf, IsPage, KernelKept, Decode, Live;
    MapStored(c, s, pool, a, va, pt, e, m);
    StoredSame(s, pt, IndexOf(c, va, c.levels), e);
  }

  lemma StoredSame(s: Trees, pt: nat, j: nat, e: nat)
    requires pt in s.mem && j < |s.mem[pt]|
    ensures SameLive(s, Stored(s, pt, j, e)) && Owned(Stored(s, pt, j, e)) == Owned(s)
  {
  }

  /** The entry that `map` writes. */
  lemma PagePte(c: Config, pa: nat, writable: bool)
    requires c.width >= 13 && pa % PGSIZE == 0 && pa < Pow2(c.width)
    ensures var e := Pte(c, Pte(c, Pte(c, pa, PTE_P), PTE_U), if writable then PTE_W else 0);
      e < Pow2(c.width) && Decode(c, e) == Some(Mapping(pa, writable, true))
    ensures Decode(c, 0) == None
  {
    FlagSums();
    OrFlags(c, pa, 0, PTE_P);
    OrFlags(c, pa, 1, PTE_U);
    OrFlags(c, pa, 5, if writable then PTE_W else 0);
    hide Pte, Decode;
    DecodePte(c, pa, if writable then 7 else 5);
    PteParts(c, pa, if writable then 7 else 5);
  }

  lemma StoreComplete(c: Config, s: Trees, a: nat, va: nat, pt: nat, e: nat)
    requires Geometry(c) && WellFormed(c, s) && Live(s, a) && Walking(c, s, a, va, c.levels, pt)
    ensures Complete(c, Stored(s, pt, IndexOf(c, va, c.levels), e).mem, a, va)
  {
    assert OnWay(c, s, a, 0, va);
    StoreLeaf(c, s, pt, IndexOf(c, va, c.levels), e, a, 0, va);
    Climb(c, s, a, va, c.levels, pt);
    hide WellFormed, IndexOf, Present, BaseOf;
  }

  /** The identity mapping of the kernel's pages, as seen from slot `a`. */
  ghost function KernelView(c: Config, a: nat): View {
    imap k: (nat, nat) | k.0 == a && KernelPage(c, k.1) :: Mapping(k.1, true, false)
  }

  /** Every address space translates every kernel page to itself, for the kernel alone. */
  lemma KernelEverywhere(c: Config, s: Trees, pool: set<nat>, a: nat, addr: nat)
    requires Ready(c, s, pool) && Live(s, a) && IsPage(c, addr) && KernelIndex(c, IndexOf(c, addr, 1))
    ensures Translate(c, s, a, addr) == if KernelPage(c, addr) then Some(Mapping(addr, true, false)) else None
  {
    hide *;
    ReadyParts(c, s, pool);
    SlotAt(c, s, a);
    TranslateLast(c, s, a, addr);
    NotUser(c, s, a, addr);
  }

  lemma ProtectFrame(c: Config, s: Trees, pool: set<nat>, a: nat, upt: nat, row: seq<nat>, e: nat, u: nat, addr: nat)
    requires Ready(c, s, pool) && Protectable(c, s, a, upt, row, e) && u in s.owner && s.owner[u].path == []
    ensures Entry(c, Protected(s, a, upt, row, e).mem, u, 0, addr) == Entry(c, s.mem, u, 0, addr)
  {
    ProtectMemory(c, s, pool, a, upt, row, e);
    hide Ready, Sound, WellFormed, Entry, Leaf, Protectable, Protected;
    assert OnWay(c, s, u, 0, addr);
    EntryFrame(c, s, Protected(s, a, upt, row, e).mem, a, u, 0, addr);
  }

  lemma ProtectMemory(c: Config, s: Trees, pool: set<nat>, a: nat, upt: nat, row: seq<nat>, e: nat)
    requires Ready(c, s, pool) && Protectable(c, s, a, upt, row, e)
    ensures Geometry(c) && WellFormed(c, s) && a != s.kernel
    ensures forall t :: t in s.owner ==>
      s.owner[t].root != a && t in s.mem && t in Protected(s, a, upt, row, e).mem
        && Protected(s, a, upt, row, e).mem[t] == s.mem[t]
  {
    forall t | t in s.owner
      ensures s.owner[t].root != a && t in s.mem && Protected(s, a, upt, row, e).mem[t] == s.mem[t]
    {
      ShapeAt(c, s, t);
    }
  }

  /** The new address space maps the kernel's pages and nothing else. */
  lemma ProtectOwn(c: Config, s: Trees, pool: set<nat>, a: nat, upt: nat, row: seq<nat>, e: nat, addr: nat)
    requires Ready(c, s, pool) && Protectable(c, s, a, upt, row, e) && IsPage(c, addr)
    ensures var s' := Protected(s, a, upt, row, e);
      LastEntry(c, s', a, addr) == if KernelPage(c, addr) then Some(Mapping(addr, true, false)) else None
  {
    hide WellFormed, KernelIndex, IndexOf, Entry, Pow2, Decode, Protectable, Protected, Ready, Geometry, KernelPage,
      IsPage;
    ReadyParts(c, s, pool);
    PageBound(c, addr);
    DecodePte(c, addr, PTE_P + PTE_W);
    KernelLast(c, s, pool, addr);
    if KernelIndex(c, IndexOf(c, addr, 1)) {
      ProtectShared(c, s, pool, a, upt, row, e, addr);
    } else {
      ProtectUnshared(c, s, a, upt, row, e, addr);
    }
  }

  lemma KernelLast(c: Config, s: Trees, pool: set<nat>, addr: nat)
    requires Ready(c, s, pool) && IsPage(c, addr)
    ensures |c.mask| == |c.shift| > 1 && c.width >= 13
    ensures Entry(c, s.mem, s.kernel, 0, addr) == if KernelPage(c, addr) then addr + PTE_P + PTE_W else 0
    ensures KernelPage(c, addr) ==> KernelIndex(c, IndexOf(c, addr, 1))
  {
    hide WellFormed, SlotsReady, PoolFits, KernelIndex, IndexOf, Entry, Pow2, KernelPage, IsPage, KernelReady;
  }

  lemma ProtectShared(c: Config, s: Trees, pool: set<nat>, a: nat, upt: nat, row: seq<nat>, e: nat, addr: nat)
    requires Ready(c, s, pool) && Protectable(c, s, a, upt, row, e)
    requires addr < Pow2(c.width) && KernelIndex(c, IndexOf(c, addr, 1))
    ensures Entry(c, Protected(s, a, upt, row, e).mem, a, 0, addr) == Entry(c, s.mem, s.kernel, 0, addr)
  {
    ProtectKeeps(c, s, a, upt, row, e);
    ProtectFrame(c, s, pool, a, upt, row, e, s.kernel, addr);
    hide WellFormed, KernelMapped, SlotsReady, PoolFits, Entry, Leaf, KernelIndex, IndexOf, Pow2;
    SharedEntry(c, Protected(s, a, upt, row, e), a, addr);
  }

  lemma ProtectUnshared(c: Config, s: Trees, a: nat, upt: nat, row: seq<nat>, e: nat, addr: nat)
    requires Geometry(c) && Protectable(c, s, a, upt, row, e)
    requires addr < Pow2(c.width) && !KernelIndex(c, IndexOf(c, addr, 1))
    ensures Entry(c, Protected(s, a, upt, row, e).mem, a, 0, addr) == 0
  {
    ZeroEntry(c);
    IndexZero(c, addr);
    hide KernelIndex, Present, BaseOf, UserBit, Writable, IndexOf, Entry, Leaf, Pow2, Decode;
    EntryStep(c, Protected(s, a, upt, row, e).mem, a, 0, addr);
    EntryStep(c, Protected(s, a, upt, row, e).mem, upt, 1, addr);
  }
}
