/** The processor's walk through the tables, and what it comes to for the tables that are kept here. */
module Translation {
  import opened Bits
  import opened Mmu
  import opened Options
  import opened PageTables
  import opened AddressSpaces

  /**
   * The walk from table `t` of level `i`. The rights are those that the entries of all levels grant (section 4.6 of the
   * Intel SDM, volume 3A); the root pointer of level 0 grants none and takes none away.
   */
  ghost function Walk(c: Config, m: Memory, t: nat, i: nat, addr: nat, w: bool, u: bool): Option<Mapping>
    requires Geometry(c)
    decreases c.levels - i
  {
    if i > c.levels || t !in m || IndexOf(c, addr, i) >= |m[t]| || !Present(c, m[t][IndexOf(c, addr, i)]) then None
    else
      var e := m[t][IndexOf(c, addr, i)];
      var w', u' := w && (i == 0 || Writable(c, e)), u && (i == 0 || UserBit(c, e));
      if i == c.levels then Some(Mapping(BaseOf(c, e), w', u')) else Walk(c, m, BaseOf(c, e), i + 1, addr, w', u')
  }

  /** The page and the rights that the processor finds for `addr` with the address space at slot `a`. */
  ghost function Translate(c: Config, s: Trees, a: nat, addr: nat): Option<Mapping>
    requires Geometry(c)
  {
    Walk(c, s.mem, a, 0, addr, true, true)
  }

  /**
   * From level 1 on: the page and the write permission are those of the last-level entry, and so is the user bit where
   * the walk stays in a tree that is not the kernel's.
   */
  lemma {:induction false} WalkRights(c: Config, s: Trees, t: nat, i: nat, addr: nat, w: bool, u: bool)
    requires Geometry(c) && WellFormed(c, s) && OnWay(c, s, t, i, addr) && i >= 1
    ensures var e, r := Entry(c, s.mem, t, i, addr), Walk(c, s.mem, t, i, addr, w, u);
      && (r.Some? <==> Present(c, e))
      && (r.Some? ==> r.value.page == BaseOf(c, e) && r.value.writable == (w && Writable(c, e))
                      && (r.value.user ==> u && UserBit(c, e)))
      && (r.Some? && s.owner[t].root != s.kernel && (i > 1 || !KernelIndex(c, IndexOf(c, addr, 1))) ==>
            r.value.user == (u && UserBit(c, e)))
    decreases c.levels - i
  {
    ShapeAt(c, s, t);
    ZeroEntry(c);
    var k := IndexOf(c, addr, i);
    if i < c.levels {
      EntryStep(c, s.mem, t, i, addr);
      hide KernelIndex, Present, BaseOf, UserBit, Writable, IndexOf, Entry, Leaf, Geometry, Shape;
      if k < |s.mem[t]| && Present(c, s.mem[t][k]) {
        var b := Follow(c, s, t, k);
        hide WellFormed;
        assert Path(c, addr, i + 1) == Path(c, addr, i) + [k];
        WalkRights(c, s, b, i + 1, addr, w && Writable(c, s.mem[t][k]), u && UserBit(c, s.mem[t][k]));
      }
    } else {
      hide WellFormed, KernelIndex, Present, BaseOf, UserBit, Writable, IndexOf, Geometry, Shape;
    }
  }

  lemma WalkRoot(c: Config, s: Trees, a: nat, addr: nat) returns (b: nat)
    requires Geometry(c) && WellFormed(c, s) && KernelReady(s)
    requires a in s.owner && s.owner[a].path == []
    requires a != s.kernel ==> a in s.mem && |s.mem[a]| == 1 && Present(c, s.mem[a][0])
    ensures b in s.owner && s.owner[b].root == a && OnWay(c, s, b, 1, addr)
    ensures Translate(c, s, a, addr) == Walk(c, s.mem, b, 1, addr, true, true)
    ensures Entry(c, s.mem, a, 0, addr) == Entry(c, s.mem, b, 1, addr)
  {
    IndexZero(c, addr);
    b := LevelOne(c, s, a);
    EntryStep(c, s.mem, a, 0, addr);
    hide WellFormed, KernelIndex, Present, BaseOf, UserBit, Writable, IndexOf, Entry, Leaf;
    assert Path(c, addr, 1) == Path(c, addr, 0) + [IndexOf(c, addr, 0)] == [0];
  }

  /** In the states that occur, the last-level entry alone tells the rights. */
  lemma TranslateLast(c: Config, s: Trees, a: nat, addr: nat)
    requires Geometry(c) && WellFormed(c, s) && KernelReady(s) && KernelMapped(c, s) && IsPage(c, addr)
    requires a in s.owner && s.owner[a].path == []
    requires a != s.kernel ==> a in s.mem && |s.mem[a]| == 1 && Present(c, s.mem[a][0])
    ensures Translate(c, s, a, addr) == LastEntry(c, s, a, addr)
  {
    hide WellFormed, KernelIndex, Present, BaseOf, UserBit, Writable, IndexOf, Entry, Translate, KernelMapped, Geometry;
    Lengths(c);
    var b := WalkRoot(c, s, a, addr);
    WalkRights(c, s, b, 1, addr, true, true);
    if a == s.kernel || KernelIndex(c, IndexOf(c, addr, 1)) {
      NotUser(c, s, a, addr);
    }
  }

  /** What the kernel's entries translate is not for user mode. */
  lemma NotUser(c: Config, s: Trees, a: nat, addr: nat)
    requires Geometry(c) && WellFormed(c, s) && KernelReady(s) && KernelMapped(c, s) && IsPage(c, addr)
    requires a in s.owner && s.owner[a].path == []
    requires a != s.kernel ==> a in s.mem && |s.mem[a]| == 1 && Present(c, s.mem[a][0])
    requires a == s.kernel || KernelIndex(c, IndexOf(c, addr, 1))
    ensures !UserBit(c, Entry(c, s.mem, a, 0, addr))
    ensures LastEntry(c, s, a, addr) == if KernelPage(c, addr) then Some(Mapping(addr, true, false)) else None
  {
    hide WellFormed, KernelIndex, BaseOf, UserBit, Present, Writable, IndexOf, Entry, Geometry, Pow2, IsPage;
    PageBound(c, addr);
    if a != s.kernel {
      SharedEntry(c, s, a, addr);
    }
    KernelEntry(c, addr);
    PteZero(c);
  }

  lemma PageBound(c: Config, addr: nat)
    requires Geometry(c) && IsPage(c, addr)
    ensures c.width >= 13 && addr % PGSIZE == 0 && addr < Pow2(c.width)
  {
    Powers(c, 1);
    hide Pow2;
  }

  lemma KernelEntry(c: Config, addr: nat)
    requires c.width >= 13 && addr % PGSIZE == 0 && addr < Pow2(c.width)
    ensures !UserBit(c, addr + PTE_P + PTE_W) && Decode(c, addr + PTE_P + PTE_W) == Some(Mapping(addr, true, false))
  {
    hide Present, BaseOf, UserBit, Writable, Pow2;
    PteParts(c, addr, 3);
  }

  lemma PteZero(c: Config)
    requires c.width >= 13
    ensures !Present(c, 0) && !UserBit(c, 0)
  {
    ZeroEntry(c);
    PteParts(c, 0, 0);
  }

  /** The kernel's own tree maps exactly the kernel's pages, to themselves, writable and not for user mode. */
  lemma KernelTree(c: Config, s: Trees, addr: nat)
    requires Geometry(c) && WellFormed(c, s) && KernelReady(s) && KernelMapped(c, s) && IsPage(c, addr)
    ensures Translate(c, s, s.kernel, addr) == if KernelPage(c, addr) then Some(Mapping(addr, true, false)) else None
  {
    hide *;
    KernelRoot(s);
    TranslateLast(c, s, s.kernel, addr);
    NotUser(c, s, s.kernel, addr);
  }

  lemma KernelRoot(s: Trees)
    requires KernelReady(s)
    ensures s.kernel in s.owner && s.owner[s.kernel].path == []
  {
  }
}
