/** The two-level 32-bit layout: 1 GiB of kernel space, 1 GiB of user space, and I/O up to 2^32. */
module X86 {
  import opened Bits
  import opened Mmu
  import opened PageTables
  import opened AddressSpaces
  import opened Footprint

  const USER := Area(0x4000_0000, 0x8000_0000, false)
  const KERNEL := Area(0, 0x4000_0000, true)
  const IO := Area(0xFD00_0000, 0, true)

  function Paging(): Config {
    Config(32, 2, [0, 22, 12], [0, 10, 10], [0, 0xFFC0_0000, 0x003F_F000], [USER, KERNEL, IO])
  }

  lemma Powers32()
    ensures Pow2(0) == 1 && Pow2(10) == 1024 && Pow2(12) == 4096 && Pow2(22) == 0x40_0000 && Pow2(32) == 0x1_0000_0000
  {
    assert Pow2(5) == 32;
    Pow2Add(5, 5);
    PageSizePower();
    Pow2Add(10, 12);
    Pow2Add(22, 10);
  }

  /** The user's addresses. */
  lemma UserArea(va: nat)
    ensures Paging().InUser(va) <==> 0x4000_0000 <= va < 0x8000_0000
  {
  }

  /** The two indices are the upper and the middle ten bits of an address. */
  lemma PagingIndices(addr: nat)
    requires addr < 0x1_0000_0000
    ensures Geometry(Paging())
    ensures IndexOf(Paging(), addr, 1) == addr / 0x40_0000 % 1024
    ensures IndexOf(Paging(), addr, 2) == addr / 4096 % 1024
  {
    PagingGeometry();
    Powers32();
    hide Pow2, IndexOf, Geometry;
    IndexField(Paging(), addr, 1);
    IndexField(Paging(), addr, 2);
  }

  lemma PagingGeometry()
    ensures Geometry(Paging())
  {
    Powers32();
    hide Pow2;
  }

  /** The areas' level-1 entries and pages, also of the area that ends at 2^32. */
  lemma AreaSteps()
    ensures forall i: nat, k: nat :: KernelStep(Paging(), i, k) <==> (i == 1 && k < 256) || (i == 2 && k < 12)
    ensures forall i: nat, k: nat :: KernelVisit(Paging(), i, k) <==> (i == 1 && k < 0x4_0000) || (i == 2 && k < 0x3000)
  {
    Powers32();
    hide Pow2;
    DivModUnique(0 - 0xFD00_0000, 0x1_0000_0000, -1, 0x300_0000);
  }

  lemma Address(i: nat, step: nat, k: nat)
    requires i == 1 || i == 2
    requires i == 1 ==> k * step < 0x4000_0000
    requires i == 2 ==> k * step < 0x300_0000
    ensures Visited(Paging(), Paging().areas[i], step, k) == (if i == 1 then 0 else 0xFD00_0000) + k * step
  {
    Powers32();
    DivModUnique((if i == 1 then 0 else 0xFD00_0000) + k * step, 0x1_0000_0000, 0,
      (if i == 1 then 0 else 0xFD00_0000) + k * step);
  }

  lemma Directory(addr: nat)
    requires addr < 0x1_0000_0000
    ensures Geometry(Paging()) && IndexOf(Paging(), addr, 1) == addr / 0x40_0000 < 1024
  {
    hide Pow2, IndexOf, Geometry;
    PagingIndices(addr);
    assert addr / 0x40_0000 < 1024;
  }

  /** The kernel's level-1 entries are 0 to 255 and 1012 to 1023. */
  lemma KernelEntries(j: nat)
    ensures Geometry(Paging())
    ensures KernelIndex(Paging(), j) <==> j < 256 || 1012 <= j < 1024
  {
    PagingGeometry();
    Powers32();
    AreaSteps();
    hide Geometry, KernelStep, IndexOf, Visited, Pow2;
    if KernelIndex(Paging(), j) {
      var i: nat, k: nat :| KernelStep(Paging(), i, k)
        && j == IndexOf(Paging(), Visited(Paging(), Paging().areas[i], Pow2(Paging().shift[1]), k), 1);
      Address(i, 0x40_0000, k);
      Directory((if i == 1 then 0 else 0xFD00_0000) + k * 0x40_0000);
    }
    if j < 256 || 1012 <= j < 1024 {
      var i, k := if j < 256 then 1 else 2, if j < 256 then j else j - 1012;
      Address(i, 0x40_0000, k);
      Directory((if i == 1 then 0 else 0xFD00_0000) + k * 0x40_0000);
      assert KernelStep(Paging(), i, k);
    }
  }

  /** The pages of the first GiB and everything from 0xFD000000 up. */
  predicate OfKernel(addr: nat) {
    addr % PGSIZE == 0 && (addr < 0x4000_0000 || 0xFD00_0000 <= addr < 0x1_0000_0000)
  }

  /** They are the pages that the kernel maps. */
  lemma KernelPages(addr: nat)
    ensures KernelPage(Paging(), addr) <==> OfKernel(addr)
  {
    AreaSteps();
    hide KernelVisit, Visited;
    if KernelPage(Paging(), addr) {
      var i: nat, k: nat :| KernelVisit(Paging(), i, k) && addr == Visited(Paging(), Paging().areas[i], PGSIZE, k);
      Address(i, PGSIZE, k);
    }
    if OfKernel(addr) {
      var i, off := if addr < 0x4000_0000 then 1 else 2, if addr < 0x4000_0000 then addr else addr - 0xFD00_0000;
      var k := off / PGSIZE;
      Address(i, PGSIZE, k);
      assert KernelVisit(Paging(), i, k);
    }
  }

  lemma KernelPagesOk(addr: nat)
    requires KernelPage(Paging(), addr)
    ensures Geometry(Paging()) && IsPage(Paging(), addr) && KernelIndex(Paging(), IndexOf(Paging(), addr, 1))
  {
    PagingGeometry();
    Powers32();
    AreaSteps();
    hide Geometry, KernelVisit, IndexOf, Visited, Pow2, KernelIndex;
    var i: nat, k: nat :| KernelVisit(Paging(), i, k) && addr == Visited(Paging(), Paging().areas[i], PGSIZE, k);
    Address(i, PGSIZE, k);
    Directory(addr);
    KernelEntries(IndexOf(Paging(), addr, 1));
  }

  /** The constants of the 32-bit configuration meet every demand of the page manager. */
  lemma PagingLayout()
    ensures Layout(Paging())
  {
    var c := Paging();
    PagingGeometry();
    Powers32();
    FirstPage();
    AreasWhole();
    hide Geometry, KernelVisit, IndexOf, Visited, Pow2, KernelIndex, KernelPage, IsPage, WholeSteps;
    forall va: nat | c.InUser(va)
      ensures va < 0x1_0000_0000 && !KernelIndex(c, IndexOf(c, va, 1))
    {
      Directory(va);
      KernelEntries(IndexOf(c, va, 1));
    }
    forall addr: nat | KernelPage(c, addr)
      ensures IsPage(c, addr) && KernelIndex(c, IndexOf(c, addr, 1))
    {
      KernelPagesOk(addr);
    }
  }

  lemma FirstPage()
    ensures KernelPage(Paging(), 0)
  {
    AreaSteps();
    Address(1, PGSIZE, 0);
    hide Visited, KernelVisit;
    assert KernelVisit(Paging(), 1, 0);
    assert Paging().areas[1] == KERNEL;
  }

  lemma AreasWhole()
    ensures Geometry(Paging()) && WholeSteps(Paging(), KERNEL) && WholeSteps(Paging(), IO)
  {
    PagingGeometry();
    Powers32();
    hide Pow2, Geometry;
    DivModUnique(0 - 0xFD00_0000, 0x1_0000_0000, -1, 0x300_0000);
  }

  /** The paths `[0, j]` for `n` successive `j`. */
  ghost function Rows(lo: nat, n: nat): set<seq<nat>> {
    if n == 0 then {} else Rows(lo, n - 1) + {[0, lo + n - 1]}
  }

  lemma {:induction false} RowsOk(lo: nat, n: nat)
    ensures |Rows(lo, n)| == n && forall p :: p in Rows(lo, n) <==> InRows(lo, n, p)
  {
    if n == 0 {
    } else {
      hide InRows;
      RowsOk(lo, n - 1);
      RowStep(lo, n, [0, lo + n - 1]);
      forall p
        ensures p in Rows(lo, n) <==> InRows(lo, n, p)
      {
        RowStep(lo, n, p);
      }
    }
  }

  lemma RowStep(lo: nat, n: nat, p: seq<nat>)
    requires n > 0
    ensures InRows(lo, n, p) <==> InRows(lo, n - 1, p) || p == [0, lo + n - 1]
    ensures p == [0, lo + n - 1] ==> !InRows(lo, n - 1, p)
  {
    assert InRows(lo, n, p) ==> p == [p[0], p[1]];
  }

  predicate InRows(lo: nat, n: nat, p: seq<nat>) {
    |p| == 2 && p[0] == 0 && lo <= p[1] < lo + n
  }

  /** The kernel's tree has 269 tables: the directory, 256 for the first GiB, and 12 for the I/O area. */
  lemma KernelTables()
    ensures Geometry(Paging()) && |KernelPaths(Paging())| == 269
  {
    hide KernelPaths, Geometry, Rows;
    PagingGeometry();
    RowsOk(0, 256);
    RowsOk(1012, 12);
    var low, high := Rows(0, 256), Rows(1012, 12);
    forall p
      ensures p in KernelPaths(Paging()) <==> p in {[0]} + (low + high)
    {
      KernelPathOk(p);
    }
    assert low !! high && |low + high| == 268;
    assert !InRows(0, 256, [0]) && !InRows(1012, 12, [0]);
    assert KernelPaths(Paging()) == {[0]} + (low + high);
  }

  lemma KernelPathOk(p: seq<nat>)
    ensures Geometry(Paging())
    ensures p in KernelPaths(Paging()) <==>
      p == [0] || InRows(0, 256, p) || InRows(1012, 12, p)
  {
    PagingGeometry();
    Powers32();
    hide Geometry, KernelPage, Pow2, IndexOf, Path;
    if p in KernelPaths(Paging()) {
      var addr: nat, n: nat :| addr < 0x1_0000_0000 && 1 <= n <= 2 && KernelPage(Paging(), addr)
        && p == Path(Paging(), addr, n);
      KernelPages(addr);
      Paths(addr);
    }
    if p == [0] {
      KernelPages(0);
      Paths(0);
      assert p == Path(Paging(), 0, 1);
    }
    if InRows(0, 256, p) || InRows(1012, 12, p) {
      var addr := p[1] * 0x40_0000;
      KernelPages(addr);
      Paths(addr);
      assert p == Path(Paging(), addr, 2);
    }
  }

  lemma Paths(addr: nat)
    requires addr < 0x1_0000_0000
    ensures Geometry(Paging())
    ensures Path(Paging(), addr, 1) == [0] && Path(Paging(), addr, 2) == [0, addr / 0x40_0000]
  {
    Directory(addr);
    IndexZero(Paging(), addr);
    hide IndexOf, Geometry;
    assert Path(Paging(), addr, 1) == Path(Paging(), addr, 0) + [IndexOf(Paging(), addr, 0)];
    assert Path(Paging(), addr, 2) == Path(Paging(), addr, 1) + [IndexOf(Paging(), addr, 1)];
  }
}
