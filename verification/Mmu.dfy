/** The paging layout: levels, index masks, page-table entries and the areas of the address space. */
module Mmu {
  import opened Bits

  const PGSIZE: int := 4096
  const PTE_P: int := 1
  const PTE_W: int := 2
  const PTE_U: int := 4

  datatype Area = Area(start: nat, end: nat, kernel: bool)

  /** `struct mmu_config` and `vm_areas`, with the width of `uintptr_t`; level 0 is the root pointer itself. */
  datatype Config = Config(width: nat, levels: nat, shift: seq<nat>, bits: seq<nat>, mask: seq<nat>, areas: seq<Area>) {
    function Size(i: nat): nat
      requires i < |bits|
    {
      Pow2(bits[i])
    }

    /** The first area is the user's. */
    predicate InUser(va: nat)
      requires |areas| > 0
    {
      areas[0].start <= va < areas[0].end
    }
  }

  /** `indexof` */
  function IndexOf(c: Config, addr: nat, i: nat): nat
    requires i < |c.mask| == |c.shift|
  {
    DivMod(Bitwise(And, c.width, addr, c.mask[i]), Pow2(c.shift[i]));
    Bitwise(And, c.width, addr, c.mask[i]) / Pow2(c.shift[i])
  }

  /** `baseof` */
  function BaseOf(c: Config, e: nat): nat
    requires c.width >= 12
  {
    Pow2Mono(12, c.width);
    PageSizePower();
    Bitwise(And, c.width, e, Pow2(c.width) - PGSIZE)
  }

  function Present(c: Config, e: nat): bool {
    Bitwise(And, c.width, e, PTE_P) != 0
  }

  function UserBit(c: Config, e: nat): bool {
    Bitwise(And, c.width, e, PTE_U) != 0
  }

  function Writable(c: Config, e: nat): bool {
    Bitwise(And, c.width, e, PTE_W) != 0
  }

  /** `page | flags` */
  function Pte(c: Config, page: nat, flags: nat): nat {
    Bitwise(Or, c.width, page, flags)
  }

  lemma PageSizePower()
    ensures Pow2(12) == PGSIZE && Pow2(2) == 4 && Pow2(1) == 2 && Pow2(0) == 1
  {
    assert Pow2(6) == 64;
    Pow2Add(6, 6);
  }

  /** The level geometry: level `levels` selects a page, every level selects the bits above the next one's. */
  ghost predicate Geometry(c: Config) {
    && |c.shift| == |c.bits| == |c.mask| == c.levels + 1
    && c.levels >= 2 && c.width >= 13
    && c.mask[0] == 0 && c.shift[0] == 0 && c.bits[0] == 0
    && c.shift[c.levels] == 12
    && (forall i :: 1 <= i < c.levels ==> c.shift[i] == c.shift[i + 1] + c.bits[i + 1])
    && (forall i :: 1 <= i <= c.levels ==> c.shift[i] + c.bits[i] <= c.width)
    && (forall i :: 1 <= i <= c.levels ==> c.mask[i] == (Pow2(c.bits[i]) - 1) * Pow2(c.shift[i]))
  }

  /** A page address the tables can translate. */
  ghost predicate IsPage(c: Config, addr: nat)
    requires Geometry(c)
  {
    addr % PGSIZE == 0 && addr < Pow2(c.shift[1] + c.bits[1])
  }

  lemma IndexZero(c: Config, addr: nat)
    requires Geometry(c)
    ensures IndexOf(c, addr, 0) == 0 && c.Size(0) == 1
  {
    PageSizePower();
    AndZero(c.width, addr);
  }

  lemma {:induction false} AndZero(n: nat, x: nat)
    ensures Bitwise(And, n, x, 0) == 0
  {
    if n > 0 {
      AndZero(n - 1, x / 2);
    }
  }

  lemma Powers(c: Config, i: nat)
    requires Geometry(c) && 1 <= i <= c.levels
    ensures Pow2(c.shift[i]) * Pow2(c.bits[i]) == Pow2(c.shift[i] + c.bits[i]) <= Pow2(c.width)
    ensures i > 1 ==> Pow2(c.shift[i - 1]) == Pow2(c.shift[i]) * Pow2(c.bits[i])
  {
    Pow2Add(c.shift[i], c.bits[i]);
    Pow2Mono(c.shift[i] + c.bits[i], c.width);
    if i > 1 {
      assert c.shift[i - 1] == c.shift[i - 1 + 1] + c.bits[i - 1 + 1];
    }
  }

  /** The mask and shift of a level select one field of the address. */
  lemma IndexField(c: Config, addr: nat, i: nat)
    requires Geometry(c) && 1 <= i <= c.levels && addr < Pow2(c.width)
    ensures IndexOf(c, addr, i) == addr / Pow2(c.shift[i]) % Pow2(c.bits[i]) < c.Size(i)
  {
    var m, k, n := c.shift[i], c.bits[i], c.width - c.shift[i] - c.bits[i];
    Pow2Add(m, k);
    Pow2Add(m + k, n);
    assert m + (k + n) == c.width;
    var p, g := Pow2(m), Pow2(k);
    hide Pow2, Bitwise;
    FieldSplit(addr, p, g, Pow2(n));
    MaskedField(c.width, m, k, n, addr, addr / p, addr / p / g, addr / p % g, addr % p, c.mask[i]);
  }

  lemma IndexBound(c: Config, addr: nat, i: nat)
    requires Geometry(c) && i <= c.levels && addr < Pow2(c.width)
    ensures IndexOf(c, addr, i) < c.Size(i)
  {
    if i == 0 {
      IndexZero(c, addr);
    } else {
      IndexField(c, addr, i);
    }
  }

  lemma MaskedField(w: nat, m: nat, k: nat, n: nat, x: nat, xh: nat, x2: nat, x1: nat, x0: nat, mask: nat)
    requires w == m + (k + n) && x0 < Pow2(m) && x1 < Pow2(k) && x2 < Pow2(n)
    requires x == xh * Pow2(m) + x0 && xh == x2 * Pow2(k) + x1
    requires mask == (Pow2(k) - 1) * Pow2(m)
    ensures Bitwise(And, w, x, mask) / Pow2(m) == x1
  {
    hide Pow2, Bitwise;
    AndMask(m, k, n, x, xh, x2, x1, x0, mask);
    DivModUnique(x1 * Pow2(m), Pow2(m), x1, 0);
  }

  lemma FieldSplit(x: nat, p: nat, g: nat, h: nat)
    requires p > 0 && g > 0 && h > 0 && x < p * g * h
    ensures x == x / p * p + x % p && x % p < p
    ensures x / p == x / p / g * g + x / p % g && x / p % g < g && 0 <= x / p / g < h
  {
    DivMod(x, p);
    DivMod(x / p, g);
    DivDiv(x, p, g);
    var y := x / (p * g);
    if y >= h {
      MulMono(h, y, p * g);
      DivMod(x, p * g);
    }
  }

  /** Two page addresses with the same indices are the same. */
  lemma SameIndices(c: Config, a: nat, b: nat)
    requires Geometry(c) && IsPage(c, a) && IsPage(c, b)
    requires forall i :: 1 <= i <= c.levels ==> IndexOf(c, a, i) == IndexOf(c, b, i)
    ensures a == b
  {
    SamePrefix(c, a, b, c.levels);
    PageSizePower();
    DivMod(a, PGSIZE);
    DivMod(b, PGSIZE);
  }

  lemma {:induction false} SamePrefix(c: Config, a: nat, b: nat, n: nat)
    requires Geometry(c) && IsPage(c, a) && IsPage(c, b) && 1 <= n <= c.levels
    requires forall i :: 1 <= i <= n ==> IndexOf(c, a, i) == IndexOf(c, b, i)
    ensures a / Pow2(c.shift[n]) == b / Pow2(c.shift[n])
  {
    Powers(c, n);
    Powers(c, 1);
    IndexField(c, a, n);
    IndexField(c, b, n);
    assert IndexOf(c, a, n) == IndexOf(c, b, n);
    if n == 1 {
      TopField(a, Pow2(c.shift[1]), Pow2(c.bits[1]));
      TopField(b, Pow2(c.shift[1]), Pow2(c.bits[1]));
    } else {
      SamePrefix(c, a, b, n - 1);
      hide Pow2, IndexOf;
      Refine(a, b, Pow2(c.shift[n]), Pow2(c.bits[n]), Pow2(c.shift[n - 1]));
    }
  }

  lemma TopField(x: nat, p: nat, g: nat)
    requires p > 0 && g > 0 && x < p * g
    ensures x / p % g == x / p
  {
    FieldSplit(x, p, g, 1);
  }

  lemma Refine(a: nat, b: nat, p: nat, g: nat, pg: nat)
    requires p > 0 && g > 0 && pg == p * g && a / p % g == b / p % g && a / pg == b / pg
    ensures a / p == b / p
  {
    DivDiv(a, p, g);
    DivDiv(b, p, g);
    DivMod(a / p, g);
    DivMod(b / p, g);
  }

  /** What the three masks and `baseof` read from an entry `page | flags`. */
  lemma PteParts(c: Config, page: nat, flags: nat)
    requires c.width >= 13 && page % PGSIZE == 0 && page < Pow2(c.width) && flags < 8
    ensures Pte(c, page, flags) == page + flags < Pow2(c.width)
    ensures BaseOf(c, page + flags) == page
    ensures Present(c, page + flags) <==> flags % 2 == 1
    ensures Writable(c, page + flags) <==> flags / 2 % 2 == 1
    ensures UserBit(c, page + flags) <==> flags / 4 == 1
  {
    hide Bitwise, Pow2;
    PageBits(c.width, page);
    OrDisjoint(12, c.width - 12, page, page / PGSIZE, flags);
    BasePart(c, page, page / PGSIZE, flags);
    PageFlags(page, flags);
    LowBits(c.width, page + flags, flags % 2, flags / 2 % 2, flags / 4, page / 8);
  }

  lemma PageBits(w: nat, page: nat)
    requires w >= 13 && page % PGSIZE == 0 && page < Pow2(w)
    ensures page == page / PGSIZE * Pow2(12) && Pow2(12) == PGSIZE && page / PGSIZE < Pow2(w - 12)
    ensures page + 7 < Pow2(w) && 12 + (w - 12) == w
  {
    PageSizePower();
    Pow2Add(12, w - 12);
    assert 12 + (w - 12) == w;
    hide Pow2;
    HeightBound(page, page / PGSIZE, Pow2(w - 12));
  }

  lemma PageFlags(page: nat, flags: nat)
    requires page % PGSIZE == 0 && flags < 8
    ensures page + flags == flags % 2 + 2 * (flags / 2 % 2) + 4 * (flags / 4) + 8 * (page / 8)
    ensures flags / 2 % 2 < 2 && flags / 4 < 2
  {
    EightParts(flags);
    DivMod(page, PGSIZE);
    DivModUnique(page, 8, 512 * (page / PGSIZE), 0);
  }

  lemma HeightBound(page: nat, h: nat, p: nat)
    requires page == h * PGSIZE && page < PGSIZE * p
    ensures h < p
  {
  }

  lemma BasePart(c: Config, page: nat, h: nat, flags: nat)
    requires c.width >= 12 && page == h * PGSIZE && h < Pow2(c.width - 12) && flags < PGSIZE
    ensures BaseOf(c, page + flags) == page
  {
    PageSizePower();
    var w := c.width;
    Pow2Mono(12, w);
    Pow2Add(12, w - 12);
    assert 12 + (w - 12 + 0) == w && 12 + (w - 12) == w;
    AndMask(12, w - 12, 0, page + flags, h, 0, h, flags, Pow2(w) - PGSIZE);
  }

  /** `ROUNDDOWN(x, pgsize) == x` */
  lemma RoundDown(c: Config, x: nat)
    requires c.width >= 12 && x < Pow2(c.width)
    ensures BaseOf(c, x) == x - x % PGSIZE
  {
    PageSizePower();
    Pow2Add(12, c.width - 12);
    assert 12 + (c.width - 12) == c.width;
    var h := x / PGSIZE;
    assert h < Pow2(c.width - 12);
    BasePart(c, x - x % PGSIZE, h, x % PGSIZE);
  }

  lemma LowBits(w: nat, e: nat, b0: nat, b1: nat, b2: nat, rest: nat)
    requires w >= 3 && b0 < 2 && b1 < 2 && b2 < 2 && e == b0 + 2 * b1 + 4 * b2 + 8 * rest
    ensures Bitwise(And, w, e, 1) == b0 && Bitwise(And, w, e, 2) == 2 * b1 && Bitwise(And, w, e, 4) == 4 * b2
  {
    var e1, e2 := e / 2, e / 4;
    assert e1 == b1 + 2 * b2 + 4 * rest && e2 == b2 + 2 * rest;
    AndZero(w - 1, e1);
    AndZero(w - 2, e2);
    AndZero(w - 3, e2 / 2);
    assert Bitwise(And, w - 2, e2, 1) == b2;
    assert Bitwise(And, w - 1, e1, 1) == b1 && Bitwise(And, w - 1, e1, 2) == 2 * b2;
  }

  lemma SecondBit(w: nat, e: nat)
    requires w >= 3
    ensures Bitwise(And, w, e, 2) == 2 * (e / 2 % 2)
  {
    hide Bitwise;
    EightParts(e);
    LowBits(w, e, e % 2, e / 2 % 2, e / 4 % 2, e / 8);
  }

  lemma EightParts(e: nat)
    ensures e == e % 2 + 2 * (e / 2 % 2) + 4 * (e / 4 % 2) + 8 * (e / 8)
  {
    DivDiv(e, 2, 2);
    DivDiv(e, 4, 2);
    HalfParts(e);
    HalfParts(e / 2);
    HalfParts(e / 4);
  }

  lemma HalfParts(e: nat)
    ensures e == e % 2 + 2 * (e / 2)
  {
  }

  /** The format of an entry (section 4.3 of the Intel SDM, volume 3A): three flag bits, and the page from bit 12 on. */
  lemma EntryFormat(c: Config, e: nat)
    requires c.width >= 13 && e < Pow2(c.width)
    ensures Present(c, e) <==> e % 2 == 1
    ensures Writable(c, e) <==> e / 2 % 2 == 1
    ensures UserBit(c, e) <==> e / 4 % 2 == 1
    ensures BaseOf(c, e) == e / 4096 * 4096
  {
    hide Pow2, Bitwise;
    EightParts(e);
    LowBits(c.width, e, e % 2, e / 2 % 2, e / 4 % 2, e / 8);
    RoundDown(c, e);
  }

  /** Adding flags to an entry that does not have them. */
  lemma OrFlags(c: Config, page: nat, f: nat, g: nat)
    requires c.width >= 13 && page % PGSIZE == 0 && page < Pow2(c.width)
    requires f < 8 && g < 8 && Bitwise(Or, 3, f, g) == f + g
    ensures Pte(c, page + f, g) == page + (f + g)
  {
    PageSizePower();
    hide Bitwise;
    LowOr(f, g);
    var w, h := c.width, page / PGSIZE;
    Pow2Add(12, w - 12);
    assert 12 + (w - 12) == w;
    hide Pow2;
    BitwiseSplit(Or, 12, w - 12, page + f, h, f, g, 0, g);
    BitwiseZeroRight(Or, w - 12, h);
  }

  lemma LowOr(f: nat, g: nat)
    requires f < 8 && g < 8
    ensures Bitwise(Or, 12, f, g) == Bitwise(Or, 3, f, g)
  {
    assert Pow2(3) == 8;
    BitwiseZeroRight(Or, 9, 0);
    hide Bitwise, Pow2;
    BitwiseSplit(Or, 3, 9, f, 0, f, g, 0, g);
  }

  /** The combinations that occur. */
  lemma FlagSums()
    ensures Bitwise(Or, 3, 0, PTE_P) == 1 && Bitwise(Or, 3, 1, PTE_W) == 3 && Bitwise(Or, 3, 1, PTE_U) == 5
    ensures Bitwise(Or, 3, 1, 6) == 7 && Bitwise(Or, 3, 5, PTE_W) == 7 && Bitwise(Or, 3, 5, 0) == 5
  {
  }

  lemma ZeroEntry(c: Config)
    requires c.width >= 3
    ensures !Present(c, 0)
  {
    LowBits(c.width, 0, 0, 0, 0, 0);
  }
}
