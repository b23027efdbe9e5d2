/** The loops over the kernel's areas: which addresses they meet, also where the area ends at the top of the space. */
module Areas {
  import opened Bits
  import opened Mmu
  import opened PageTables
  import opened AddressSpaces

  /** The loop `for (cur = start; cur != end; cur += step)` makes exactly `Steps` turns. */
  lemma VisitNext(c: Config, area: Area, step: nat, k: nat)
    requires step > 0 && area.start < Pow2(c.width) && area.end < Pow2(c.width)
    requires (area.end - area.start) % Pow2(c.width) == Steps(c, area, step) * step
    requires k <= Steps(c, area, step)
    ensures Visited(c, area, step, 0) == area.start
    ensures Visited(c, area, step, k) == area.end <==> k == Steps(c, area, step)
    ensures Visited(c, area, step, k + 1) == (Visited(c, area, step, k) + step) % Pow2(c.width)
  {
    var m, n := Pow2(c.width), Steps(c, area, step);
    hide Pow2, Steps;
    DivModUnique(area.start, m, 0, area.start);
    WrapStep(area.start, k * step, step, m);
    assert (k + 1) * step == k * step + step;
    MulMono(k, n, step);
    if k < n {
      MulMono(k + 1, n, step);
    }
    WrapEnd(area.start, area.end, k * step, n * step, m);
  }

  lemma WrapStep(x: nat, y: nat, z: nat, m: nat)
    requires m > 0
    ensures (x + y + z) % m == ((x + y) % m + z) % m
  {
    var u := x + y;
    DivMod(u, m);
    DivMod(u % m + z, m);
    var q, q', r := u / m, (u % m + z) / m, (u % m + z) % m;
    assert u + z == q * m + q' * m + r;
    AddQuotients(q, q', m);
    DivModUnique(u + z, m, q + q', r);
  }

  lemma AddQuotients(x: int, y: int, m: int)
    ensures x * m + y * m == (x + y) * m
  {
  }

  lemma WrapEnd(start: nat, end: nat, d: nat, total: nat, m: nat)
    requires start < m && end < m && total == (end - start) % m && d <= total
    ensures (start + d) % m == end <==> d == total
  {
    var t := if end >= start then end - start else end - start + m;
    DivModUnique(end - start, m, if end >= start then 0 else -1, t);
    if start + d < m {
      DivModUnique(start + d, m, 0, start + d);
    } else {
      DivModUnique(start + d, m, 1, start + d - m);
    }
  }

  /** The level-1 entries met by the loops before turn `k` of area `i`. */
  ghost predicate Covered(c: Config, i: nat, k: nat, j: nat)
    requires Geometry(c)
  {
    exists i': nat, k': nat :: KernelStep(c, i', k') && (i' < i || (i' == i && k' < k))
      && j == IndexOf(c, Visited(c, c.areas[i'], Pow2(c.shift[1]), k'), 1)
  }

  lemma CoveredStep(c: Config, i: nat, k: nat, j: nat)
    requires Geometry(c) && KernelStep(c, i, k)
    ensures Covered(c, i, k + 1, j) <==>
      Covered(c, i, k, j) || j == IndexOf(c, Visited(c, c.areas[i], Pow2(c.shift[1]), k), 1)
  {
    hide IndexOf, Visited, Steps, Pow2;
  }

  lemma CoveredArea(c: Config, i: nat, k: nat, j: nat)
    requires Geometry(c) && i < |c.areas|
    requires c.areas[i].kernel ==> k == Steps(c, c.areas[i], Pow2(c.shift[1]))
    ensures Covered(c, i + 1, 0, j) <==> Covered(c, i, k, j)
  {
    hide IndexOf, Visited, Steps, Pow2;
  }

  lemma CoveredAll(c: Config, j: nat)
    requires Geometry(c)
    ensures !Covered(c, 0, 0, j)
    ensures Covered(c, |c.areas|, 0, j) <==> KernelIndex(c, j)
  {
    hide IndexOf, Visited, Steps, Pow2;
  }

  /** `row` has the entries of `from` that the loops have met before turn `k` of area `i`, and no others. */
  ghost predicate Copied(c: Config, row: seq<nat>, from: seq<nat>, i: nat, k: nat)
    requires Geometry(c)
  {
    && |row| == |from| == c.Size(1)
    && forall j :: 0 <= j < |row| ==> row[j] == if Covered(c, i, k, j) then from[j] else 0
  }

  lemma CopiedInit(c: Config, from: seq<nat>)
    requires Geometry(c) && |from| == c.Size(1)
    ensures Copied(c, Zeros(c.Size(1)), from, 0, 0)
  {
    hide Covered;
    forall j: nat
      ensures !Covered(c, 0, 0, j)
    {
      CoveredAll(c, j);
    }
  }

  lemma CopiedNext(c: Config, row: seq<nat>, from: seq<nat>, i: nat, k: nat, row': seq<nat>, index: nat)
    requires Geometry(c) && KernelStep(c, i, k) && Copied(c, row, from, i, k) && index < |row|
    requires index == IndexOf(c, Visited(c, c.areas[i], Pow2(c.shift[1]), k), 1) && row' == row[index := from[index]]
    ensures Copied(c, row', from, i, k + 1)
  {
    hide Covered, IndexOf, Visited, Geometry, KernelStep;
    forall j | 0 <= j < |row|
      ensures row'[j] == if Covered(c, i, k + 1, j) then from[j] else 0
    {
      CoveredStep(c, i, k, j);
    }
  }

  lemma CopiedArea(c: Config, row: seq<nat>, from: seq<nat>, i: nat, k: nat)
    requires Geometry(c) && i < |c.areas| && Copied(c, row, from, i, k)
    requires c.areas[i].kernel ==> k == Steps(c, c.areas[i], Pow2(c.shift[1]))
    ensures Copied(c, row, from, i + 1, 0)
  {
    hide Covered, Geometry, Steps;
    forall j | 0 <= j < |row|
      ensures row[j] == if Covered(c, i + 1, 0, j) then from[j] else 0
    {
      CoveredArea(c, i, k, j);
    }
  }

  lemma CopiedAll(c: Config, row: seq<nat>, from: seq<nat>)
    requires Geometry(c) && Copied(c, row, from, |c.areas|, 0)
    ensures |row| == |from| && forall j :: 0 <= j < |row| ==> row[j] == if KernelIndex(c, j) then from[j] else 0
  {
    hide Covered, KernelIndex, Geometry;
    forall j | 0 <= j < |row|
      ensures row[j] == if KernelIndex(c, j) then from[j] else 0
    {
      CoveredAll(c, j);
    }
  }

  /** The pages met by the loops of `vme_init` before turn `k` of area `i`. */
  ghost predicate Met(c: Config, i: nat, k: nat, addr: nat) {
    exists i': nat, k': nat :: KernelVisit(c, i', k') && (i' < i || (i' == i && k' < k))
      && addr == Visited(c, c.areas[i'], PGSIZE, k')
  }

  lemma MetStep(c: Config, i: nat, k: nat, addr: nat)
    requires KernelVisit(c, i, k)
    ensures Met(c, i, k + 1, addr) <==> Met(c, i, k, addr) || addr == Visited(c, c.areas[i], PGSIZE, k)
  {
    hide Visited, Steps;
  }

  lemma MetArea(c: Config, i: nat, k: nat, addr: nat)
    requires i < |c.areas| && (c.areas[i].kernel ==> k == Steps(c, c.areas[i], PGSIZE))
    ensures Met(c, i + 1, 0, addr) <==> Met(c, i, k, addr)
  {
    hide Visited, Steps;
  }

  lemma MetAll(c: Config, addr: nat)
    ensures !Met(c, 0, 0, addr)
    ensures Met(c, |c.areas|, 0, addr) <==> KernelPage(c, addr)
  {
    hide Visited, Steps;
  }
}
