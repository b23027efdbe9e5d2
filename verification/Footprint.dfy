/** How many tables the kernel's tree needs: one for every path on the way to one of the kernel's pages. */
module Footprint {
  import opened Bits
  import opened Mmu
  import opened PageTables
  import opened Subtrees
  import opened AddressSpaces
  import opened Areas
  import opened Mappings

  /** The paths of the tables in use. */
  ghost function TreePaths(s: Trees): set<seq<nat>> {
    set t | t in s.owner && s.owner[t].path != [] :: s.owner[t].path
  }

  /** The paths of all tables on the way to a page of the kernel. */
  ghost function KernelPaths(c: Config): set<seq<nat>>
    requires Geometry(c)
  {
    set addr: nat, n: nat | addr < Pow2(c.width) && 1 <= n <= c.levels && KernelPage(c, addr) :: Path(c, addr, n)
  }

  /** A path on the way to a page met before turn `k` of area `i`. */
  ghost predicate PathMet(c: Config, i: nat, k: nat, p: seq<nat>)
    requires Geometry(c)
  {
    exists addr: nat, n: nat :: Met(c, i, k, addr) && 1 <= n <= c.levels && p == Path(c, addr, n)
  }

  /** The tables are those on the way to the pages met so far. */
  ghost predicate Charted(c: Config, s: Trees, i: nat, k: nat)
    requires Geometry(c)
  {
    forall p :: p in TreePaths(s) <==> PathMet(c, i, k, p)
  }

  lemma ChartedInit(c: Config, s: Trees, a: nat)
    requires Geometry(c) && s.owner == map[a := Node(a, [], a)]
    ensures Charted(c, s, 0, 0)
  {
    hide Met, Path, Geometry;
    assert TreePaths(s) == {};
    forall addr: nat
      ensures !Met(c, 0, 0, addr)
    {
      MetAll(c, addr);
    }
  }

  lemma ChartedArea(c: Config, s: Trees, i: nat, k: nat)
    requires Geometry(c) && Charted(c, s, i, k) && i < |c.areas|
    requires c.areas[i].kernel ==> k == Steps(c, c.areas[i], PGSIZE)
    ensures Charted(c, s, i + 1, 0)
  {
    hide Met, Path, Geometry, Steps, TreePaths;
    forall addr: nat
      ensures Met(c, i + 1, 0, addr) <==> Met(c, i, k, addr)
    {
      MetArea(c, i, k, addr);
    }
  }

  /** Between `s` and `s'` only tables on the way of `addr` have been added. */
  ghost predicate AddedFor(c: Config, s: Trees, s': Trees, addr: nat)
    requires Geometry(c)
  {
    && (forall t :: t in s.owner ==> t in s'.owner && s'.owner[t] == s.owner[t])
    && (forall t :: t in s'.owner && t !in s.owner ==> OnWay(c, s', t, |s'.owner[t].path|, addr))
  }

  lemma AddedRefl(c: Config, s: Trees, addr: nat)
    requires Geometry(c)
    ensures AddedFor(c, s, s, addr)
  {
  }

  lemma AddedTrans(c: Config, s0: Trees, s1: Trees, s2: Trees, addr: nat)
    requires Geometry(c) && AddedFor(c, s0, s1, addr) && AddedFor(c, s1, s2, addr)
    ensures AddedFor(c, s0, s2, addr)
  {
    hide Geometry, Path;
  }

  /** All tables on the way of `addr` exist in the tree of `a`. */
  ghost predicate Reached(c: Config, s: Trees, a: nat, addr: nat, i: nat)
    requires Geometry(c) && i <= c.levels
  {
    forall n :: 1 <= n <= i ==> Has(s, a, Path(c, addr, n))
  }

  ghost predicate Has(s: Trees, a: nat, p: seq<nat>) {
    exists t :: t in s.owner && s.owner[t].root == a && s.owner[t].path == p
  }

  lemma {:induction false} ReachedUp(c: Config, s: Trees, a: nat, addr: nat, i: nat, cur: nat)
    requires Geometry(c) && WellFormed(c, s) && OnWay(c, s, cur, i, addr) && s.owner[cur].root == a
    ensures Reached(c, s, a, addr, i)
    decreases i
  {
    hide WellFormed, KernelIndex, Present, BaseOf, UserBit, Writable, Geometry, IndexOf, Pow2;
    Lengths(c);
    if i > 0 {
      ParentAt(c, s, cur);
      var p := s.owner[cur].parent;
      assert Path(c, addr, i) == Path(c, addr, i - 1) + [IndexOf(c, addr, i - 1)];
      assert Path(c, addr, i)[..i - 1] == Path(c, addr, i - 1);
      ReachedUp(c, s, a, addr, i - 1, p);
      assert Has(s, a, Path(c, addr, i));
    }
  }

  /** Some table on the way of `addr` is missing. */
  ghost predicate Blocked(c: Config, s: Trees, a: nat, addr: nat)
    requires Geometry(c)
  {
    exists n: nat :: 1 <= n <= c.levels && !Has(s, a, Path(c, addr, n))
  }

  /** Below an entry that is not present there is no table. */
  lemma BlockedAt(c: Config, s: Trees, a: nat, addr: nat, i: nat, cur: nat)
    requires Geometry(c) && WellFormed(c, s) && Walking(c, s, a, addr, i, cur) && i < c.levels
    requires !Present(c, s.mem[cur][IndexOf(c, addr, i)])
    ensures Blocked(c, s, a, addr)
  {
    if Has(s, a, Path(c, addr, i + 1)) {
      var t :| t in s.owner && s.owner[t].root == a && s.owner[t].path == Path(c, addr, i + 1);
      ParentAt(c, s, t);
      hide WellFormed, KernelIndex, Present, BaseOf, UserBit, Writable, Geometry, IndexOf, Pow2;
      assert Path(c, addr, i + 1) == Path(c, addr, i) + [IndexOf(c, addr, i)];
      assert Path(c, addr, i + 1)[..i] == Path(c, addr, i);
      OneTable(c, s, s.owner[t].parent, cur);
    }
  }

  lemma ChartedTurn(c: Config, s: Trees, s': Trees, i: nat, k: nat, cur: nat)
    requires Geometry(c) && Charted(c, s, i, k) && KernelVisit(c, i, k) && cur == Visited(c, c.areas[i], PGSIZE, k)
    requires AddedFor(c, s, s', cur) && Reached(c, s', s'.kernel, cur, c.levels)
    ensures Charted(c, s', i, k + 1)
  {
    hide Met, Path, Geometry, KernelVisit, Visited, TreePaths;
    forall addr: nat
      ensures Met(c, i, k + 1, addr) <==> Met(c, i, k, addr) || addr == cur
    {
      MetStep(c, i, k, addr);
    }
    forall p
      ensures p in TreePaths(s') <==> PathMet(c, i, k + 1, p)
    {
      AddedPath(c, s, s', cur, p);
      if p in TreePaths(s') {
        if p in TreePaths(s) {
          var addr: nat, n: nat :| Met(c, i, k, addr) && 1 <= n <= c.levels && p == Path(c, addr, n);
          assert Met(c, i, k + 1, addr);
        }
      }
      if PathMet(c, i, k + 1, p) {
        var addr: nat, n: nat :| Met(c, i, k + 1, addr) && 1 <= n <= c.levels && p == Path(c, addr, n);
        if addr != cur {
          assert PathMet(c, i, k, p);
        } else {
          ReachedPath(c, s', cur, n);
        }
      }
    }
  }

  lemma OwnPath(s: Trees, t: nat)
    requires t in s.owner && s.owner[t].path != []
    ensures s.owner[t].path in TreePaths(s)
  {
  }

  lemma NewPath(c: Config, s: Trees, t: nat, cur: nat)
    requires Geometry(c) && t in s.owner && s.owner[t].path != [] && OnWay(c, s, t, |s.owner[t].path|, cur)
    ensures exists n: nat :: 1 <= n <= c.levels && s.owner[t].path == Path(c, cur, n)
  {
    var n: nat := |s.owner[t].path|;
    assert 1 <= n <= c.levels && s.owner[t].path == Path(c, cur, n);
  }

  lemma AddedPath(c: Config, s: Trees, s': Trees, cur: nat, p: seq<nat>)
    requires Geometry(c) && AddedFor(c, s, s', cur)
    ensures p in TreePaths(s) ==> p in TreePaths(s')
    ensures p in TreePaths(s') ==> p in TreePaths(s) || (exists n: nat :: 1 <= n <= c.levels && p == Path(c, cur, n))
  {
    hide Path, Geometry;
    if p in TreePaths(s) {
      var t :| t in s.owner && s.owner[t].path != [] && s.owner[t].path == p;
      assert t in s'.owner && s'.owner[t].path == p;
    } else if p in TreePaths(s') {
      var t :| t in s'.owner && s'.owner[t].path != [] && s'.owner[t].path == p;
      if t in s.owner {
        OwnPath(s, t);
      } else {
        NewPath(c, s', t, cur);
      }
    }
  }

  lemma ReachedPath(c: Config, s: Trees, cur: nat, n: nat)
    requires Geometry(c) && Reached(c, s, s.kernel, cur, c.levels) && 1 <= n <= c.levels
    ensures Path(c, cur, n) in TreePaths(s)
  {
    hide Path, Geometry;
    assert Has(s, s.kernel, Path(c, cur, n));
  }

  /** A tree has as many tables as paths. */
  lemma CountTables(c: Config, s: Trees)
    requires Geometry(c) && WellFormed(c, s) && Alone(s, s.kernel)
    ensures |TreePaths(s)| == |Owned(s)|
  {
    forall t, u | t in Owned(s) && u in Owned(s) && s.owner[t].path == s.owner[u].path
      ensures t == u
    {
      hide WellFormed, Geometry;
      OneTable(c, s, t, u);
    }
    CountPaths(s.owner, Owned(s));
    assert TreePaths(s) == PathsOf(s.owner, Owned(s));
  }

  ghost function PathsOf(owner: map<nat, Node>, ts: set<nat>): set<seq<nat>>
    requires ts <= owner.Keys
  {
    set t | t in ts :: owner[t].path
  }

  lemma {:induction false} CountPaths(owner: map<nat, Node>, ts: set<nat>)
    requires ts <= owner.Keys && forall t, u :: t in ts && u in ts && owner[t].path == owner[u].path ==> t == u
    ensures |PathsOf(owner, ts)| == |ts|
  {
    if ts == {} {
      assert PathsOf(owner, ts) == {};
    } else {
      var t :| t in ts;
      CountPaths(owner, ts - {t});
      assert PathsOf(owner, ts) == PathsOf(owner, ts - {t}) + {owner[t].path};
    }
  }

  /** When all areas are done, the tables are as many as the kernel's paths; */
  lemma ChartedDone(c: Config, s: Trees)
    requires Layout(c) && Charted(c, s, |c.areas|, 0)
    ensures TreePaths(s) == KernelPaths(c)
  {
    forall p
      ensures p in TreePaths(s) <==> p in KernelPaths(c)
    {
      AllMet(c, p);
    }
  }

  lemma AllMet(c: Config, p: seq<nat>)
    requires Layout(c)
    ensures PathMet(c, |c.areas|, 0, p) <==> p in KernelPaths(c)
  {
    KernelRange(c);
    hide Met, Path, Geometry, KernelPage, Layout, Pow2;
    forall addr: nat
      ensures Met(c, |c.areas|, 0, addr) <==> KernelPage(c, addr)
    {
      MetAll(c, addr);
    }
  }

  lemma KernelRange(c: Config)
    requires Layout(c)
    ensures forall addr: nat :: KernelPage(c, addr) ==> addr < Pow2(c.width)
  {
    hide KernelPage, KernelIndex, Pow2;
    Powers(c, 1);
  }

  /** and when a walk is blocked before, they are fewer. */
  lemma BlockedShort(c: Config, s: Trees, s': Trees, i: nat, k: nat, cur: nat)
    requires Layout(c) && Charted(c, s, i, k) && KernelVisit(c, i, k) && cur == Visited(c, c.areas[i], PGSIZE, k)
    requires AddedFor(c, s, s', cur) && Alone(s', s'.kernel) && Blocked(c, s', s'.kernel, cur)
    ensures |TreePaths(s')| < |KernelPaths(c)|
  {
    assert KernelPage(c, cur);
    var n :| 1 <= n <= c.levels && !Has(s', s'.kernel, Path(c, cur, n));
    forall p | p in TreePaths(s')
      ensures p in KernelPaths(c)
    {
      hide Path, KernelPage, KernelPaths, Layout, Pow2, TreePaths, Met;
      AddedPath(c, s, s', cur, p);
      if p in TreePaths(s) {
        assert PathMet(c, i, k, p);
        MetBefore(c, i, k, p);
      } else {
        InKernel(c, cur, p);
      }
    }
    InKernel(c, cur, Path(c, cur, n));
    hide Path, KernelPage, KernelPaths, Layout, Pow2, Met, Geometry;
    assert Path(c, cur, n) !in TreePaths(s');
    assert TreePaths(s') <= KernelPaths(c) - {Path(c, cur, n)};
    SmallerSet(TreePaths(s'), KernelPaths(c) - {Path(c, cur, n)});
  }

  lemma InKernel(c: Config, addr: nat, p: seq<nat>)
    requires Layout(c) && KernelPage(c, addr) && exists n: nat :: 1 <= n <= c.levels && p == Path(c, addr, n)
    ensures p in KernelPaths(c)
  {
    KernelRange(c);
    hide Path, KernelPage, Layout, Pow2, Geometry;
  }

  lemma MetBefore(c: Config, i: nat, k: nat, p: seq<nat>)
    requires Layout(c) && PathMet(c, i, k, p)
    ensures p in KernelPaths(c)
  {
    var addr: nat, n: nat :| Met(c, i, k, addr) && 1 <= n <= c.levels && p == Path(c, addr, n);
    hide Path, KernelPaths, Layout, Pow2, Geometry, Visited;
    assert KernelPage(c, addr);
    InKernel(c, addr, p);
  }

  lemma {:induction false} SmallerSet<T>(a: set<T>, b: set<T>)
    requires a <= b
    ensures |a| <= |b|
  {
    assert b == a + (b - a);
  }
}
