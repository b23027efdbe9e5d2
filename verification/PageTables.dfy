/** The heap of table pages: what every operation keeps, and what one write to a slot changes. */
module PageTables {
  import opened Bits
  import opened Mmu
  import opened Options

  /** Where a table hangs: the address-space slot its tree starts from, the indices on the way, and its parent. */
  datatype Node = Node(root: nat, path: seq<nat>, parent: nat)

  type Memory = map<nat, seq<nat>>

  /** Memory, the ghost ownership of tables, the kernel's level-0 slot and its level-1 table. */
  datatype Trees = Trees(mem: Memory, owner: map<nat, Node>, kernel: nat, kpt: nat)

  lemma ModRange(x: int, m: nat)
    requires m > 0
    ensures 0 <= x % m < m
  {
  }

  /** The pages of an area, `step` bytes apart, the way its loops visit them: addresses wrap. */
  function Visited(c: Config, area: Area, step: nat, k: nat): nat {
    ModRange(area.start + k * step, Pow2(c.width));
    (area.start + k * step) % Pow2(c.width)
  }

  function Steps(c: Config, area: Area, step: nat): (n: nat)
    requires step > 0
  {
    ModRange(area.end - area.start, Pow2(c.width));
    DivMod((area.end - area.start) % Pow2(c.width), step);
    (area.end - area.start) % Pow2(c.width) / step
  }

  /** The level-1 entries that the kernel's areas cover. */
  ghost predicate KernelIndex(c: Config, j: nat)
    requires Geometry(c)
  {
    exists i: nat, k: nat :: KernelStep(c, i, k) && j == IndexOf(c, Visited(c, c.areas[i], Pow2(c.shift[1]), k), 1)
  }

  ghost predicate KernelStep(c: Config, i: nat, k: nat)
    requires Geometry(c)
  {
    i < |c.areas| && c.areas[i].kernel && k < Steps(c, c.areas[i], Pow2(c.shift[1]))
  }

  /** The table reached from `t` at level `i` by present entries only. */
  ghost function Leaf(c: Config, mem: Memory, t: nat, i: nat, addr: nat): Option<nat>
    requires Geometry(c)
    decreases c.levels - i
  {
    if i >= c.levels then Some(t)
    else if t in mem && IndexOf(c, addr, i) < |mem[t]| && Present(c, mem[t][IndexOf(c, addr, i)]) then
      Leaf(c, mem, BaseOf(c, mem[t][IndexOf(c, addr, i)]), i + 1, addr)
    else None
  }

  /** The last-level entry that translates `addr`, or 0 where the walk ends early. */
  ghost function Entry(c: Config, mem: Memory, t: nat, i: nat, addr: nat): nat
    requires Geometry(c)
  {
    match Leaf(c, mem, t, i, addr)
    case None => 0
    case Some(r) => if r in mem && IndexOf(c, addr, c.levels) < |mem[r]| then mem[r][IndexOf(c, addr, c.levels)] else 0
  }

  /** The first `n` indices of an address: the path of the level-`n` table on its way. */
  ghost function Path(c: Config, addr: nat, n: nat): (p: seq<nat>)
    requires Geometry(c) && n <= c.levels
    ensures |p| == n
  {
    if n == 0 then [] else Path(c, addr, n - 1) + [IndexOf(c, addr, n - 1)]
  }

  ghost predicate Shape(c: Config, s: Trees, t: nat)
    requires Geometry(c) && t in s.owner
  {
    var n := s.owner[t];
    && |n.path| <= c.levels
    && t in s.mem && |s.mem[t]| == c.Size(|n.path|)
    && (forall j :: 0 <= j < |s.mem[t]| ==> s.mem[t][j] < Pow2(c.width))
    && n.root in s.owner && s.owner[n.root].path == []
    && (n.path == [] ==> n.root == t)
    && (n.path != [] ==> t % PGSIZE == 0 && 0 < t < Pow2(c.width))
  }

  /** A table below the root is what its parent's entry points to. */
  ghost predicate Hangs(c: Config, s: Trees, t: nat)
    requires Geometry(c) && t in s.owner
  {
    var n := s.owner[t];
    n.path != [] ==>
      && n.parent in s.owner && n.parent in s.mem
      && s.owner[n.parent].root == n.root
      && s.owner[n.parent].path == n.path[..|n.path| - 1]
      && n.path[|n.path| - 1] < |s.mem[n.parent]|
      && Present(c, s.mem[n.parent][n.path[|n.path| - 1]])
      && BaseOf(c, s.mem[n.parent][n.path[|n.path| - 1]]) == t
  }

  /**
   * What a present entry above the last level points to: a table one level down. The entry is marked user unless the
   * table is the kernel's, and writable; a slot has no such bits.
   */
  ghost predicate Points(c: Config, s: Trees, t: nat, j: nat)
    requires Geometry(c) && t in s.owner && t in s.mem && j < |s.mem[t]|
  {
    var n, e := s.owner[t], s.mem[t][j];
    |n.path| < c.levels && Present(c, e) ==>
      && BaseOf(c, e) in s.owner
      && s.owner[BaseOf(c, e)].path == n.path + [j]
      && (UserBit(c, e) <==> s.owner[BaseOf(c, e)].root != s.kernel)
      && (n.path != [] ==> Writable(c, e))
      && (s.owner[BaseOf(c, e)].root == n.root
          || (s.owner[BaseOf(c, e)].root == s.kernel && |n.path| == 1 && KernelIndex(c, j)))
  }

  /** Every user tree's level-1 table has the kernel's entries. */
  ghost predicate Shares(c: Config, s: Trees, t: nat)
    requires Geometry(c) && t in s.owner && t in s.mem
  {
    s.owner[t].root != s.kernel && |s.owner[t].path| == 1 ==>
      && s.kpt in s.owner && s.kpt in s.mem && s.owner[s.kpt].root == s.kernel && |s.owner[s.kpt].path| == 1
      && |s.mem[s.kpt]| == |s.mem[t]|
      && forall j :: 0 <= j < |s.mem[t]| && KernelIndex(c, j) ==> s.mem[t][j] == s.mem[s.kpt][j]
  }

  ghost predicate TableOk(c: Config, s: Trees, t: nat)
    requires Geometry(c) && t in s.owner
  {
    && Shape(c, s, t) && Hangs(c, s, t) && Shares(c, s, t)
    && forall j :: 0 <= j < |s.mem[t]| ==> Points(c, s, t, j)
  }

  /** The invariant of every run. */
  ghost predicate WellFormed(c: Config, s: Trees)
    requires Geometry(c)
  {
    forall t :: t in s.owner ==> TableOk(c, s, t)
  }

  lemma ShapeAt(c: Config, s: Trees, t: nat)
    requires Geometry(c) && WellFormed(c, s) && t in s.owner
    ensures Shape(c, s, t)
  {
    assert TableOk(c, s, t);
  }

  /** Following one present entry. */
  lemma Follow(c: Config, s: Trees, t: nat, j: nat) returns (b: nat)
    requires Geometry(c) && WellFormed(c, s) && t in s.owner && |s.owner[t].path| < c.levels
    requires t in s.mem && j < |s.mem[t]| && Present(c, s.mem[t][j])
    ensures b == BaseOf(c, s.mem[t][j]) && b in s.owner && s.owner[b].path == s.owner[t].path + [j]
    ensures UserBit(c, s.mem[t][j]) <==> s.owner[b].root != s.kernel
    ensures s.owner[t].path != [] ==> Writable(c, s.mem[t][j])
    ensures s.owner[b].root == s.owner[t].root
         || (s.owner[b].root == s.kernel && |s.owner[t].path| == 1 && KernelIndex(c, j))
  {
    assert TableOk(c, s, t);
    hide WellFormed, TableOk;
    assert Points(c, s, t, j);
    b := BaseOf(c, s.mem[t][j]);
  }

  /** `t` is the table of its tree on the way of `addr`. */
  ghost predicate OnWay(c: Config, s: Trees, t: nat, i: nat, addr: nat)
    requires Geometry(c)
  {
    t in s.owner && i <= c.levels && s.owner[t].path == Path(c, addr, i)
  }

  lemma Lengths(c: Config)
    requires Geometry(c)
    ensures |c.mask| == |c.shift| == c.levels + 1 && c.levels >= 2 && c.width >= 13
  {
  }

  /** A walk that succeeds ends in the table whose path is the address's indices. */
  lemma {:induction false} WalkOk(c: Config, s: Trees, t: nat, i: nat, addr: nat)
    requires Geometry(c) && WellFormed(c, s) && OnWay(c, s, t, i, addr)
    ensures var l := Leaf(c, s.mem, t, i, addr);
      l.Some? ==>
        && OnWay(c, s, l.value, c.levels, addr)
        && (s.owner[l.value].root != s.owner[t].root ==>
              s.owner[l.value].root == s.kernel && i <= 1 && KernelIndex(c, IndexOf(c, addr, 1)))
    decreases c.levels - i
  {
    hide WellFormed, Geometry, KernelIndex, IndexOf, Present, BaseOf, UserBit, Writable;
    Lengths(c);
    if i < c.levels && Leaf(c, s.mem, t, i, addr).Some? {
      var b := Follow(c, s, t, IndexOf(c, addr, i));
      assert Path(c, addr, i + 1) == Path(c, addr, i) + [IndexOf(c, addr, i)];
      WalkOk(c, s, b, i + 1, addr);
    }
  }

  /** A table's node does not change. */
  ghost predicate Kept(s: Trees, s': Trees, t: nat) {
    t in s.owner && t in s'.owner && s'.owner[t] == s.owner[t]
  }

  /** The entry of its parent that a table hangs on does not change. */
  ghost predicate ParentKept(s: Trees, s': Trees, t: nat)
    requires t in s.owner
  {
    var n := s.owner[t];
    n.path != [] ==>
      && Kept(s, s', n.parent) && n.parent in s.mem && n.parent in s'.mem
      && |s.mem[n.parent]| == |s'.mem[n.parent]|
      && (n.path[|n.path| - 1] < |s.mem[n.parent]| ==>
            s'.mem[n.parent][n.path[|n.path| - 1]] == s.mem[n.parent][n.path[|n.path| - 1]])
  }

  ghost predicate SharedKept(c: Config, s: Trees, s': Trees)
    requires Geometry(c)
  {
    && Kept(s, s', s.kpt) && s.kpt in s.mem && s.kpt in s'.mem && |s.mem[s.kpt]| == |s'.mem[s.kpt]|
    && forall j :: 0 <= j < |s.mem[s.kpt]| && KernelIndex(c, j) ==> s'.mem[s.kpt][j] == s.mem[s.kpt][j]
  }

  /** Nothing that `TableOk(c, s, t)` looks at changes. */
  ghost predicate Undisturbed(c: Config, s: Trees, s': Trees, t: nat)
    requires Geometry(c)
  {
    && s'.kernel == s.kernel && s'.kpt == s.kpt
    && Kept(s, s', t) && Kept(s, s', s.owner[t].root) && ParentKept(s, s', t)
    && t in s.mem && t in s'.mem && s'.mem[t] == s.mem[t]
    && (s.owner[t].root != s.kernel && |s.owner[t].path| == 1 ==> SharedKept(c, s, s'))
    && forall j :: 0 <= j < |s.mem[t]| && |s.owner[t].path| < c.levels && Present(c, s.mem[t][j]) ==>
         Kept(s, s', BaseOf(c, s.mem[t][j]))
  }

  lemma TableFrame(c: Config, s: Trees, s': Trees, t: nat)
    requires Geometry(c) && t in s.owner && TableOk(c, s, t) && Undisturbed(c, s, s', t)
    ensures TableOk(c, s', t)
  {
    hide KernelIndex, Present, BaseOf, UserBit, Writable, Pow2, Geometry, WellFormed;
    assert Shape(c, s', t) by {
      hide Hangs, Shares, Points, SharedKept, ParentKept;
    }
    assert Hangs(c, s', t) by {
      hide Shares, Points, SharedKept;
    }
    assert Shares(c, s', t) by {
      hide Hangs, Points, ParentKept;
    }
    forall j | 0 <= j < |s'.mem[t]|
      ensures Points(c, s', t, j)
    {
      hide Hangs, Shares, SharedKept, ParentKept;
      assert Points(c, s, t, j);
    }
  }

  /** What `TableOk` says about the tables around `t`. */
  lemma Surroundings(c: Config, s: Trees, t: nat)
    requires Geometry(c) && t in s.owner && TableOk(c, s, t)
    ensures |s.owner[t].path| <= c.levels && t in s.mem && s.owner[t].root in s.owner
    ensures var n := s.owner[t];
      n.path != [] ==> n.parent in s.owner && n.parent in s.mem && |s.owner[n.parent].path| == |n.path| - 1
    ensures s.owner[t].root != s.kernel && |s.owner[t].path| == 1 ==>
      s.kpt in s.owner && s.kpt in s.mem && |s.owner[s.kpt].path| == 1
    ensures forall j :: 0 <= j < |s.mem[t]| && |s.owner[t].path| < c.levels && Present(c, s.mem[t][j]) ==>
      BaseOf(c, s.mem[t][j]) in s.owner
  {
    hide KernelIndex, Present, BaseOf, UserBit, Writable, Pow2, WellFormed;
    forall j | 0 <= j < |s.mem[t]| && |s.owner[t].path| < c.levels && Present(c, s.mem[t][j])
      ensures BaseOf(c, s.mem[t][j]) in s.owner
    {
      assert Points(c, s, t, j);
    }
  }

  /** Writing one last-level entry. */
  ghost function Stored(s: Trees, t: nat, j: nat, v: nat): Trees
    requires t in s.mem && j < |s.mem[t]|
  {
    var row: seq<nat> := s.mem[t][j := v];
    s.(mem := s.mem[t := row])
  }

  lemma StoreKeeps(c: Config, s: Trees, t0: nat, j: nat, v: nat)
    requires Geometry(c) && WellFormed(c, s) && t0 in s.owner && |s.owner[t0].path| == c.levels
    requires t0 in s.mem && j < |s.mem[t0]| && v < Pow2(c.width)
    ensures WellFormed(c, Stored(s, t0, j, v))
  {
    var s' := Stored(s, t0, j, v);
    forall t | t in s'.owner
      ensures TableOk(c, s', t)
    {
      StoreTable(c, s, t0, j, v, t);
    }
  }

  lemma StoreTable(c: Config, s: Trees, t0: nat, j: nat, v: nat, t: nat)
    requires Geometry(c) && WellFormed(c, s) && t0 in s.owner && |s.owner[t0].path| == c.levels
    requires t0 in s.mem && j < |s.mem[t0]| && v < Pow2(c.width) && t in s.owner
    ensures TableOk(c, Stored(s, t0, j, v), t)
  {
    assert TableOk(c, s, t);
    hide WellFormed, TableOk;
    if t == t0 {
      StoreSelf(c, s, t0, j, v);
    } else {
      StoreOther(c, s, t0, j, v, t);
    }
  }

  lemma StoreSelf(c: Config, s: Trees, t0: nat, j: nat, v: nat)
    requires Geometry(c) && t0 in s.owner && |s.owner[t0].path| == c.levels && TableOk(c, s, t0)
    requires t0 in s.mem && j < |s.mem[t0]| && v < Pow2(c.width)
    ensures TableOk(c, Stored(s, t0, j, v), t0)
  {
    hide KernelIndex, Present, BaseOf, UserBit, Writable, Pow2;
  }

  lemma StoreOther(c: Config, s: Trees, t0: nat, j: nat, v: nat, t: nat)
    requires Geometry(c) && t0 in s.owner && |s.owner[t0].path| == c.levels
    requires t0 in s.mem && j < |s.mem[t0]| && t in s.owner && t != t0 && TableOk(c, s, t)
    ensures TableOk(c, Stored(s, t0, j, v), t)
  {
    hide KernelIndex, Present, BaseOf, UserBit, Writable, Pow2, TableOk;
    Surroundings(c, s, t);
    TableFrame(c, s, Stored(s, t0, j, v), t);
  }

  lemma LeafStep(c: Config, m: Memory, t: nat, i: nat, addr: nat)
    requires Geometry(c) && i < c.levels
    ensures |c.mask| == |c.shift| == c.levels + 1
    ensures var k := IndexOf(c, addr, i);
      Leaf(c, m, t, i, addr) ==
        if t in m && k < |m[t]| && Present(c, m[t][k]) then Leaf(c, m, BaseOf(c, m[t][k]), i + 1, addr) else None
  {
    hide Present, BaseOf, IndexOf;
  }

  lemma LastLeaf(c: Config, m: Memory, t: nat, addr: nat)
    requires Geometry(c)
    ensures Leaf(c, m, t, c.levels, addr) == Some(t)
  {
  }

  /** It changes no walk, */
  lemma {:induction false} StoreLeaf(c: Config, s: Trees, t0: nat, j: nat, v: nat, t: nat, i: nat, addr: nat)
    requires Geometry(c) && WellFormed(c, s) && t0 in s.owner && |s.owner[t0].path| == c.levels
    requires t0 in s.mem && j < |s.mem[t0]| && OnWay(c, s, t, i, addr)
    ensures Leaf(c, Stored(s, t0, j, v).mem, t, i, addr) == Leaf(c, s.mem, t, i, addr)
    decreases c.levels - i
  {
    hide WellFormed, KernelIndex, Present, BaseOf, UserBit, Writable, IndexOf, Geometry, Leaf;
    Lengths(c);
    if i == c.levels {
      LastLeaf(c, s.mem, t, addr);
      LastLeaf(c, Stored(s, t0, j, v).mem, t, addr);
    } else {
      assert t != t0;
      LeafStep(c, s.mem, t, i, addr);
      LeafStep(c, Stored(s, t0, j, v).mem, t, i, addr);
      var k := IndexOf(c, addr, i);
      if t in s.mem && k < |s.mem[t]| && Present(c, s.mem[t][k]) {
        var b := Follow(c, s, t, k);
        assert Path(c, addr, i + 1) == Path(c, addr, i) + [k];
        StoreLeaf(c, s, t0, j, v, b, i + 1, addr);
      }
    }
  }

  /** and only the translation of the address whose walk ends in that entry. */
  lemma StoreEntry(c: Config, s: Trees, t0: nat, j: nat, v: nat, t: nat, i: nat, addr: nat)
    requires Geometry(c) && WellFormed(c, s) && t0 in s.owner && |s.owner[t0].path| == c.levels
    requires t0 in s.mem && j < |s.mem[t0]| && OnWay(c, s, t, i, addr)
    ensures Entry(c, Stored(s, t0, j, v).mem, t, i, addr) ==
            if Leaf(c, s.mem, t, i, addr) == Some(t0) && IndexOf(c, addr, c.levels) == j then v
            else Entry(c, s.mem, t, i, addr)
  {
    StoreLeaf(c, s, t0, j, v, t, i, addr);
    hide WellFormed, KernelIndex, Present, BaseOf, UserBit, Writable, IndexOf, OnWay, Leaf;
  }

  function Zeros(n: nat): (z: seq<nat>)
    ensures |z| == n && forall k :: 0 <= k < n ==> z[k] == 0
  {
    seq(n, _ => 0)
  }

  /** Hanging a fresh, cleared page at an entry that was not present. */
  ghost predicate Linkable(c: Config, s: Trees, t0: nat, j: nat, page: nat, e: nat)
    requires Geometry(c)
  {
    && t0 in s.owner && |s.owner[t0].path| < c.levels
    && t0 in s.mem && j < |s.mem[t0]| && !Present(c, s.mem[t0][j])
    && page !in s.owner && page !in s.mem && page % PGSIZE == 0 && 0 < page < Pow2(c.width)
    && e < Pow2(c.width) && Present(c, e) && BaseOf(c, e) == page && Writable(c, e)
    && (UserBit(c, e) <==> s.owner[t0].root != s.kernel)
    && (|s.owner[t0].path| == 0 ==> s.owner[t0].root == s.kernel)
    && (|s.owner[t0].path| == 1 && KernelIndex(c, j) ==> forall t :: t in s.owner ==> s.owner[t].root == s.kernel)
  }

  ghost function Linked(c: Config, s: Trees, t0: nat, j: nat, page: nat, e: nat): Trees
    requires Geometry(c) && Linkable(c, s, t0, j, page, e)
  {
    var row: seq<nat> := s.mem[t0][j := e];
    s.(mem := s.mem[page := Zeros(c.Size(|s.owner[t0].path| + 1))][t0 := row],
       owner := s.owner[page := Node(s.owner[t0].root, s.owner[t0].path + [j], t0)])
  }

  lemma LinkKeeps(c: Config, s: Trees, t0: nat, j: nat, page: nat, e: nat)
    requires Geometry(c) && WellFormed(c, s) && Linkable(c, s, t0, j, page, e)
    ensures WellFormed(c, Linked(c, s, t0, j, page, e))
  {
    var s' := Linked(c, s, t0, j, page, e);
    forall t | t in s'.owner
      ensures TableOk(c, s', t)
    {
      LinkTable(c, s, t0, j, page, e, t);
    }
  }

  lemma LinkTable(c: Config, s: Trees, t0: nat, j: nat, page: nat, e: nat, t: nat)
    requires Geometry(c) && WellFormed(c, s) && Linkable(c, s, t0, j, page, e)
    requires t in Linked(c, s, t0, j, page, e).owner
    ensures TableOk(c, Linked(c, s, t0, j, page, e), t)
  {
    assert TableOk(c, s, t0);
    assert t != page ==> TableOk(c, s, t);
    hide WellFormed, TableOk;
    if t == page {
      LinkNew(c, s, t0, j, page, e);
    } else if t == t0 {
      LinkParent(c, s, t0, j, page, e);
    } else {
      hide Linkable;
      LinkOther(c, s, t0, j, page, e, t);
    }
  }

  lemma LinkNew(c: Config, s: Trees, t0: nat, j: nat, page: nat, e: nat)
    requires Geometry(c) && Linkable(c, s, t0, j, page, e) && TableOk(c, s, t0)
    ensures page in Linked(c, s, t0, j, page, e).owner && TableOk(c, Linked(c, s, t0, j, page, e), page)
  {
    var s' := Linked(c, s, t0, j, page, e);
    var n := s'.owner[page];
    assert |n.path| == |s.owner[t0].path| + 1 && n.path[..|n.path| - 1] == s.owner[t0].path;
    ZeroEntry(c);
    hide KernelIndex, Present, BaseOf, UserBit, Writable, Pow2, Zeros;
    assert Hangs(c, s', page);
    assert Shape(c, s', page);
    assert forall k :: 0 <= k < |s'.mem[page]| ==> Points(c, s', page, k);
  }

  lemma LinkParent(c: Config, s: Trees, t0: nat, j: nat, page: nat, e: nat)
    requires Geometry(c) && Linkable(c, s, t0, j, page, e) && TableOk(c, s, t0)
    ensures t0 in Linked(c, s, t0, j, page, e).owner && TableOk(c, Linked(c, s, t0, j, page, e), t0)
  {
    var s' := Linked(c, s, t0, j, page, e);
    Surroundings(c, s, t0);
    assert |s'.owner[page].path| == |s.owner[t0].path| + 1;
    hide KernelIndex, Present, BaseOf, UserBit, Writable, Pow2, Zeros;
    assert Shape(c, s', t0) && Hangs(c, s', t0) by {
      hide Shares, Points;
    }
    assert Shares(c, s', t0) by {
      hide Hangs, Points;
    }
    forall k | 0 <= k < |s'.mem[t0]|
      ensures Points(c, s', t0, k)
    {
      hide Hangs, Shares;
      assert Points(c, s, t0, k);
    }
  }

  lemma LinkOther(c: Config, s: Trees, t0: nat, j: nat, page: nat, e: nat, t: nat)
    requires Geometry(c) && Linkable(c, s, t0, j, page, e) && t in s.owner && t != t0 && TableOk(c, s, t)
    ensures t in Linked(c, s, t0, j, page, e).owner && TableOk(c, Linked(c, s, t0, j, page, e), t)
  {
    hide KernelIndex, Present, BaseOf, UserBit, Writable, Pow2, Zeros;
    Surroundings(c, s, t);
    TableFrame(c, s, Linked(c, s, t0, j, page, e), t);
  }

  /** One step of a walk. */
  lemma EntryStep(c: Config, m: Memory, t: nat, i: nat, addr: nat)
    requires Geometry(c) && i < c.levels && t in m
    ensures Entry(c, m, t, i, addr) ==
            if IndexOf(c, addr, i) < |m[t]| && Present(c, m[t][IndexOf(c, addr, i)]) then
              Entry(c, m, BaseOf(c, m[t][IndexOf(c, addr, i)]), i + 1, addr)
            else 0
    ensures Leaf(c, m, t, i, addr) ==
            if IndexOf(c, addr, i) < |m[t]| && Present(c, m[t][IndexOf(c, addr, i)]) then
              Leaf(c, m, BaseOf(c, m[t][IndexOf(c, addr, i)]), i + 1, addr)
            else None
  {
    hide Present, BaseOf, IndexOf;
  }

  /** What linking does to entry `k` of a table. */
  lemma LinkRow(c: Config, s: Trees, t0: nat, j: nat, page: nat, e: nat, t: nat, k: nat)
    requires Geometry(c) && Linkable(c, s, t0, j, page, e) && t in s.mem && k < |s.mem[t]|
    ensures var m := Linked(c, s, t0, j, page, e).mem;
      && t in m && |m[t]| == |s.mem[t]| && page in m && m[page] == Zeros(c.Size(|s.owner[t0].path| + 1))
      && (t == t0 && k == j ==> !Present(c, s.mem[t][k]) && Present(c, m[t][k]) && BaseOf(c, m[t][k]) == page)
      && (t != t0 || k != j ==> m[t][k] == s.mem[t][k])
  {
    hide Present, BaseOf, KernelIndex, UserBit, Writable, Pow2, Zeros;
  }

  /** No address is translated differently after that. */
  lemma {:induction false} LinkEntry(c: Config, s: Trees, t0: nat, j: nat, page: nat, e: nat, t: nat, i: nat, addr: nat)
    requires Geometry(c) && WellFormed(c, s) && Linkable(c, s, t0, j, page, e) && OnWay(c, s, t, i, addr)
    ensures var m := Linked(c, s, t0, j, page, e).mem;
      && Entry(c, m, t, i, addr) == Entry(c, s.mem, t, i, addr)
      && (Leaf(c, s.mem, t, i, addr).Some? ==> Leaf(c, m, t, i, addr) == Leaf(c, s.mem, t, i, addr))
    decreases c.levels - i
  {
    hide WellFormed, KernelIndex, Present, BaseOf, UserBit, Writable, IndexOf, Linked, Linkable, Entry, Leaf, Geometry,
      Zeros;
    if i == c.levels {
      LinkEntryEnd(c, s, t0, j, page, e, t, addr);
    } else {
      LinkEntryStep(c, s, t0, j, page, e, t, i, addr);
      var k := IndexOf(c, addr, i);
      if k < |s.mem[t]| && Present(c, s.mem[t][k]) {
        var b := Follow(c, s, t, k);
        assert Path(c, addr, i + 1) == Path(c, addr, i) + [k];
        LinkEntry(c, s, t0, j, page, e, b, i + 1, addr);
      }
    }
  }

  lemma LinkEntryEnd(c: Config, s: Trees, t0: nat, j: nat, page: nat, e: nat, t: nat, addr: nat)
    requires Geometry(c) && Linkable(c, s, t0, j, page, e) && OnWay(c, s, t, c.levels, addr)
    ensures var m := Linked(c, s, t0, j, page, e).mem;
      && Entry(c, m, t, c.levels, addr) == Entry(c, s.mem, t, c.levels, addr)
      && Leaf(c, m, t, c.levels, addr) == Leaf(c, s.mem, t, c.levels, addr)
  {
    Lengths(c);
    LastLeaf(c, s.mem, t, addr);
    LastLeaf(c, Linked(c, s, t0, j, page, e).mem, t, addr);
    hide KernelIndex, Present, BaseOf, UserBit, Writable, IndexOf, Zeros, Geometry, Leaf;
    assert t != t0 && t != page;
  }

  lemma LinkEntryStep(c: Config, s: Trees, t0: nat, j: nat, page: nat, e: nat, t: nat, i: nat, addr: nat)
    requires Geometry(c) && WellFormed(c, s) && Linkable(c, s, t0, j, page, e) && OnWay(c, s, t, i, addr)
      && i < c.levels
    ensures t in s.mem && |c.mask| == |c.shift| == c.levels + 1
    ensures var m, k := Linked(c, s, t0, j, page, e).mem, IndexOf(c, addr, i);
      if k < |s.mem[t]| && Present(c, s.mem[t][k]) then
        && Entry(c, m, t, i, addr) == Entry(c, m, BaseOf(c, s.mem[t][k]), i + 1, addr)
        && Entry(c, s.mem, t, i, addr) == Entry(c, s.mem, BaseOf(c, s.mem[t][k]), i + 1, addr)
        && Leaf(c, m, t, i, addr) == Leaf(c, m, BaseOf(c, s.mem[t][k]), i + 1, addr)
        && Leaf(c, s.mem, t, i, addr) == Leaf(c, s.mem, BaseOf(c, s.mem[t][k]), i + 1, addr)
      else Entry(c, m, t, i, addr) == 0 == Entry(c, s.mem, t, i, addr) && Leaf(c, s.mem, t, i, addr) == None
  {
    ShapeAt(c, s, t);
    ShapeAt(c, s, t0);
    var m, k := Linked(c, s, t0, j, page, e).mem, IndexOf(c, addr, i);
    if k < |s.mem[t]| {
      LinkRow(c, s, t0, j, page, e, t, k);
    } else {
      LinkRow(c, s, t0, j, page, e, t0, j);
      assert t in m && |m[t]| == |s.mem[t]|;
    }
    hide WellFormed, KernelIndex, Present, BaseOf, UserBit, Writable, IndexOf, Linked, Linkable, Entry, Leaf, Zeros;
    EntryStep(c, s.mem, t, i, addr);
    EntryStep(c, m, t, i, addr);
    FreshEntry(c, m, page, c.Size(|s.owner[t0].path| + 1), i + 1, addr);
  }

  lemma FreshEntry(c: Config, m: Memory, page: nat, n: nat, i: nat, addr: nat)
    requires Geometry(c) && page in m && m[page] == Zeros(n)
    ensures Entry(c, m, page, i, addr) == 0
  {
    ZeroEntry(c);
    assert |c.mask| == |c.shift| == c.levels + 1;
    hide Present, BaseOf, IndexOf, Zeros;
  }

  /** Walks of every tree but `a`'s only read tables that do not belong to `a`. */
  lemma {:induction false} EntryFrame(c: Config, s: Trees, m: Memory, a: nat, t: nat, i: nat, addr: nat)
    requires Geometry(c) && WellFormed(c, s) && OnWay(c, s, t, i, addr) && a != s.kernel && s.owner[t].root != a
    requires forall u :: u in s.owner && s.owner[u].root != a ==> u in m && u in s.mem && m[u] == s.mem[u]
    ensures Leaf(c, m, t, i, addr) == Leaf(c, s.mem, t, i, addr)
    ensures Entry(c, m, t, i, addr) == Entry(c, s.mem, t, i, addr)
    decreases c.levels - i
  {
    assert |c.mask| == |c.shift| == c.levels + 1;
    if i < c.levels {
      EntryStep(c, s.mem, t, i, addr);
      EntryStep(c, m, t, i, addr);
      hide KernelIndex, Present, BaseOf, UserBit, Writable, IndexOf, Entry, Leaf, Geometry, WellFormed;
      var k := IndexOf(c, addr, i);
      if k < |s.mem[t]| && Present(c, s.mem[t][k]) {
        var b := Follow(c, s, t, k);
        assert Path(c, addr, i + 1) == Path(c, addr, i) + [k];
        EntryFrame(c, s, m, a, b, i + 1, addr);
      }
    }
  }

  /** The kernel's tree has its level-1 table in place. */
  ghost predicate KernelReady(s: Trees) {
    && s.kernel in s.owner && s.owner[s.kernel].path == []
    && s.kpt in s.owner && s.owner[s.kpt] == Node(s.kernel, [0], s.kernel)
  }

  /** A new address space: slot `a` points to `upt`, which has the kernel's entries and no others. */
  ghost predicate Protectable(c: Config, s: Trees, a: nat, upt: nat, row: seq<nat>, e: nat)
    requires Geometry(c)
  {
    && KernelReady(s) && a !in s.owner && upt !in s.owner && upt !in s.mem && upt != a
    && upt % PGSIZE == 0 && 0 < upt < Pow2(c.width)
    && s.kpt in s.mem && |row| == |s.mem[s.kpt]|
    && (forall j :: 0 <= j < |row| ==> row[j] == if KernelIndex(c, j) then s.mem[s.kpt][j] else 0)
    && e < Pow2(c.width) && Present(c, e) && UserBit(c, e) && BaseOf(c, e) == upt
  }

  ghost function Protected(s: Trees, a: nat, upt: nat, row: seq<nat>, e: nat): Trees {
    s.(mem := s.mem[upt := row][a := [e]], owner := s.owner[upt := Node(a, [0], a)][a := Node(a, [], a)])
  }

  lemma ProtectKeeps(c: Config, s: Trees, a: nat, upt: nat, row: seq<nat>, e: nat)
    requires Geometry(c) && WellFormed(c, s) && Protectable(c, s, a, upt, row, e)
    ensures WellFormed(c, Protected(s, a, upt, row, e)) && KernelReady(Protected(s, a, upt, row, e))
  {
    var s' := Protected(s, a, upt, row, e);
    forall t | t in s'.owner
      ensures TableOk(c, s', t)
    {
      assert TableOk(c, s, s.kpt);
      if t == a {
        ProtectSlot(c, s, a, upt, row, e);
      } else if t == upt {
        ProtectTable(c, s, a, upt, row, e);
      } else {
        assert TableOk(c, s, t);
        hide WellFormed, TableOk;
        ProtectOther(c, s, a, upt, row, e, t);
      }
    }
  }

  lemma ProtectSlot(c: Config, s: Trees, a: nat, upt: nat, row: seq<nat>, e: nat)
    requires Geometry(c) && Protectable(c, s, a, upt, row, e)
    ensures TableOk(c, Protected(s, a, upt, row, e), a)
  {
    IndexZero(c, 0);
    hide KernelIndex, Present, BaseOf, UserBit, Writable, Pow2;
    var s' := Protected(s, a, upt, row, e);
    assert s'.owner[a].path + [0] == [0];
    assert Points(c, s', a, 0);
  }

  lemma ProtectTable(c: Config, s: Trees, a: nat, upt: nat, row: seq<nat>, e: nat)
    requires Geometry(c) && Protectable(c, s, a, upt, row, e) && TableOk(c, s, s.kpt)
    ensures TableOk(c, Protected(s, a, upt, row, e), upt)
  {
    var s' := Protected(s, a, upt, row, e);
    ZeroEntry(c);
    assert s'.owner[upt].path == [0] && [0][..0] == [];
    hide KernelIndex, Present, BaseOf, UserBit, Writable, Pow2;
    assert Shape(c, s', upt) && Hangs(c, s', upt) by {
      hide Shares, Points;
    }
    assert Shares(c, s', upt) by {
      hide Points, Hangs;
    }
    forall k | 0 <= k < |s'.mem[upt]|
      ensures Points(c, s', upt, k)
    {
      assert Points(c, s, s.kpt, k);
    }
  }

  lemma ProtectOther(c: Config, s: Trees, a: nat, upt: nat, row: seq<nat>, e: nat, t: nat)
    requires Geometry(c) && Protectable(c, s, a, upt, row, e) && t in s.owner && TableOk(c, s, t)
    ensures TableOk(c, Protected(s, a, upt, row, e), t)
  {
    hide KernelIndex, Present, BaseOf, UserBit, Writable, Pow2;
    Surroundings(c, s, t);
    TableFrame(c, s, Protected(s, a, upt, row, e), t);
  }

  /** Every address space translates what the kernel's entries cover as the kernel does. */
  lemma SharedEntry(c: Config, s: Trees, a: nat, addr: nat)
    requires Geometry(c) && WellFormed(c, s) && KernelReady(s)
    requires a in s.owner && s.owner[a].path == [] && a != s.kernel && a in s.mem && |s.mem[a]| == 1
    requires Present(c, s.mem[a][0]) && addr < Pow2(c.width) && KernelIndex(c, IndexOf(c, addr, 1))
    ensures Entry(c, s.mem, a, 0, addr) == Entry(c, s.mem, s.kernel, 0, addr)
  {
    IndexZero(c, addr);
    IndexField(c, addr, 1);
    var b := LevelOne(c, s, a);
    var kb := LevelOne(c, s, s.kernel);
    KernelSlot(c, s);
    ShapeAt(c, s, b);
    assert Shares(c, s, b) by {
      assert TableOk(c, s, b);
    }
    hide WellFormed, KernelIndex, Present, BaseOf, UserBit, Writable, IndexOf, Entry, Leaf, Pow2;
    EntryStep(c, s.mem, a, 0, addr);
    EntryStep(c, s.mem, s.kernel, 0, addr);
    EntryStep(c, s.mem, b, 1, addr);
    EntryStep(c, s.mem, kb, 1, addr);
  }

  lemma KernelSlot(c: Config, s: Trees)
    requires Geometry(c) && WellFormed(c, s) && KernelReady(s)
    ensures s.kernel in s.mem && |s.mem[s.kernel]| == 1
    ensures Present(c, s.mem[s.kernel][0]) && BaseOf(c, s.mem[s.kernel][0]) == s.kpt
  {
    IndexZero(c, 0);
    ShapeAt(c, s, s.kernel);
    assert TableOk(c, s, s.kpt);
  }

  /** The level-1 table of a tree. */
  lemma LevelOne(c: Config, s: Trees, a: nat) returns (b: nat)
    requires Geometry(c) && WellFormed(c, s) && KernelReady(s)
    requires a in s.owner && s.owner[a].path == []
    requires a != s.kernel ==> a in s.mem && |s.mem[a]| == 1 && Present(c, s.mem[a][0])
    ensures a in s.mem && |s.mem[a]| == 1 && Present(c, s.mem[a][0])
    ensures b == BaseOf(c, s.mem[a][0]) && b in s.owner && s.owner[b].path == [0] && s.owner[b].root == a
  {
    if a == s.kernel {
      KernelSlot(c, s);
    }
    ShapeAt(c, s, a);
    b := Follow(c, s, a, 0);
    assert [] + [0] == [0];
  }

  /** Taking away the whole tree of slot `a`. */
  ghost function Pages(s: Trees, a: nat): set<nat> {
    set t | t in s.owner && s.owner[t].root == a && s.owner[t].path != []
  }

  ghost function OthersOf(owner: map<nat, Node>, a: nat): map<nat, Node> {
    map t | t in owner && owner[t].root != a :: owner[t]
  }

  ghost function Pruned(s: Trees, a: nat): Trees {
    s.(mem := s.mem - Pages(s, a), owner := OthersOf(s.owner, a))
  }

  lemma PruneKeeps(c: Config, s: Trees, a: nat)
    requires Geometry(c) && WellFormed(c, s) && KernelReady(s) && a != s.kernel
    ensures WellFormed(c, Pruned(s, a)) && KernelReady(Pruned(s, a))
  {
    ShapeAt(c, s, s.kernel);
    var s' := Pruned(s, a);
    forall t | t in s'.owner
      ensures TableOk(c, s', t)
    {
      assert TableOk(c, s, t);
      ShapeAt(c, s, s.owner[t].root);
      PruneTable(c, s, a, t);
    }
  }

  lemma PruneTable(c: Config, s: Trees, a: nat, t: nat)
    requires Geometry(c) && t in s.owner && TableOk(c, s, t) && s.owner[t].root != a && a != s.kernel
    requires s.owner[t].root in s.owner && s.owner[s.owner[t].root].root == s.owner[t].root
    ensures TableOk(c, Pruned(s, a), t)
  {
    hide KernelIndex, Present, BaseOf, UserBit, Writable, Pow2;
    var s' := Pruned(s, a);
    Surroundings(c, s, t);
    forall j | 0 <= j < |s.mem[t]| && |s.owner[t].path| < c.levels && Present(c, s.mem[t][j])
      ensures Kept(s, s', BaseOf(c, s.mem[t][j]))
    {
      assert Points(c, s, t, j);
    }
    TableFrame(c, s, s', t);
  }
}
