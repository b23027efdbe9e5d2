/** The tables below a table: what the recursion of `teardown` visits. */
module Subtrees {
  import opened Mmu
  import opened PageTables

  /** `t` is `u` or hangs below it. */
  ghost predicate Under(s: Trees, t: nat, u: nat)
    decreases if t in s.owner then |s.owner[t].path| else 0
  {
    t in s.owner &&
    (t == u ||
     (s.owner[t].path != [] && s.owner[t].parent in s.owner
      && |s.owner[s.owner[t].parent].path| < |s.owner[t].path| && Under(s, s.owner[t].parent, u)))
  }

  /** The pages that freeing the tree below `u` gives back. */
  ghost function Below(s: Trees, u: nat): set<nat> {
    set t | t in s.owner && s.owner[t].path != [] && Under(s, t, u)
  }

  /** Those among them that the first `j` entries of `u` lead to. */
  ghost function BelowFirst(s: Trees, u: nat, j: nat): set<nat>
    requires u in s.owner
  {
    set t | t in s.owner && Through(s, t, u) && s.owner[t].path[|s.owner[u].path|] < j
  }

  ghost predicate Through(s: Trees, t: nat, u: nat)
    requires u in s.owner
  {
    t in s.owner && t != u && Under(s, t, u) && |s.owner[t].path| > |s.owner[u].path|
  }

  lemma ParentAt(c: Config, s: Trees, t: nat)
    requires Geometry(c) && WellFormed(c, s) && t in s.owner && s.owner[t].path != []
    ensures Hangs(c, s, t)
  {
    assert TableOk(c, s, t);
  }

  /** A tree has one table at the end of each path. */
  lemma {:induction false} OneTable(c: Config, s: Trees, t: nat, u: nat)
    requires Geometry(c) && WellFormed(c, s) && t in s.owner && u in s.owner
    requires s.owner[t].root == s.owner[u].root && s.owner[t].path == s.owner[u].path
    ensures t == u
    decreases |s.owner[t].path|
  {
    if s.owner[t].path == [] {
      ShapeAt(c, s, t);
      ShapeAt(c, s, u);
    } else {
      ParentAt(c, s, t);
      ParentAt(c, s, u);
      hide WellFormed;
      OneTable(c, s, s.owner[t].parent, s.owner[u].parent);
    }
  }

  lemma {:induction false} UnderTrans(c: Config, s: Trees, t: nat, b: nat, u: nat)
    requires Geometry(c) && WellFormed(c, s) && Under(s, t, b) && Under(s, b, u)
    ensures Under(s, t, u)
    decreases if t in s.owner then |s.owner[t].path| else 0
  {
    if t != b {
      UnderTrans(c, s, s.owner[t].parent, b, u);
    }
  }

  lemma {:induction false} UnderRoot(c: Config, s: Trees, t: nat)
    requires Geometry(c) && WellFormed(c, s) && t in s.owner
    ensures Under(s, t, s.owner[t].root)
    decreases |s.owner[t].path|
  {
    ShapeAt(c, s, t);
    if s.owner[t].path != [] {
      ParentAt(c, s, t);
      UnderRoot(c, s, s.owner[t].parent);
    }
  }

  lemma {:induction false} UnderSameRoot(c: Config, s: Trees, t: nat, u: nat)
    requires Geometry(c) && WellFormed(c, s) && u in s.owner && Under(s, t, u)
    ensures s.owner[t].root == s.owner[u].root
    ensures s.owner[u].path <= s.owner[t].path && (t != u ==> |s.owner[t].path| > |s.owner[u].path|)
    decreases |s.owner[t].path|
  {
    if t != u {
      ParentAt(c, s, t);
      UnderSameRoot(c, s, s.owner[t].parent, u);
    }
  }

  /** All of an address space's table pages are below its slot. */
  lemma BelowSlot(c: Config, s: Trees, a: nat)
    requires Geometry(c) && WellFormed(c, s) && a in s.owner && s.owner[a].path == []
    ensures Below(s, a) == Pages(s, a)
  {
    ShapeAt(c, s, a);
    forall t | t in s.owner && s.owner[t].path != []
      ensures Under(s, t, a) <==> s.owner[t].root == a
    {
      UnderRoot(c, s, t);
      if Under(s, t, a) {
        UnderSameRoot(c, s, t, a);
      }
    }
  }

  /** A table below `u` is below the table that one present entry of `u` points to. */
  lemma {:induction false} EntryOnWay(c: Config, s: Trees, t: nat, u: nat) returns (b: nat)
    requires Geometry(c) && WellFormed(c, s) && u in s.owner && Through(s, t, u)
    ensures |s.owner[u].path| < c.levels && u in s.mem && s.owner[t].path[|s.owner[u].path|] < |s.mem[u]|
    ensures Present(c, s.mem[u][s.owner[t].path[|s.owner[u].path|]])
    ensures b == BaseOf(c, s.mem[u][s.owner[t].path[|s.owner[u].path|]]) && b in s.owner
    ensures s.owner[b].root == s.owner[u].root
    ensures s.owner[b].path == s.owner[u].path + [s.owner[t].path[|s.owner[u].path|]]
    ensures Under(s, t, b)
    decreases |s.owner[t].path|
  {
    hide WellFormed, Geometry, KernelIndex, Present, BaseOf, UserBit, Writable;
    ParentAt(c, s, t);
    ShapeAt(c, s, t);
    var p := s.owner[t].parent;
    if p == u {
      b := t;
    } else {
      UnderSameRoot(c, s, p, u);
      b := EntryOnWay(c, s, p, u);
    }
  }

  /** Freeing what entry `j` leads to, in the two cases that `teardown` distinguishes. */
  lemma BelowNext(c: Config, s: Trees, u: nat, j: nat)
    requires Geometry(c) && WellFormed(c, s) && u in s.owner && |s.owner[u].path| < c.levels
      && s.owner[u].root != s.kernel
    requires u in s.mem && j < |s.mem[u]|
    ensures Present(c, s.mem[u][j]) && UserBit(c, s.mem[u][j]) ==>
      var b := BaseOf(c, s.mem[u][j]);
      && b in s.owner && s.owner[b].root == s.owner[u].root && s.owner[b].path == s.owner[u].path + [j]
      && BelowFirst(s, u, j + 1) == BelowFirst(s, u, j) + Below(s, b) && BelowFirst(s, u, j) !! Below(s, b)
      && Below(s, b) <= Below(s, u)
    ensures !(Present(c, s.mem[u][j]) && UserBit(c, s.mem[u][j])) ==> BelowFirst(s, u, j + 1) == BelowFirst(s, u, j)
  {
    hide WellFormed, KernelIndex, Present, BaseOf, UserBit, Writable;
    var i := |s.owner[u].path|;
    forall t | t in s.owner && Through(s, t, u) && s.owner[t].path[i] == j
      ensures Present(c, s.mem[u][j]) && UserBit(c, s.mem[u][j]) && t in Below(s, BaseOf(c, s.mem[u][j]))
    {
      var b := EntryOnWay(c, s, t, u);
      var b' := Follow(c, s, u, j);
    }
    if Present(c, s.mem[u][j]) && UserBit(c, s.mem[u][j]) {
      var b := Follow(c, s, u, j);
      forall t | t in Below(s, b)
        ensures t in BelowFirst(s, u, j + 1) && s.owner[t].path[i] == j && t in Below(s, u)
      {
        BelowChild(c, s, t, b, u, j);
      }
    }
  }

  lemma BelowChild(c: Config, s: Trees, t: nat, b: nat, u: nat, j: nat)
    requires Geometry(c) && WellFormed(c, s) && u in s.owner && b in s.owner && Under(s, t, b)
    requires u in s.mem && j < |s.mem[u]| && Present(c, s.mem[u][j]) && b == BaseOf(c, s.mem[u][j])
    requires s.owner[b].path == s.owner[u].path + [j] && s.owner[b].root == s.owner[u].root
    ensures Through(s, t, u) && s.owner[t].path[|s.owner[u].path|] == j
  {
    UnderSameRoot(c, s, t, b);
    assert s.owner[b].path[|s.owner[u].path|] == j;
    ParentAt(c, s, b);
    OneTable(c, s, s.owner[b].parent, u);
    assert Under(s, b, u);
    UnderTrans(c, s, t, b, u);
  }

  /** What one turn of the loop of `teardown` has to free, on every level. */
  lemma BelowHere(c: Config, s: Trees, u: nat, j: nat)
    requires Geometry(c) && WellFormed(c, s) && u in s.owner && s.owner[u].root != s.kernel
    requires u in s.mem && j < |s.mem[u]|
    ensures BelowFirst(s, u, j) <= Below(s, u) && u !in BelowFirst(s, u, j)
    ensures Present(c, s.mem[u][j]) && UserBit(c, s.mem[u][j]) && |s.owner[u].path| < c.levels ==>
      var b := BaseOf(c, s.mem[u][j]);
      && b in s.owner && s.owner[b].root == s.owner[u].root && |s.owner[b].path| == |s.owner[u].path| + 1
      && BelowFirst(s, u, j + 1) == BelowFirst(s, u, j) + Below(s, b) && BelowFirst(s, u, j) !! Below(s, b) + {b}
      && Below(s, b) + {b} <= Below(s, u)
    ensures !(Present(c, s.mem[u][j]) && UserBit(c, s.mem[u][j]) && |s.owner[u].path| < c.levels) ==>
      BelowFirst(s, u, j + 1) == BelowFirst(s, u, j)
  {
    hide WellFormed, KernelIndex, Present, BaseOf, UserBit, Writable;
    if |s.owner[u].path| < c.levels {
      BelowNext(c, s, u, j);
      if Present(c, s.mem[u][j]) && UserBit(c, s.mem[u][j]) {
        assert BaseOf(c, s.mem[u][j]) in Below(s, BaseOf(c, s.mem[u][j]));
      }
    } else {
      forall t | t in s.owner
        ensures !Through(s, t, u)
      {
        ShapeAt(c, s, t);
      }
    }
  }

  /** After the last entry everything below is freed. */
  lemma BelowAll(c: Config, s: Trees, u: nat)
    requires Geometry(c) && WellFormed(c, s) && u in s.owner && u in s.mem
    ensures Below(s, u) == BelowFirst(s, u, |s.mem[u]|) + if s.owner[u].path == [] then {} else {u}
    ensures u !in BelowFirst(s, u, |s.mem[u]|)
  {
    hide WellFormed, KernelIndex, Present, BaseOf, UserBit, Writable;
    forall t | t in s.owner && t != u && Under(s, t, u)
      ensures Through(s, t, u) && s.owner[t].path[|s.owner[u].path|] < |s.mem[u]|
    {
      UnderSameRoot(c, s, t, u);
      var b := EntryOnWay(c, s, t, u);
    }
  }
}
