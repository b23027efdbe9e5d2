/** `watchpoint.c`: two linked lists over a fixed arena of nodes. */
module Watchpoints {

  const NR_WP: int := 32
  /** A null pointer; other pointers are indices into the arena. */
  const NULL: int := -1

  ghost predicate NoDuplicates(s: seq<int>) {
    forall i, j :: 0 <= i < j < |s| ==> s[i] != s[j]
  }

  /** Where a list of nodes starts. */
  function First(s: seq<int>): int {
    if s == [] then NULL else s[0]
  }

  /** The node after, and the node before, position `i`. */
  function Succ(s: seq<int>, i: nat): int {
    if i + 1 < |s| then s[i + 1] else NULL
  }

  function Pred(s: seq<int>, i: nat): int {
    if 0 < i <= |s| then s[i - 1] else NULL
  }

  /** The list without the node at position `i`. */
  function Removed(s: seq<int>, i: nat): seq<int>
    requires i < |s|
  {
    s[..i] + s[i + 1..]
  }

  ghost predicate Nodes(s: seq<int>) {
    forall i :: 0 <= i < |s| ==> 0 <= s[i] < NR_WP
  }

  /** Every node of the arena is on exactly one of the two lists, once. */
  ghost predicate Partition(active: seq<int>, spare: seq<int>) {
    && NoDuplicates(active) && NoDuplicates(spare) && Nodes(active) && Nodes(spare)
    && (forall i, j :: 0 <= i < |active| && 0 <= j < |spare| ==> active[i] != spare[j])
    && (forall x :: 0 <= x < NR_WP ==> x in active || x in spare)
  }

  /** The `next` pointers spell the list. */
  ghost predicate Forward(next: seq<int>, list: seq<int>) {
    |next| == NR_WP && Nodes(list) && forall i :: 0 <= i < |list| ==> next[list[i]] == Succ(list, i)
  }

  /** The `prev` pointers spell it backwards. */
  ghost predicate Backward(prev: seq<int>, list: seq<int>) {
    |prev| == NR_WP && Nodes(list) && forall i :: 0 <= i < |list| ==> prev[list[i]] == Pred(list, i)
  }

  /** Moving the first node of one list to the front of the other. */
  lemma PushPartition(active: seq<int>, spare: seq<int>)
    requires Partition(active, spare) && spare != []
    ensures Partition([spare[0]] + active, spare[1..])
  {
    forall x | 0 <= x < NR_WP
      ensures x in [spare[0]] + active || x in spare[1..]
    {
      if x in spare {
        var i :| 0 <= i < |spare| && spare[i] == x;
        if i > 0 {
          assert spare[1..][i - 1] == x;
        }
      }
    }
  }

  lemma PushForward(next: seq<int>, active: seq<int>, spare: seq<int>)
    requires Partition(active, spare) && spare != [] && Forward(next, active) && Forward(next, spare)
    ensures Forward(next[spare[0] := First(active)], [spare[0]] + active)
    ensures Forward(next[spare[0] := First(active)], spare[1..])
  {
    PopForward(next, spare, First(active));
    var n, a := next[spare[0] := First(active)], [spare[0]] + active;
    forall i | 0 <= i < |a|
      ensures n[a[i]] == Succ(a, i)
    {
      if i > 0 {
        assert a[i] == active[i - 1] && active[i - 1] != spare[0];
        assert Succ(a, i) == Succ(active, i - 1);
      }
    }
  }

  lemma PopForward(next: seq<int>, spare: seq<int>, v: int)
    requires NoDuplicates(spare) && spare != [] && Forward(next, spare)
    ensures Forward(next[spare[0] := v], spare[1..])
  {
    var n, b := next[spare[0] := v], spare[1..];
    forall i | 0 <= i < |b|
      ensures n[b[i]] == Succ(b, i)
    {
      assert b[i] == spare[i + 1] && spare[i + 1] != spare[0];
      assert Succ(b, i) == Succ(spare, i + 1);
    }
  }

  lemma PushBackward(prev: seq<int>, active: seq<int>, spare: seq<int>)
    requires Partition(active, spare) && spare != [] && Backward(prev, active)
    ensures var p := prev[spare[0] := NULL];
      Backward(if active == [] then p else p[active[0] := spare[0]], [spare[0]] + active)
  {
    var p, a := prev[spare[0] := NULL], [spare[0]] + active;
    var q := if active == [] then p else p[active[0] := spare[0]];
    forall i | 0 <= i < |a|
      ensures q[a[i]] == Pred(a, i)
    {
      if i > 0 {
        assert a[i] == active[i - 1];
      }
    }
  }

  datatype Outcome = Deleted | Missing | Crash

  class Pool {
    const no: array<int>
    const next: array<int>
    const prev: array<int>
    var head: int
    var free: int
    ghost var active: seq<int>
    ghost var spare: seq<int>

    ghost predicate Arena()
      reads this
    {
      no.Length == next.Length == prev.Length == NR_WP && no != next && no != prev && next != prev
    }

    /** The pointers spell the two lists: both directions for the active one, forward for the free one. */
    ghost predicate Valid()
      reads this, no, next, prev
    {
      && Arena() && Partition(active, spare) && head == First(active) && free == First(spare)
      && Forward(next[..], active) && Backward(prev[..], active) && Forward(next[..], spare)
      && forall x :: 0 <= x < NR_WP ==> no[x] == x
    }

    /** `init_wp_pool` */
    constructor ()
      ensures Valid() && active == [] && spare == seq(NR_WP, i => i) && fresh(no) && fresh(next) && fresh(prev)
    {
      no, next, prev := new int[NR_WP], new int[NR_WP], new int[NR_WP];
      head, free := NULL, 0;
      active, spare := [], seq(NR_WP, i => i);
      new;
      for i := 0 to NR_WP
        invariant Arena() && head == NULL && free == 0 && active == [] && spare == seq(NR_WP, i => i)
        invariant fresh(no) && fresh(next) && fresh(prev)
        invariant forall x :: 0 <= x < i ==> no[x] == x && next[x] == (if x == NR_WP - 1 then NULL else x + 1)
      {
        no[i] := i;
        next[i] := if i == NR_WP - 1 then NULL else i + 1;
        prev[i] := if i == 0 then NULL else i - 1;
      }
      forall x | 0 <= x < NR_WP
        ensures x in spare
      {
        assert spare[x] == x;
      }
    }

    /** `new_wp`: the first free node becomes the head of the active list; with no free node the assertion fails. */
    method NewWp() returns (wp: int, aborted: bool)
      requires Valid()
      modifies this, next, prev
      ensures Valid() && (aborted <==> old(spare) == [])
      ensures aborted ==> active == old(active) && spare == old(spare)
      ensures !aborted ==> wp == old(spare)[0] && active == [wp] + old(active) && spare == old(spare)[1..]
    {
      if free == NULL {
        return NULL, true;
      }
      PushPartition(active, spare);
      PushForward(next[..], active, spare);
      PushBackward(prev[..], active, spare);
      if head == NULL {
        head := free;
        free := next[free];
        next[head] := NULL;
        prev[head] := NULL;
      } else {
        var temp := head;
        head := free;
        free := next[free];
        next[head] := temp;
        prev[head] := NULL;
        prev[temp] := head;
      }
      active, spare := [head] + active, spare[1..];
      return head, false;
    }

    /** The first half of `free_wp`: unlinking. The last node, unless it is the first, has no successor to update. */
    method Unlink(wp: int, ghost i: nat) returns (crashed: bool)
      requires Valid() && i < |active| && wp == active[i]
      modifies this`head, next, prev
      ensures crashed <==> 0 < i && i + 1 == |active|
      ensures !crashed ==> head == First(Removed(active, i))
      ensures !crashed ==> next[..] == if i > 0 then old(next[..])[active[i - 1] := Succ(active, i)] else old(next[..])
      ensures !crashed ==>
        prev[..] == if i + 1 < |active| then old(prev[..])[active[i + 1] := Pred(active, i)] else old(prev[..])
    {
      HeadPosition(active, i);
      hide Removed;
      if wp == head {
        head := next[head];
        if head != NULL {
          prev[head] := NULL;
        }
      } else {
        if prev[wp] == NULL {
          return true;
        }
        next[prev[wp]] := next[wp];
        if next[wp] == NULL {
          return true;
        }
        prev[next[wp]] := prev[wp];
      }
      return false;
    }

    /**
     * `free_wp` for the node at position `i`. It dereferences a null pointer when the node is the last one but not the
     * first, and when there is no free node.
     */
    method FreeWp(wp: int, ghost i: nat) returns (crashed: bool)
      requires Valid() && i < |active| && wp == active[i]
      modifies this, next, prev
      ensures crashed <==> (0 < i && i + 1 == |old(active)|) || old(spare) == []
      ensures !crashed ==> Valid() && active == Removed(old(active), i) && spare == [wp] + old(spare)
    {
      hide Partition, Removed, Forward, Backward, Succ, Pred;
      NodesOk(active, spare, i);
      ReturnPartition(active, spare, i);
      UnlinkForward(next[..], active, spare, i);
      if spare != [] {
        UnlinkBackward(prev[..], active, spare, i);
      }
      crashed := Unlink(wp, i);
      if crashed {
        return;
      }
      next[wp] := free;
      prev[wp] := NULL;
      if free == NULL {
        return true;
      }
      prev[free] := wp;
      free := wp;
      active, spare := Removed(active, i), [wp] + spare;
      return false;
    }

    /** `delete_wp`: removes exactly the node with that number. */
    method DeleteWp(number: nat) returns (out: Outcome)
      requires Valid()
      modifies this, next, prev
      ensures out == Missing <==> number !in old(active)
      ensures out == Missing ==> Valid() && active == old(active) && spare == old(spare)
      ensures out == Crash <==>
        number in old(active) && (old(spare) == []
          || (number != old(active)[0] && number == old(active)[|old(active)| - 1]))
      ensures out == Deleted ==> Valid() && spare == [number] + old(spare) && active == Without(old(active), number)
    {
      var temp := head;
      ghost var i: nat := 0;
      while temp != NULL
        invariant Valid() && active == old(active) && spare == old(spare)
        invariant i <= |active| && temp == (if i < |active| then active[i] else NULL)
        invariant forall k :: 0 <= k < i ==> active[k] != number
        decreases |active| - i
      {
        if no[temp] == number {
          WithoutAt(active, i);
          var crashed := FreeWp(temp, i);
          return if crashed then Crash else Deleted;
        }
        temp := next[temp];
        i := i + 1;
      }
      return Missing;
    }
  }

  /** A list without one value. */
  function Without(s: seq<int>, x: int): seq<int> {
    if s == [] then [] else if s[0] == x then Without(s[1..], x) else [s[0]] + Without(s[1..], x)
  }

  lemma {:induction false} WithoutAbsent(s: seq<int>, x: int)
    requires x !in s
    ensures Without(s, x) == s
  {
    if s != [] {
      WithoutAbsent(s[1..], x);
    }
  }

  /** In a list without duplicates that is taking out one position. */
  lemma {:induction false} WithoutAt(s: seq<int>, i: nat)
    requires NoDuplicates(s) && i < |s|
    ensures Without(s, s[i]) == Removed(s, i)
  {
    if i == 0 {
      WithoutAbsent(s[1..], s[0]);
    } else {
      WithoutAt(s[1..], i - 1);
      assert Removed(s, i) == [s[0]] + Removed(s[1..], i - 1);
    }
  }

  /** Moving the node at position `i` of one list to the front of the other. */
  lemma NodesOk(active: seq<int>, spare: seq<int>, i: nat)
    requires Partition(active, spare) && i < |active|
    ensures 0 <= active[i] < NR_WP && (i > 0 ==> 0 <= active[i - 1] < NR_WP)
    ensures i + 1 < |active| ==> 0 <= active[i + 1] < NR_WP
    ensures spare != [] ==> 0 <= spare[0] < NR_WP && spare[0] != active[i]
  {
  }

  lemma ReturnPartition(active: seq<int>, spare: seq<int>, i: nat)
    requires Partition(active, spare) && i < |active|
    ensures Partition(Removed(active, i), [active[i]] + spare)
  {
    var a, b := Removed(active, i), [active[i]] + spare;
    forall x | 0 <= x < NR_WP
      ensures x in a || x in b
    {
      if x in active {
        var k :| 0 <= k < |active| && active[k] == x;
        if k < i {
          assert a[k] == x;
        } else if k > i {
          assert a[k - 1] == x;
        } else {
          assert b[0] == x;
        }
      } else {
        var k :| 0 <= k < |spare| && spare[k] == x;
        assert b[k + 1] == x;
      }
    }
  }

  lemma HeadPosition(active: seq<int>, i: nat)
    requires NoDuplicates(active) && i < |active|
    ensures active[i] == First(active) <==> i == 0
    ensures First(Removed(active, i)) == if i > 0 then First(active) else Succ(active, i)
  {
  }

  /** The node at each position of the shorter list. */
  lemma RemovedAt(active: seq<int>, i: nat, k: nat)
    requires NoDuplicates(active) && i < |active| && k < |active| - 1
    ensures var a, m := Removed(active, i), if k < i then k else k + 1;
      && |a| == |active| - 1 && a[k] == active[m] && a[k] != active[i]
      && Succ(a, k) == (if m + 1 == i then Succ(active, i) else Succ(active, m))
      && Pred(a, k) == (if m == i + 1 then Pred(active, i) else Pred(active, m))
  {
  }

  lemma UnlinkForward(next: seq<int>, active: seq<int>, spare: seq<int>, i: nat)
    requires Partition(active, spare) && Forward(next, active) && Forward(next, spare) && i < |active|
    ensures var n := (if i > 0 then next[active[i - 1] := Succ(active, i)] else next)[active[i] := First(spare)];
      Forward(n, Removed(active, i)) && Forward(n, [active[i]] + spare)
  {
    var n := (if i > 0 then next[active[i - 1] := Succ(active, i)] else next)[active[i] := First(spare)];
    var a, b := Removed(active, i), [active[i]] + spare;
    forall k | 0 <= k < |a|
      ensures 0 <= a[k] < NR_WP && n[a[k]] == Succ(a, k)
    {
      RemovedAt(active, i, k);
      var m := if k < i then k else k + 1;
      assert i > 0 && m != i - 1 ==> active[m] != active[i - 1];
    }
    forall k | 0 <= k < |b|
      ensures 0 <= b[k] < NR_WP && n[b[k]] == Succ(b, k)
    {
      if k > 0 {
        assert b[k] == spare[k - 1] && active[i] != spare[k - 1];
        assert i > 0 ==> active[i - 1] != spare[k - 1];
        assert Succ(b, k) == Succ(spare, k - 1);
      }
    }
  }

  lemma UnlinkBackward(prev: seq<int>, active: seq<int>, spare: seq<int>, i: nat)
    requires Partition(active, spare) && Backward(prev, active) && i < |active| && spare != []
    ensures var p := (if i + 1 < |active| then prev[active[i + 1] := Pred(active, i)] else prev)[active[i] := NULL];
      Backward(p[spare[0] := active[i]], Removed(active, i))
  {
    var p := (if i + 1 < |active| then prev[active[i + 1] := Pred(active, i)] else prev)[active[i] := NULL];
    var q, a := p[spare[0] := active[i]], Removed(active, i);
    forall k | 0 <= k < |a|
      ensures 0 <= a[k] < NR_WP && q[a[k]] == Pred(a, k)
    {
      RemovedAt(active, i, k);
      var m := if k < i then k else k + 1;
      assert active[m] != spare[0];
      assert i + 1 < |active| && m != i + 1 ==> active[m] != active[i + 1];
    }
  }

  datatype Command = New | Delete(number: nat)

  /** The two lists, without pointers. */
  datatype Lists = Lists(active: seq<int>, spare: seq<int>)

  /** The commands that neither fail the assertion nor follow a null pointer. */
  predicate Harmless(l: Lists, c: Command) {
    match c
    case New => l.spare != []
    case Delete(n) =>
      n in l.active ==> l.spare != [] && (n == l.active[0] || n != l.active[|l.active| - 1])
  }

  function Apply(l: Lists, c: Command): Lists
    requires Harmless(l, c)
  {
    match c
    case New => Lists([l.spare[0]] + l.active, l.spare[1..])
    case Delete(n) => if n in l.active then Lists(Without(l.active, n), [n] + l.spare) else l
  }

  /** The lists after a run, if it meets no harmful command. */
  function After(l: Lists, cs: seq<Command>): (r: Lists)
    requires HarmlessRun(l, cs)
    decreases |cs|
  {
    if cs == [] then l else After(Apply(l, cs[0]), cs[1..])
  }

  predicate HarmlessRun(l: Lists, cs: seq<Command>)
    decreases |cs|
  {
    cs == [] || (Harmless(l, cs[0]) && HarmlessRun(Apply(l, cs[0]), cs[1..]))
  }

  /** From the pool as it starts: two watchpoints, of which the older one is deleted. */
  lemma OlderCrashes()
    ensures !HarmlessRun(Lists([], seq(NR_WP, i => i)), [New, New, Delete(0)])
  {
    var all, cs := seq(NR_WP, i => i), [New, New, Delete(0)];
    var one, two := Lists([0], all[1..]), Lists([1, 0], all[2..]);
    assert cs[1..] == [New, Delete(0)] && cs[1..][1..] == [Delete(0)];
    assert Apply(Lists([], all), New) == one && Apply(one, New) == two;
    assert !Harmless(two, Delete(0));
  }

  method Serve(pool: Pool, c: Command) returns (survived: bool)
    requires pool.Valid()
    modifies pool, pool.next, pool.prev
    ensures survived <==> old(Harmless(Lists(pool.active, pool.spare), c))
    ensures survived ==> pool.Valid() && Lists(pool.active, pool.spare) == old(Apply(Lists(pool.active, pool.spare), c))
  {
    match c {
      case New =>
        var wp, aborted := pool.NewWp();
        survived := !aborted;
      case Delete(n) =>
        var out := pool.DeleteWp(n);
        survived := out != Crash;
    }
  }

  /** A run of commands ends, without a crash, exactly when it is harmless, and then with the lists it should have. */
  method Run(pool: Pool, cs: seq<Command>) returns (survived: bool)
    requires pool.Valid()
    modifies pool, pool.next, pool.prev
    ensures survived <==> old(HarmlessRun(Lists(pool.active, pool.spare), cs))
    ensures survived ==>
      pool.Valid() && Lists(pool.active, pool.spare) == old(After(Lists(pool.active, pool.spare), cs))
    decreases |cs|
  {
    hide Harmless, Apply, Partition, Forward, Backward;
    if cs == [] {
      return true;
    }
    survived := Serve(pool, cs[0]);
    if survived {
      survived := Run(pool, cs[1..]);
    }
  }
}
