/** Whole runs of requests, against a model that knows no tables. */
module Runs {
  import opened Mmu
  import opened PageTables
  import opened AddressSpaces
  import opened Translation
  import opened Mappings
  import opened Lifecycle
  import opened Vme

  datatype Request =
    | Protect(slot: nat)
    | Map(slot: nat, va: nat, pa: nat, prot: nat)
    | Unprotect(slot: nat)

  /** The address spaces that exist, and the partial map they stand for. */
  datatype Spec = Spec(live: set<nat>, view: View)

  /** What a caller may ask for: new slots for new spaces, and existing spaces otherwise. */
  ghost predicate Legal(c: Config, t: Spec, r: Request) {
    match r
    case Protect(a) => a !in t.live
    case Map(a, va, pa, _) => a in t.live && va < Bits.Pow2(c.width) && pa < Bits.Pow2(c.width)
    case Unprotect(a) => a in t.live
  }

  ghost function Apply(c: Config, t: Spec, r: Request): Spec {
    match r
    case Protect(a) => Spec(t.live + {a}, t.view + KernelView(c, a))
    case Map(a, va, pa, prot) => Spec(t.live, Updated(t.view, (a, va), Requested(pa, prot)))
    case Unprotect(a) => Spec(t.live - {a}, Dropped(t.view, a))
  }

  /** What the three requests do to the map, page by page. */
  lemma ApplyPages(c: Config, t: Spec, r: Request)
    requires forall addr: nat :: KernelPage(c, addr) ==> Geometry(c) && IsPage(c, addr)
    ensures r.Map? ==>
      Apply(c, t, r).live == t.live && Remapped(t.view, Apply(c, t, r).view, r.slot, r.va, r.pa, r.prot)
    ensures r.Protect? ==>
      && Apply(c, t, r).live == t.live + {r.slot}
      && forall a: nat, addr: nat :: (a, addr) in Apply(c, t, r).view <==>
           (a, addr) in t.view || (a == r.slot && KernelPage(c, addr))
    ensures r.Protect? ==> forall addr: nat :: KernelPage(c, addr) ==>
      Apply(c, t, r).view[(r.slot, addr)] == Mapping(addr, true, false)
    ensures r.Protect? ==> forall k :: k in t.view && k.0 != r.slot ==> Apply(c, t, r).view[k] == t.view[k]
    ensures r.Unprotect? ==>
      && Apply(c, t, r).live == t.live - {r.slot}
      && (forall k :: k in Apply(c, t, r).view <==> k in t.view && k.0 != r.slot)
      && forall k :: k in Apply(c, t, r).view ==> Apply(c, t, r).view[k] == t.view[k]
  {
    if r.Map? {
      RequestRemaps(t.view, r.slot, r.va, r.pa, r.prot);
    }
    hide KernelPage, IsPage;
  }

  ghost function Result(c: Config, t: Spec, rs: seq<Request>): Spec {
    if rs == [] then t else Apply(c, Result(c, t, rs[..|rs| - 1]), rs[|rs| - 1])
  }

  /** Every request is legal after the ones before it. */
  ghost predicate LegalRun(c: Config, t: Spec, rs: seq<Request>) {
    forall i :: 0 <= i < |rs| ==> Legal(c, Result(c, t, rs[..i]), rs[i])
  }

  /** The tables and the free pages stand for `t`. */
  ghost predicate Represents(c: Config, s: Trees, pool: set<nat>, t: Spec) {
    Ready(c, s, pool) && Geometry(c) && ViewOf(c, s) == t.view && forall a :: a in t.live <==> Live(s, a)
  }

  /** Slots are not pages, and not the kernel's. */
  ghost predicate Apart(s: Trees, pool: set<nat>, slots: set<nat>) {
    s.kernel !in slots && slots !! pool + Owned(s)
  }

  /** The pages are conserved and the kernel's tables unchanged. */
  ghost predicate Conserved(s: Trees, pool: set<nat>, s': Trees, pool': set<nat>) {
    pool' + Owned(s') == pool + Owned(s) && KernelKept(s, s')
  }

  lemma ConservedTrans(s0: Trees, p0: set<nat>, s1: Trees, p1: set<nat>, s2: Trees, p2: set<nat>, slots: set<nat>)
    requires Conserved(s0, p0, s1, p1) && Conserved(s1, p1, s2, p2)
    ensures Conserved(s0, p0, s2, p2)
    ensures Apart(s1, p1, slots) ==> Apart(s2, p2, slots)
  {
  }

  lemma SlotFree(c: Config, s: Trees, pool: set<nat>, t: Spec, slots: set<nat>, a: nat)
    requires Represents(c, s, pool, t) && Apart(s, pool, slots) && a in slots && a !in t.live
    ensures FreeSlot(s, pool, a)
  {
    hide Ready, Geometry;
    assert a !in t.live <==> !Live(s, a);
  }

  lemma Gone(s: Trees, pool: set<nat>, s': Trees, pool': set<nat>, a: nat)
    requires Pages(s, a) <= Owned(s) && Owned(s') == Owned(s) - Pages(s, a) && pool' == pool + Pages(s, a)
    ensures pool' + Owned(s') == pool + Owned(s)
  {
    hide Pages, Owned;
  }

  lemma PagesOwned(s: Trees, a: nat)
    ensures Pages(s, a) <= Owned(s)
  {
  }

  /** A request for an address that is not the user's. */
  predicate OutsideUser(c: Config, r: Request) {
    r.Map? && |c.areas| > 0 && !c.InUser(r.va)
  }

  method Serve(m: PageManager, r: Request, ghost t: Spec, ghost slots: set<nat>) returns (out: Outcome)
    requires Represents(m.cfg, m.Now(), m.pool, t) && Legal(m.cfg, t, r) && Apart(m.Now(), m.pool, slots)
      && r.slot in slots
    modifies m`mem, m`pool, m`owner
    ensures out.Done? ==> Represents(m.cfg, m.Now(), m.pool, Apply(m.cfg, t, r))
    ensures out.Panic? ==> Represents(m.cfg, m.Now(), m.pool, t)
    ensures Conserved(old(m.Now()), old(m.pool), m.Now(), m.pool)
    ensures out == Panic(InvalidAddress) <==> OutsideUser(m.cfg, r)
  {
    hide Ready, Geometry, ViewOf, Live, Apart, KernelKept, Updated, Dropped, KernelView, Owned, Pages, FreeSlot,
      Requested;
    ghost var s, p := m.Now(), m.pool;
    match r {
      case Protect(a) =>
        SlotFree(m.cfg, s, p, t, slots, a);
        KeptRefl(s);
        out := m.Protect(a);
      case Map(a, va, pa, prot) =>
        AreasExist(m.cfg, s, p);
        out := m.Map(a, va, pa, prot);
        EvolvedSpec(m.cfg, s, p, m.Now(), m.pool, t);
      case Unprotect(a) =>
        PagesOwned(s, a);
        m.Unprotect(a);
        Gone(s, p, m.Now(), m.pool, a);
        out := Done;
    }
  }

  lemma KeptRefl(s: Trees)
    ensures KernelKept(s, s)
  {
  }

  lemma EvolvedSpec(c: Config, s: Trees, pool: set<nat>, s': Trees, pool': set<nat>, t: Spec)
    requires Represents(c, s, pool, t) && Evolved(c, s, pool, s', pool')
    ensures Conserved(s, pool, s', pool') && Ready(c, s', pool') && forall a :: a in t.live <==> Live(s', a)
  {
    hide Ready, Geometry, KernelKept, Owned;
  }

  /** A run ends in the state the model predicts for the requests that were served. */
  method Run(m: PageManager, rs: seq<Request>, ghost t: Spec, ghost slots: set<nat>) returns (out: Outcome, served: nat)
    requires Represents(m.cfg, m.Now(), m.pool, t) && LegalRun(m.cfg, t, rs)
    requires Apart(m.Now(), m.pool, slots) && forall r :: r in rs ==> r.slot in slots
    modifies m`mem, m`pool, m`owner
    ensures served <= |rs| && (out.Done? ==> served == |rs|)
    ensures Represents(m.cfg, m.Now(), m.pool, Result(m.cfg, t, rs[..served]))
    ensures Conserved(old(m.Now()), old(m.pool), m.Now(), m.pool)
    ensures forall k :: 0 <= k < served ==> !OutsideUser(m.cfg, rs[k])
    ensures out.Panic? ==> served < |rs| && (out == Panic(InvalidAddress) <==> OutsideUser(m.cfg, rs[served]))
  {
    hide Represents, Legal, Apply, Apart, Conserved, OutsideUser;
    served := 0;
    ghost var s0, p0 := m.Now(), m.pool;
    StartRun(s0, p0);
    while served < |rs|
      invariant served <= |rs| && Represents(m.cfg, m.Now(), m.pool, Result(m.cfg, t, rs[..served]))
      invariant Apart(m.Now(), m.pool, slots) && Conserved(s0, p0, m.Now(), m.pool)
      invariant forall k :: 0 <= k < served ==> !OutsideUser(m.cfg, rs[k])
    {
      ghost var s, p := m.Now(), m.pool;
      out := Serve(m, rs[served], Result(m.cfg, t, rs[..served]), slots);
      ConservedTrans(s0, p0, s, p, m.Now(), m.pool, slots);
      if out.Panic? {
        return;
      }
      assert rs[..served + 1][..served] == rs[..served];
      served := served + 1;
    }
    out := Done;
  }

  lemma StartRun(s: Trees, pool: set<nat>)
    ensures Conserved(s, pool, s, pool)
  {
  }

  /** In every state that a run reaches, every address space translates the kernel's pages to themselves. */
  lemma KernelIdentity(c: Config, s: Trees, pool: set<nat>, t: Spec, a: nat, addr: nat)
    requires Represents(c, s, pool, t) && a in t.live && KernelPage(c, addr)
    ensures (a, addr) in t.view && t.view[(a, addr)] == Mapping(addr, true, false)
  {
    hide WellFormed, SlotsReady, PoolFits, KernelMapped, KernelPage, Translate, IsPage, KernelIndex, IndexOf;
    assert Live(s, a);
    assert IsPage(c, addr) && KernelIndex(c, IndexOf(c, addr, 1));
    KernelEverywhere(c, s, pool, a, addr);
  }
}
