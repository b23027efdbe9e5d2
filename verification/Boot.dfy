/** The page manager of the 32-bit layout from start-up on. */
module Boot {
  import opened Mmu
  import opened Options
  import opened PageTables
  import opened AddressSpaces
  import opened Translation
  import opened Mappings
  import opened Vme
  import opened Footprint
  import opened Runs
  import opened X86

  /** No address space, and nothing mapped. */
  ghost const START := Spec({}, imap[])

  lemma StartFits(s: Trees, pages: set<nat>)
    requires s.mem == map[] && s.owner == map[]
    requires forall p :: p in pages ==> 0 < p < 0x1_0000_0000 && p % PGSIZE == 0
    ensures PoolFits(Paging(), s, pages)
  {
    Powers32();
  }

  lemma StartRepresents(s: Trees, pool: set<nat>, slot: nat, slots: set<nat>)
    requires Geometry(Paging()) && Ready(Paging(), s, pool) && ViewOf(Paging(), s) == imap[] && forall u :: !Live(s, u)
    requires s.kernel == slot && slot !in slots && slots !! pool + Owned(s)
    ensures Represents(Paging(), s, pool, START) && Apart(s, pool, slots)
  {
    hide Ready, Geometry, ViewOf, Live, Owned;
  }

  lemma BootIdentity(s: Trees, pool: set<nat>, t: Spec, u: nat, addr: nat)
    requires Represents(Paging(), s, pool, t) && u in t.live && OfKernel(addr)
    ensures Translate(Paging(), s, u, addr) == Some(Mapping(addr, true, false))
  {
    KernelPages(addr);
    KernelPagesOk(addr);
    hide Ready, Geometry, KernelPage, IsPage, KernelIndex, IndexOf, Translate, ViewOf, Live;
    assert Live(s, u);
    KernelEverywhere(Paging(), s, pool, u, addr);
  }

  lemma UserRequests(rs: seq<Request>)
    ensures forall k :: 0 <= k < |rs| ==>
      (OutsideUser(Paging(), rs[k]) <==> rs[k].Map? && !(0x4000_0000 <= rs[k].va < 0x8000_0000))
  {
  }

  /**
   * `vme_init` and then any run of requests: start-up takes 269 pages, the tables stand for what the model predicts,
   * every address space maps the kernel's pages to themselves, writable and not for user mode, and free pages and table
   * pages are together the pages handed over at the start.
   */
  method BootAndRun(pages: set<nat>, slot: nat, rs: seq<Request>, ghost slots: set<nat>)
    returns (m: PageManager, out: Outcome, up: bool, served: nat)
    requires forall p :: p in pages ==> 0 < p < 0x1_0000_0000 && p % PGSIZE == 0
    requires LegalRun(Paging(), START, rs) && forall r :: r in rs ==> r.slot in slots
    requires slot !in pages + slots && slots !! pages
    ensures fresh(m) && m.cfg == Paging() && m.pool + Owned(m.Now()) == pages
    ensures up <==> |pages| >= 269
    ensures !up ==> out == Panic(NoPage) && m.pool == {} && served == 0
    ensures served <= |rs| && (out.Done? ==> up && served == |rs|)
    ensures up ==> Represents(Paging(), m.Now(), m.pool, Result(Paging(), START, rs[..served]))
    ensures forall k :: 0 <= k < served && rs[k].Map? ==> 0x4000_0000 <= rs[k].va < 0x8000_0000
    ensures up && out.Panic? ==>
      && served < |rs|
      && (out == Panic(InvalidAddress) <==> rs[served].Map? && !(0x4000_0000 <= rs[served].va < 0x8000_0000))
    ensures up ==> forall u, addr :: u in Result(Paging(), START, rs[..served]).live && OfKernel(addr) ==>
      Translate(Paging(), m.Now(), u, addr) == Some(Mapping(addr, true, false))
  {
    hide Represents, LegalRun, Result, Layout, Geometry, Ready, ViewOf, Owned, PoolFits, Live, Translate, Apart, Paging,
      OfKernel, KernelKept, KernelPaths, OutsideUser;
    m := new PageManager(Paging(), pages);
    KernelTables();
    PagingLayout();
    StartFits(m.Now(), pages);
    served := 0;
    out := m.VmeInit(slot);
    up := out.Done?;
    if !up {
      return;
    }
    StartRepresents(m.Now(), m.pool, slot, slots);
    assert rs[..0] == [];
    out, served := Run(m, rs, START, slots);
    UserRequests(rs);
    ghost var t := Result(Paging(), START, rs[..served]);
    forall u, addr | u in t.live && OfKernel(addr)
      ensures Translate(Paging(), m.Now(), u, addr) == Some(Mapping(addr, true, false))
    {
      BootIdentity(m.Now(), m.pool, t, u, addr);
    }
  }
}
