/** Any sequence of accesses, mappings, unmappings and flushes on the kernel's own arrays after tlb_init
  * (lab3/kern/mm/tlb.c, pmm.c): it goes through the states of Paging.Run, so Paging.RunsAreSafe holds of it.
  */
module KernelRuns {
  import opened Options
  import opened Tlb
  import opened Paging
  import opened MmuKernel

  method Act(k: Kernel, op: Op) returns (ok: bool)
    requires k.Valid() && Good(k.View()) && Permitted(k.View(), op)
    modifies k, k.pgdir, k.hw, k.tlbAlgoEmpty, k.tlbAlgoHi
    ensures k.Valid() && Step(old(k.View()), op, k.alloc) == if ok then Some(k.View()) else None
  {
    hide Coherent, Accounted, MissHandler, Insert, RemovePte, Invalidate, Flat, TablesOk, Lookup;
    GoodFacts(k.View());
    ok := true;
    match op
    case Access(la, area, write) =>
      if Lookup(k.hw[..], la) == Miss {
        ok := k.TlbMissHandler(la, area, write);
      }
    case MapPage(f, v, writable, user) => ok := k.PageInsert(f, v, writable, user);
    case Unmap(v) => k.PageRemove(v);
    case Flush(v) => k.TlbInvalidate(v);
    case Take =>
      var f := k.alloc(k.idle);
      if f.Some? {
        k.idle := k.idle - {f.value};
      }
    case Give(f) => k.idle := k.idle + {f};
  }

  lemma BootGood(vm: Vm)
    requires Bootable(vm)
    ensures Good(Boot(vm))
  {
    InitCoherent(vm.mmu);
  }

  method Perform(k: Kernel, ops: seq<Op>) returns (ok: bool)
    requires k.Valid() && Bootable(k.View()) && Legal(Boot(k.View()), ops, k.alloc)
    modifies k, k.pgdir, k.hw, k.tlbAlgoEmpty, k.tlbAlgoHi
    ensures k.Valid() && Run(Boot(old(k.View())), ops, k.alloc) == if ok then Some(k.View()) else None
  {
    hide Good, Step, Boot, Bootable, Flat, TablesOk;
    ghost var vm := Boot(k.View());
    BootGood(k.View());
    k.Init();
    var i := 0;
    while i < |ops|
      invariant i <= |ops| && k.Valid() && Good(k.View()) && Legal(k.View(), ops[i..], k.alloc)
      invariant Run(k.View(), ops[i..], k.alloc) == Run(vm, ops, k.alloc)
    {
      StepGood(k.View(), ops[i], k.alloc);
      assert ops[i..][1..] == ops[i + 1..];
      ok := Act(k, ops[i]);
      if !ok {
        return;
      }
      i := i + 1;
    }
    ok := true;
  }
}
