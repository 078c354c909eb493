/**
  Laws on every run of the paging machine (lab3/kern/mm/vmm.c, pmm.c, tlb.c) beyond those of Paging.RunsAreSafe:
  faults grant the rights of the area and no more, no frame is lost, and the slots of a full TLB are thrown out in
  turn.
 */
module PagingLaws {
  import opened Options
  import opened Tlb
  import opened Paging

  /** Pages share a page table exactly if their addresses agree in the ten upper bits. */
  lemma TableServes(la: Addr, la': Addr)
    ensures Table(Vpn(la)) == Table(Vpn(la')) <==> la / 0x40_0000 == la' / 0x40_0000
    ensures Table(Vpn(la)) < 0x400
  {
  }

  // ---------- what each step does to the page table ----------

  /** Page `v` is mapped so and not in the TLB, and all other pages are mapped as before. */
  ghost predicate Remapped(vm: Vm, v: nat, p: Pte, vm': Vm)
    requires Sized(vm) && Sized(vm') && v < NPAGES
  {
    vm'.mmu.pt[v] == p && SameMaps(vm.mmu.pt[v := p], vm'.mmu.pt)
  }

  lemma MissHits(vm: Vm, la: Addr, area: Option<Vma>, write: bool, alloc: Policy)
    requires Good(vm) && Sound(alloc) && !vm.mmu.pt[Vpn(la)].tlbp && |vm.idle| >= FramesNeeded(vm, Vpn(la))
    requires MissHandler(vm, Vpn(la), area, write, alloc).Some?
    ensures var vm' := MissHandler(vm, Vpn(la), area, write, alloc).value;
      Sized(vm') && Lookup(vm'.mmu.hw, la).Hit? && MissServed(vm, Vpn(la), area, vm')
  {
    hide Coherent, Accounted, MissHandler, Lookup, MissServed;
    GoodFacts(vm);
    MissGood(vm, Vpn(la), area, write, alloc);
    var vm' := MissHandler(vm, Vpn(la), area, write, alloc).value;
    GoodFacts(vm');
    LookupAgrees(vm'.mmu, la);
  }

  /** The whole effect of each step on what is mapped: a hit, a flush and the traffic of frames leave it alone, a miss
    * serves the page, and mapping and unmapping by hand do as asked, whatever was there before.
    */
  lemma StepEffect(vm: Vm, op: Op, alloc: Policy)
    requires Good(vm) && Permitted(vm, op) && Sound(alloc) && Step(vm, op, alloc).Some?
    ensures var vm' := Step(vm, op, alloc).value;
      && Sized(vm')
      && match op
         case Access(la, area, _) =>
           && Lookup(vm'.mmu.hw, la).Hit?
           && if Lookup(vm.mmu.hw, la).Hit? then vm' == vm else MissServed(vm, Vpn(la), area, vm')
         case MapPage(f, v, w, u) => Remapped(vm, v, Pte(true, w, u, false, 0, f), vm')
         case Unmap(v) => Remapped(vm, v, Pte(false, false, false, false, 0, 0), vm')
         case Flush(v) => SameMaps(vm.mmu.pt, vm'.mmu.pt) && !vm'.mmu.pt[v].tlbp
         case Take => vm' == vm.(idle := vm.idle - (if vm.idle == {} then {} else {alloc(vm.idle).value}))
         case Give(f) => vm' == vm.(idle := vm.idle + {f})
  {
    hide Good, Coherent, Accounted, MissHandler, Lookup, Insert, RemovePte, Invalidate, Shape, MissServed;
    GoodFacts(vm);
    StepGood(vm, op, alloc);
    GoodFacts(Step(vm, op, alloc).value);
    match op
    case Access(la, area, write) =>
      LookupAgrees(vm.mmu, la);
      if !Lookup(vm.mmu.hw, la).Hit? { MissHits(vm, la, area, write, alloc); }
    case MapPage(f, v, w, u) => InsertGood(vm, f, v, w, u, alloc);
    case Unmap(v) =>
      AbsentIsZero(vm, v);
      RemovePteGood(vm, v, None);
      assert vm.mmu.pt[v] == ZERO_PTE ==> vm.mmu.pt[v := ZERO_PTE] == vm.mmu.pt;
    case Flush(v) => FlushMaps(vm, v);
    case Take =>
    case Give(f) =>
  }

  lemma FlushMaps(vm: Vm, v: nat)
    requires Good(vm) && v < NPAGES
    ensures var pt := Invalidate(vm.mmu, v).pt; |pt| == NPAGES && SameMaps(vm.mmu.pt, pt) && !pt[v].tlbp
  {
    hide Coherent, Accounted, Invalidate, Shape;
    GoodFacts(vm);
    CoherentShape(vm.mmu);
    InvalidateCoherent(vm.mmu, v);
  }

  // ---------- the rights of an area ----------

  /** A page that is there is the user's, and writable if and only if its area is. */
  ghost predicate AsArea(p: Pte, area: Option<Vma>) {
    p.present ==> area.Some? && p.user && (p.writable <==> area.value.write)
  }

  /** Accesses of page `v` meet its area, and whoever maps it by hand keeps to the area's rights. */
  ghost predicate Respects(op: Op, v: nat, area: Option<Vma>) {
    match op
    case Access(la, a, _) => Vpn(la) == v ==> a == area
    case MapPage(_, w, writable, user) => w == v ==> AsArea(Pte(true, writable, user, false, 0, 0), area)
    case _ => true
  }

  /** A step leaves page `v` as mapped before or removed, or maps it anew: by hand as asked, by a fault as its area
    * says.
    */
  lemma StepRights(vm: Vm, op: Op, alloc: Policy, v: nat, area: Option<Vma>)
    requires Good(vm) && Permitted(vm, op) && Sound(alloc) && Step(vm, op, alloc).Some? && v < NPAGES
    requires AsArea(vm.mmu.pt[v], area) && Respects(op, v, area)
    ensures var vm' := Step(vm, op, alloc).value; Sized(vm') && AsArea(vm'.mmu.pt[v], area)
  {
    hide Good, Coherent, Accounted, MissHandler, Lookup, Insert, RemovePte, Invalidate, Shape;
    GoodFacts(vm);
    StepGood(vm, op, alloc);
    GoodFacts(Step(vm, op, alloc).value);
    match op
    case Access(la, a, write) =>
      LookupAgrees(vm.mmu, la);
      if !Lookup(vm.mmu.hw, la).Hit? { MissGood(vm, Vpn(la), a, write, alloc); }
    case MapPage(f, w, writable, user) =>
      InsertGood(vm, f, w, writable, user, alloc);
    case Unmap(w) =>
      RemovePteGood(vm, w, None);
    case Flush(w) =>
      InvalidateCoherent(vm.mmu, w);
    case Take =>
    case Give(f) =>
  }

  lemma {:induction false} RunRights(vm: Vm, ops: seq<Op>, alloc: Policy, v: nat, area: Option<Vma>)
    requires Good(vm) && Sound(alloc) && Legal(vm, ops, alloc) && Run(vm, ops, alloc).Some? && v < NPAGES
    requires AsArea(vm.mmu.pt[v], area) && forall i | 0 <= i < |ops| :: Respects(ops[i], v, area)
    ensures var end := Run(vm, ops, alloc).value; Sized(end) && AsArea(end.mmu.pt[v], area)
    decreases |ops|
  {
    hide AsArea, Respects;
    if ops == [] {
      GoodFacts(vm);
    } else {
      hide Good, Step;
      StepGood(vm, ops[0], alloc);
      StepRights(vm, ops[0], alloc, v, area);
      RunRights(Step(vm, ops[0], alloc).value, ops[1..], alloc, v, area);
    }
  }

  /** After any run the hardware lets a page be written exactly if its area may be, and translates only where there
    * is an area.
    */
  lemma AccessKeepsRights(vm: Vm, ops: seq<Op>, alloc: Policy, la: Addr, area: Option<Vma>)
    requires Bootable(vm) && Sound(alloc) && Legal(Boot(vm), ops, alloc) && Run(Boot(vm), ops, alloc).Some?
    requires AsArea(vm.mmu.pt[Vpn(la)], area) && forall i | 0 <= i < |ops| :: Respects(ops[i], Vpn(la), area)
    ensures var end := Run(Boot(vm), ops, alloc).value;
      Lookup(end.mmu.hw, la).Hit? ==> area.Some? && Lookup(end.mmu.hw, la).dirty == area.value.write
  {
    InitCoherent(vm.mmu);
    assert Good(Boot(vm));
    RunGood(Boot(vm), ops, alloc);
    RunRights(Boot(vm), ops, alloc, Vpn(la), area);
    LookupAgrees(Run(Boot(vm), ops, alloc).value.mmu, la);
  }

  // ---------- no frame is lost ----------

  /** A frame that nothing refers to is on the free list, or a caller of alloc_page has it. */
  ghost predicate NoneLost(vm: Vm, held: set<Frame>) {
    forall f | f in vm.refs && vm.refs[f] == 0 :: f in vm.idle || f in held
  }

  /** The frames taken by alloc_page and since then neither mapped nor given back. */
  ghost function Held(vm: Vm, op: Op, held: set<Frame>, alloc: Policy): set<Frame> {
    match op
    case Take => if alloc(vm.idle).Some? then held + {alloc(vm.idle).value} else held
    case Give(f) => held - {f}
    case MapPage(f, _, _, _) => held - {f}
    case _ => held
  }

  lemma RemoveLosesNone(vm: Vm, v: nat, held: set<Frame>)
    requires Sized(vm) && v < NPAGES && NoneLost(vm, held)
    ensures NoneLost(RemovePte(vm, v), held)
  {
    hide Invalidate, Shape;
  }

  lemma DisplaceLosesNone(vm: Vm, f: Frame, v: nat, held: set<Frame>)
    requires Sized(vm) && v < NPAGES && f in vm.refs && f in held && NoneLost(vm, held)
    ensures NoneLost(Displace(vm, f, v), held)
  {
    hide Invalidate, RemovePte, Shape;
    var up := vm.(refs := vm.refs[f := vm.refs[f] + 1]);
    assert NoneLost(up, held);
    RemoveLosesNone(up, v, held);
  }

  lemma MapHolds(vm: Vm, f: Frame, v: nat, writable: bool, user: bool)
    requires Good(vm) && v < NPAGES && f in vm.refs && f !in vm.idle && vm.dir[Table(v)].Some?
    ensures var end := Map(vm, f, v, writable, user); f in end.refs && end.refs[f] > 0
  {
    hide Coherent, Map, PtesOk;
    MapGood(vm, f, v, writable, user);
    var end := Map(vm, f, v, writable, user);
    assert v in MappedBy(end.mmu.pt, f);
  }

  lemma MapLosesNone(vm: Vm, f: Frame, v: nat, writable: bool, user: bool, held: set<Frame>)
    requires Good(vm) && v < NPAGES && f in vm.refs && f !in vm.idle && vm.dir[Table(v)].Some?
    requires NoneLost(vm, held + {f})
    ensures NoneLost(Map(vm, f, v, writable, user), held)
  {
    hide Good, Displace, Invalidate;
    MapHolds(vm, f, v, writable, user);
    GoodFacts(vm);
    DisplaceLosesNone(vm, f, v, held + {f});
  }

  lemma InsertLosesNone(vm: Vm, f: Frame, v: nat, writable: bool, user: bool, alloc: Policy, held: set<Frame>)
    requires Good(vm) && v < NPAGES && f in vm.refs && f !in vm.idle && Sound(alloc) && NoneLost(vm, held + {f})
    ensures var r := Insert(vm, f, v, writable, user, alloc); r.Some? ==> NoneLost(r.value, held)
  {
    GoodFacts(vm);
    hide Good, Sized, Map;
    GetPteGood(vm, v, alloc);
    var r := GetPte(vm, v, alloc);
    if r.Some? {
      MapLosesNone(r.value, f, v, writable, user, held);
    }
  }

  lemma AllocLosesNone(vm: Vm, v: nat, writable: bool, user: bool, alloc: Policy, held: set<Frame>)
    requires Good(vm) && v < NPAGES && Sound(alloc) && NoneLost(vm, held)
    ensures var r := AllocAndMap(vm, v, writable, user, alloc); r.Some? ==> NoneLost(r.value, held)
  {
    if vm.idle != {} {
      var f := alloc(vm.idle).value;
      TakeGood(vm, alloc);
      GoodFacts(vm);
      hide Good, Insert;
      InsertLosesNone(vm.(idle := vm.idle - {f}), f, v, writable, user, alloc, held);
    }
  }

  lemma FaultLosesNone(vm: Vm, v: nat, area: Option<Vma>, write: bool, alloc: Policy, held: set<Frame>)
    requires Good(vm) && v < NPAGES && Sound(alloc) && NoneLost(vm, held)
    ensures var r := Fault(vm, v, area, write, alloc); r.Some? ==> NoneLost(r.value, held)
  {
    GoodFacts(vm);
    GetPteGood(vm, v, alloc);
    hide Good, Sized, AllocAndMap;
    var r := GetPte(vm, v, alloc);
    if area.Some? && r.Some? {
      AllocLosesNone(r.value, v, area.value.write, true, alloc, held);
    }
  }

  lemma StepLosesNone(vm: Vm, op: Op, alloc: Policy, held: set<Frame>)
    requires Good(vm) && Permitted(vm, op) && Sound(alloc) && NoneLost(vm, held)
    ensures Step(vm, op, alloc).Some? ==> NoneLost(Step(vm, op, alloc).value, Held(vm, op, held, alloc))
  {
    hide Good, Coherent, Accounted, Lookup, Insert, RemovePte, Invalidate, Shape, Fault, Fill;
    GoodFacts(vm);
    match op
    case Access(la, area, write) =>
      FaultLosesNone(vm, Vpn(la), area, write, alloc, held);
    case MapPage(f, v, w, u) =>
      InsertLosesNone(vm, f, v, w, u, alloc, held - {f});
    case Unmap(v) =>
      RemoveLosesNone(vm, v, held);
    case Flush(v) =>
    case Take =>
    case Give(f) =>
  }

  ghost function RunHeld(vm: Vm, ops: seq<Op>, alloc: Policy, held: set<Frame>): set<Frame>
    requires Sound(alloc) && Legal(vm, ops, alloc) && Run(vm, ops, alloc).Some?
    decreases |ops|
  {
    if ops == [] then held
    else RunHeld(Step(vm, ops[0], alloc).value, ops[1..], alloc, Held(vm, ops[0], held, alloc))
  }

  /** After any run a frame without references is free or with whoever took it. */
  lemma {:induction false} NoFrameLost(vm: Vm, ops: seq<Op>, alloc: Policy, held: set<Frame>)
    requires Good(vm) && Sound(alloc) && Legal(vm, ops, alloc) && Run(vm, ops, alloc).Some? && NoneLost(vm, held)
    ensures NoneLost(Run(vm, ops, alloc).value, RunHeld(vm, ops, alloc, held))
    decreases |ops|
  {
    if ops != [] {
      hide Good, Step, NoneLost, Held;
      StepGood(vm, ops[0], alloc);
      StepLosesNone(vm, ops[0], alloc, held);
      NoFrameLost(Step(vm, ops[0], alloc).value, ops[1..], alloc, Held(vm, ops[0], held, alloc));
    }
  }

  // ---------- eviction in turn ----------

  /** The slots that hold one pair before and another one after. */
  ghost function ThrownOut(m: Mmu, m': Mmu): set<nat>
    requires Shape(m) && Shape(m')
  {
    set i | 0 <= i < TLBN && i !in m.free && i !in m'.free && m.hw[i].hi != m'.hw[i].hi
  }

  /** At most the slot whose turn it is, when no slot is free; and then it is the next one's turn. */
  ghost predicate InTurn(m: Mmu, m': Mmu)
    requires Shape(m) && Shape(m')
  {
    if ThrownOut(m, m') == {} then m'.next == m.next
    else ThrownOut(m, m') == {m.next} && m.free == [] && m'.next == (m.next + 1) % TLBN
  }

  /** Equal but for the page table. */
  predicate SameTlb(m: Mmu, m': Mmu) {
    m' == m.(pt := m'.pt)
  }

  lemma InvalidateInTurn(m: Mmu, v: nat)
    requires Coherent(m) && v < NPAGES
    ensures ThrownOut(m, Invalidate(m, v)) == {} && Invalidate(m, v).next == m.next
  {
    var m' := Invalidate(m, v);
    forall i | 0 <= i < TLBN && i !in m.free && i !in m'.free ensures m.hw[i].hi == m'.hw[i].hi {
      assert PteOk(m, v);
      assert m.pt[v].tlbp && !m.pt[Pair(v)].tlbp ==> m'.free[|m.free|] == m.pt[v].idx;
    }
  }

  lemma FillInTurn(m: Mmu, v: nat)
    requires Coherent(m) && v < NPAGES && m.pt[v].present && !m.pt[v].tlbp
    ensures Coherent(Fill(m, v)) && InTurn(m, Fill(m, v))
  {
    FillCoherent(m, v);
    PairFacts(v);
    var m' := Fill(m, v);
    if m.pt[Pair(v)].tlbp {
      assert PteOk(m, Pair(v));
      assert ThrownOut(m, m') == {};
    } else if m.free == [] {
      EvictClears(m, v);
      assert SlotOk(m, m.next);
      assert ThrownOut(m, m') == {m.next};
    } else {
      assert m.free[|m.free| - 1] in m.free;
      assert ThrownOut(m, m') == {};
    }
  }

  lemma TurnsJoin(m: Mmu, m1: Mmu, m2: Mmu)
    requires Shape(m) && Shape(m1) && Shape(m2) && SameTlb(m, m1) && InTurn(m1, m2)
    ensures InTurn(m, m2)
  {
    assert ThrownOut(m, m2) == ThrownOut(m1, m2);
  }

  /** page_insert flushes page `v` and touches nothing else of the TLB, however often it comes to tlb_invalidate. */
  lemma MapTlb(vm: Vm, f: Frame, v: nat, writable: bool, user: bool)
    requires Good(vm) && v < NPAGES && f in vm.refs
    ensures var m := Invalidate(vm.mmu, v); var p := Pte(true, writable, user, false, 0, f);
      Map(vm, f, v, writable, user).mmu == m.(pt := m.pt[v := p])
  {
    hide Coherent, PtesOk, Counted;
    InvalidateCoherent(vm.mmu, v);
  }

  lemma MapKeepsTlb(vm: Vm, f: Frame, v: nat, writable: bool, user: bool)
    requires Good(vm) && v < NPAGES && f in vm.refs
    ensures var m' := Map(vm, f, v, writable, user).mmu;
      && Shape(m') && ThrownOut(vm.mmu, m') == {} && m'.next == vm.mmu.next
      && (!vm.mmu.pt[v].tlbp ==> SameTlb(vm.mmu, m'))
  {
    MapTlb(vm, f, v, writable, user);
    hide Map, Coherent, Accounted;
    GoodFacts(vm);
    InvalidateInTurn(vm.mmu, v);
  }

  lemma InsertKeepsTlb(vm: Vm, f: Frame, v: nat, writable: bool, user: bool, alloc: Policy)
    requires Good(vm) && v < NPAGES && f in vm.refs && f !in vm.idle && Sound(alloc)
    requires Insert(vm, f, v, writable, user, alloc).Some?
    ensures var m' := Insert(vm, f, v, writable, user, alloc).value.mmu;
      && Shape(m') && ThrownOut(vm.mmu, m') == {} && m'.next == vm.mmu.next
      && (!vm.mmu.pt[v].tlbp ==> SameTlb(vm.mmu, m'))
  {
    GoodFacts(vm);
    hide Good, Map, ThrownOut;
    GetPteGood(vm, v, alloc);
    MapKeepsTlb(GetPte(vm, v, alloc).value, f, v, writable, user);
  }

  lemma RemoveKeepsTlb(vm: Vm, v: nat)
    requires Good(vm) && v < NPAGES
    ensures var m' := Remove(vm, v).mmu; Shape(m') && ThrownOut(vm.mmu, m') == {} && m'.next == vm.mmu.next
  {
    hide Coherent, Accounted, Invalidate;
    GoodFacts(vm);
    InvalidateInTurn(vm.mmu, v);
  }

  lemma FaultKeepsTlb(vm: Vm, v: nat, area: Option<Vma>, write: bool, alloc: Policy)
    requires Good(vm) && v < NPAGES && Sound(alloc) && !vm.mmu.pt[v].present
    requires Fault(vm, v, area, write, alloc).Some?
    ensures SameTlb(vm.mmu, Fault(vm, v, area, write, alloc).value.mmu)
  {
    GoodFacts(vm);
    AbsentIsZero(vm, v);
    hide Good, Insert;
    GetPteGood(vm, v, alloc);
    var vm1 := GetPte(vm, v, alloc).value;
    if vm1.idle != {} {
      var f := alloc(vm1.idle).value;
      TakeGood(vm1, alloc);
      GoodFacts(vm1);
      InsertKeepsTlb(vm1.(idle := vm1.idle - {f}), f, v, area.value.write, true, alloc);
    }
  }

  lemma MissInTurn(vm: Vm, v: nat, area: Option<Vma>, write: bool, alloc: Policy)
    requires Good(vm) && v < NPAGES && Sound(alloc) && !vm.mmu.pt[v].tlbp && |vm.idle| >= FramesNeeded(vm, v)
    requires MissHandler(vm, v, area, write, alloc).Some?
    ensures var m' := MissHandler(vm, v, area, write, alloc).value.mmu; Shape(m') && InTurn(vm.mmu, m')
  {
    GoodFacts(vm);
    hide Good, Fault, InTurn, Coherent, SameTlb, Fill;
    if vm.mmu.pt[v].present {
      FillInTurn(vm.mmu, v);
      CoherentShape(Fill(vm.mmu, v));
    } else {
      FaultGood(vm, v, area, write, alloc);
      FaultKeepsTlb(vm, v, area, write, alloc);
      var vm1 := Fault(vm, v, area, write, alloc).value;
      GoodFacts(vm1);
      FillInTurn(vm1.mmu, v);
      CoherentShape(Fill(vm1.mmu, v));
      TurnsJoin(vm.mmu, vm1.mmu, Fill(vm1.mmu, v));
    }
  }

  /** A step throws out at most the slot whose turn it is. */
  lemma StepInTurn(vm: Vm, op: Op, alloc: Policy)
    requires Good(vm) && Permitted(vm, op) && Sound(alloc) && Step(vm, op, alloc).Some?
    ensures var m' := Step(vm, op, alloc).value.mmu; Shape(m') && InTurn(vm.mmu, m')
  {
    hide Good, Coherent, Accounted, MissHandler, Lookup, Insert, Remove, Invalidate;
    GoodFacts(vm);
    match op
    case Access(la, area, write) =>
      LookupAgrees(vm.mmu, la);
      if !Lookup(vm.mmu.hw, la).Hit? { MissInTurn(vm, Vpn(la), area, write, alloc); }
    case MapPage(f, v, w, u) =>
      InsertKeepsTlb(vm, f, v, w, u, alloc);
    case Unmap(v) =>
      RemoveKeepsTlb(vm, v);
    case Flush(v) =>
      InvalidateInTurn(vm.mmu, v);
    case Take =>
    case Give(f) =>
  }

  /** Page `w` leaves the TLB, or its slot. */
  ghost predicate Leaves(m: Mmu, m': Mmu, w: nat)
    requires Shape(m) && Shape(m') && w < NPAGES
  {
    m.pt[w].tlbp && !(m'.pt[w].tlbp && m'.pt[w].idx == m.pt[w].idx)
  }

  lemma FillLeaves(m: Mmu, v: nat, w: nat)
    requires Coherent(m) && v < NPAGES && m.pt[v].present && !m.pt[v].tlbp && w < NPAGES
    ensures Coherent(Fill(m, v)) && (Leaves(m, Fill(m, v), w) ==> m.free == [] && m.pt[w].idx == m.next)
  {
    hide PteOk, SlotOk;
    FillCoherent(m, v);
    PairFacts(v);
    if !m.pt[Pair(v)].tlbp {
      if m.free == [] {
        EvictReady(m, v);
      } else {
        PopReady(m, PairBase(v));
      }
    }
  }

  lemma MissLeaves(vm: Vm, v: nat, area: Option<Vma>, write: bool, alloc: Policy, w: nat)
    requires Good(vm) && v < NPAGES && Sound(alloc) && !vm.mmu.pt[v].tlbp && |vm.idle| >= FramesNeeded(vm, v)
    requires MissHandler(vm, v, area, write, alloc).Some? && w < NPAGES
    ensures var m' := MissHandler(vm, v, area, write, alloc).value.mmu;
      Shape(m') && (Leaves(vm.mmu, m', w) ==> vm.mmu.free == [] && vm.mmu.pt[w].idx == vm.mmu.next)
  {
    GoodFacts(vm);
    hide Good, Fault, Coherent, Fill;
    if vm.mmu.pt[v].present {
      FillLeaves(vm.mmu, v, w);
      CoherentShape(Fill(vm.mmu, v));
    } else {
      FaultGood(vm, v, area, write, alloc);
      FaultKeepsTlb(vm, v, area, write, alloc);
      var vm1 := Fault(vm, v, area, write, alloc).value;
      GoodFacts(vm1);
      FillLeaves(vm1.mmu, v, w);
      CoherentShape(Fill(vm1.mmu, v));
    }
  }

  /** A page leaves the TLB only when it is thrown out in turn, or itself mapped, unmapped or flushed. */
  lemma StepLeaves(vm: Vm, op: Op, alloc: Policy, w: nat)
    requires Good(vm) && Permitted(vm, op) && Sound(alloc) && Step(vm, op, alloc).Some? && w < NPAGES
    ensures var m' := Step(vm, op, alloc).value.mmu;
      && Shape(m')
      && (Leaves(vm.mmu, m', w) ==>
            match op
            case Access(_, _, _) => vm.mmu.free == [] && vm.mmu.pt[w].idx == vm.mmu.next
            case MapPage(_, v, _, _) => v == w
            case Unmap(v) => v == w
            case Flush(v) => v == w
            case _ => false)
  {
    hide Good, Coherent, Accounted, MissHandler, Lookup, Map, Invalidate;
    GoodFacts(vm);
    match op
    case Access(la, area, write) =>
      LookupAgrees(vm.mmu, la);
      if !Lookup(vm.mmu.hw, la).Hit? { MissLeaves(vm, Vpn(la), area, write, alloc, w); }
    case MapPage(f, v, writable, user) =>
      GetPteGood(vm, v, alloc);
      MapTlb(GetPte(vm, v, alloc).value, f, v, writable, user);
      InvalidateCoherent(vm.mmu, v);
    case Unmap(v) =>
      InvalidateCoherent(vm.mmu, v);
    case Flush(v) =>
      InvalidateCoherent(vm.mmu, v);
    case Take =>
    case Give(f) =>
  }

  /** What the steps of a run throw out, one set for each step that throws out anything. */
  ghost function Evictions(vm: Vm, ops: seq<Op>, alloc: Policy): seq<set<nat>>
    requires Good(vm) && Sound(alloc) && Legal(vm, ops, alloc)
    decreases |ops|
  {
    if ops == [] || Step(vm, ops[0], alloc).None? then []
    else
      StepGood(vm, ops[0], alloc);
      var vm' := Step(vm, ops[0], alloc).value;
      var out := ThrownOut(vm.mmu, vm'.mmu);
      (if out == {} then [] else [out]) + Evictions(vm', ops[1..], alloc)
  }

  function Turn(next: nat, i: nat): nat {
    (next + i) % TLBN
  }

  lemma TurnStep(next: nat, i: nat)
    requires i > 0 && next < TLBN
    ensures Turn(Turn(next, 1), i - 1) == Turn(next, i)
  {
    assert Turn(next, 1) == if next == TLBN - 1 then 0 else next + 1;
  }

  /** In every run the slots are thrown out one by one, in the order of their numbers and round again, whatever
    * else happens in between.
    */
  lemma {:induction false} EvictedInTurn(vm: Vm, ops: seq<Op>, alloc: Policy, i: nat)
    requires Good(vm) && Sound(alloc) && Legal(vm, ops, alloc) && i < |Evictions(vm, ops, alloc)|
    ensures Evictions(vm, ops, alloc)[i] == {Turn(vm.mmu.next, i)}
    decreases |ops|
  {
    hide Good, Step, ThrownOut, Permitted, Run;
    StepGood(vm, ops[0], alloc);
    StepInTurn(vm, ops[0], alloc);
    var vm' := Step(vm, ops[0], alloc).value;
    GoodFacts(vm);
    assert ThrownOut(vm.mmu, vm'.mmu) != {} ==> vm'.mmu.next == Turn(vm.mmu.next, 1);
    assert vm.mmu.next == Turn(vm.mmu.next, 0);
    hide Shape, Sized, InTurn, Turn;
    if ThrownOut(vm.mmu, vm'.mmu) == {} {
      EvictedInTurn(vm', ops[1..], alloc, i);
    } else if i > 0 {
      TurnStep(vm.mmu.next, i);
      EvictedInTurn(vm', ops[1..], alloc, i - 1);
    }
  }

  /** Sixteen evictions in a row throw out sixteen different slots. */
  lemma SixteenDiffer(vm: Vm, ops: seq<Op>, alloc: Policy, i: nat, j: nat)
    requires Good(vm) && Sound(alloc) && Legal(vm, ops, alloc) && i < j < |Evictions(vm, ops, alloc)|
    ensures Evictions(vm, ops, alloc)[i] == Evictions(vm, ops, alloc)[j] <==> (j - i) % 16 == 0
  {
    hide Evictions;
    EvictedInTurn(vm, ops, alloc, i);
    EvictedInTurn(vm, ops, alloc, j);
    assert Turn(vm.mmu.next, i) in Evictions(vm, ops, alloc)[i];
  }

  // ---------- what is not mapped is blank ----------

  /** Where a slot maps nothing it holds zero words, and a slot in no use an address that the hardware never looks
    * up.
    */
  ghost predicate Blank(m: Mmu)
    requires Shape(m)
  {
    forall i | 0 <= i < TLBN ::
      && (!m.hw[i].lo0.valid ==> m.hw[i].lo0 == EntryLo(0, false, false))
      && (!m.hw[i].lo1.valid ==> m.hw[i].lo1 == EntryLo(0, false, false))
      && (i in m.free ==> m.hw[i].hi == 0x8000_0000)
  }

  lemma InitBlank(m: Mmu)
    requires Shape(TlbInit(m))
    ensures Blank(TlbInit(m))
  {
  }

  lemma InvalidateBlank(m: Mmu, v: nat)
    requires Coherent(m) && v < NPAGES && Blank(m)
    ensures Blank(Invalidate(m, v))
  {
    assert PteOk(m, v) && PteOk(m, Pair(v));
  }

  lemma FillBlank(m: Mmu, v: nat)
    requires Coherent(m) && v < NPAGES && m.pt[v].present && !m.pt[v].tlbp && Blank(m)
    ensures Shape(Fill(m, v)) && Blank(Fill(m, v))
  {
    FillCoherent(m, v);
    PairFacts(v);
    assert PteOk(m, Pair(v));
    assert m.free != [] ==> m.free[|m.free| - 1] in m.free;
  }

  lemma MapBlank(vm: Vm, f: Frame, v: nat, writable: bool, user: bool)
    requires Good(vm) && v < NPAGES && f in vm.refs && Blank(vm.mmu)
    ensures var m' := Map(vm, f, v, writable, user).mmu; Shape(m') && Blank(m')
  {
    MapTlb(vm, f, v, writable, user);
    hide Map, Coherent, Accounted, Invalidate;
    GoodFacts(vm);
    InvalidateBlank(vm.mmu, v);
  }

  lemma MissBlank(vm: Vm, v: nat, area: Option<Vma>, write: bool, alloc: Policy)
    requires Good(vm) && v < NPAGES && Sound(alloc) && !vm.mmu.pt[v].tlbp && |vm.idle| >= FramesNeeded(vm, v)
    requires MissHandler(vm, v, area, write, alloc).Some? && Blank(vm.mmu)
    ensures var m' := MissHandler(vm, v, area, write, alloc).value.mmu; Shape(m') && Blank(m')
  {
    GoodFacts(vm);
    hide Good, Fault, Coherent, Fill;
    if vm.mmu.pt[v].present {
      FillBlank(vm.mmu, v);
    } else {
      FaultGood(vm, v, area, write, alloc);
      FaultKeepsTlb(vm, v, area, write, alloc);
      var vm1 := Fault(vm, v, area, write, alloc).value;
      GoodFacts(vm1);
      FillBlank(vm1.mmu, v);
    }
  }

  lemma StepBlank(vm: Vm, op: Op, alloc: Policy)
    requires Good(vm) && Permitted(vm, op) && Sound(alloc) && Step(vm, op, alloc).Some? && Blank(vm.mmu)
    ensures var m' := Step(vm, op, alloc).value.mmu; Shape(m') && Blank(m')
  {
    hide Good, Coherent, Accounted, MissHandler, Lookup, Map, Invalidate, Blank;
    GoodFacts(vm);
    match op
    case Access(la, area, write) =>
      LookupAgrees(vm.mmu, la);
      if !Lookup(vm.mmu.hw, la).Hit? { MissBlank(vm, Vpn(la), area, write, alloc); }
    case MapPage(f, v, w, u) =>
      GetPteGood(vm, v, alloc);
      MapBlank(GetPte(vm, v, alloc).value, f, v, w, u);
    case Unmap(v) =>
      RemoveBlank(vm, v);
    case Flush(v) =>
      InvalidateBlank(vm.mmu, v);
    case Take =>
    case Give(f) =>
  }

  lemma RemoveBlank(vm: Vm, v: nat)
    requires Good(vm) && v < NPAGES && Blank(vm.mmu)
    ensures var m' := Remove(vm, v).mmu; Shape(m') && Blank(m')
  {
    hide Coherent, Accounted, Invalidate;
    GoodFacts(vm);
    InvalidateBlank(vm.mmu, v);
  }

  /** After every run from tlb_init what maps nothing is blank, whatever was in the TLB before. */
  lemma {:induction false} RunBlank(vm: Vm, ops: seq<Op>, alloc: Policy)
    requires Good(vm) && Sound(alloc) && Legal(vm, ops, alloc) && Run(vm, ops, alloc).Some? && Blank(vm.mmu)
    ensures var m' := Run(vm, ops, alloc).value.mmu; Shape(m') && Blank(m')
    decreases |ops|
  {
    hide Blank;
    if ops == [] {
      GoodFacts(vm);
    } else {
      hide Good, Step;
      StepGood(vm, ops[0], alloc);
      StepBlank(vm, ops[0], alloc);
      RunBlank(Step(vm, ops[0], alloc).value, ops[1..], alloc);
    }
  }
}
