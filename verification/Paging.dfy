/**
  Mapping and unmapping pages (lab3/kern/mm/pmm.c), page faults (do_pgfault of vmm.c
  with swap off) and the miss handler of tlb.c, on top of the TLB: one page directory,
  loaded once.  None means that the kernel stops or goes astray: a failed assert, or the null
  page that get_pte hands to set_page_ref when no frame is left.  That write is to a field of a
  record at address 0, and stops the kernel only if no writable area covers that address.
 */
module Paging {
  import opened Options
  import opened Tlb

  const NTABLES := 0x400

  /**
    `dir` is the page directory, `refs` the reference counter of every managed frame,
    `idle` the frames on the allocator's free list.
   */
  datatype Vm = Vm(mmu: Mmu, dir: seq<Option<Frame>>, refs: map<Frame, int>, idle: set<Frame>)

  /** Which frame alloc_page takes, given the free ones. */
  type Policy = set<Frame> -> Option<Frame>

  ghost predicate Sound(alloc: Policy) {
    forall s :: if s == {} then alloc(s) == None else alloc(s).Some? && alloc(s).value in s
  }

  /** The flags of the area that holds a faulting address. */
  datatype Vma = Vma(read: bool, write: bool, exec: bool)

  predicate Sized(vm: Vm) {
    && Shape(vm.mmu) && |vm.dir| == NTABLES && vm.idle <= vm.refs.Keys
    && (forall v | 0 <= v < NPAGES && vm.mmu.pt[v].present :: vm.mmu.pt[v].ppn in vm.refs)
  }

  function Table(v: nat): nat {
    v / 0x400
  }

  // ---------- the operations ----------

  /** get_pte with create set: a missing page table takes a frame. */
  ghost function GetPte(vm: Vm, v: nat, alloc: Policy): Option<Vm>
    requires Sized(vm) && v < NPAGES && Sound(alloc)
  {
    if vm.dir[Table(v)].Some? then Some(vm)
    else
      match alloc(vm.idle)
      case None => None
      case Some(f) => Some(vm.(dir := vm.dir[Table(v) := Some(f)], refs := vm.refs[f := 1], idle := vm.idle - {f}))
  }

  /** page_remove_pte */
  function RemovePte(vm: Vm, v: nat): (vm': Vm)
    requires Sized(vm) && v < NPAGES
    ensures Shape(vm'.mmu)
  {
    var p := vm.mmu.pt[v];
    if !p.present then vm
    else
      var refs := vm.refs[p.ppn := vm.refs[p.ppn] - 1];
      var m := Invalidate(vm.mmu, v);
      vm.(mmu := m.(pt := m.pt[v := ZERO_PTE]), refs := refs,
        idle := if refs[p.ppn] == 0 then vm.idle + {p.ppn} else vm.idle)
  }

  /** page_remove */
  function Remove(vm: Vm, v: nat): Vm
    requires Sized(vm) && v < NPAGES
  {
    if vm.dir[Table(v)].None? then vm else RemovePte(vm, v)
  }

  /** page_insert up to the final flush: `f` gains a reference and another frame mapped at `v` is unmapped. */
  function Displace(vm: Vm, f: Frame, v: nat): (vm': Vm)
    requires Sized(vm) && v < NPAGES && f in vm.refs
    ensures Shape(vm'.mmu)
  {
    var p := vm.mmu.pt[v];
    var up := vm.(refs := vm.refs[f := vm.refs[f] + 1]);
    if !p.present then up
    else if p.ppn == f then up.(refs := up.refs[f := up.refs[f] - 1])
    else RemovePte(up, v)
  }

  /** page_insert once the page table is there */
  function Map(vm: Vm, f: Frame, v: nat, writable: bool, user: bool): Vm
    requires Sized(vm) && v < NPAGES && f in vm.refs
  {
    var vm1 := Displace(vm, f, v);
    var m := Invalidate(vm1.mmu, v);
    vm1.(mmu := m.(pt := m.pt[v := Pte(true, writable, user, false, 0, f)]))
  }

  ghost function Insert(vm: Vm, f: Frame, v: nat, writable: bool, user: bool, alloc: Policy): Option<Vm>
    requires Sized(vm) && v < NPAGES && f in vm.refs && Sound(alloc)
  {
    match GetPte(vm, v, alloc)
    case None => None
    case Some(vm') => Some(Map(vm', f, v, writable, user))
  }

  /** pgdir_alloc_page: with no frame left nothing happens, and the caller is not told. */
  ghost function AllocAndMap(vm: Vm, v: nat, writable: bool, user: bool, alloc: Policy): Option<Vm>
    requires Sized(vm) && v < NPAGES && Sound(alloc)
  {
    match alloc(vm.idle)
    case None => Some(vm)
    case Some(f) => Insert(vm.(idle := vm.idle - {f}), f, v, writable, user, alloc)
  }

  /** do_pgfault with error code 2 for a write and 0 for a read. */
  ghost function Fault(vm: Vm, v: nat, area: Option<Vma>, write: bool, alloc: Policy): Option<Vm>
    requires Sized(vm) && v < NPAGES && Sound(alloc)
  {
    if area.None? then None
    else if write && !area.value.write then None
    else if !write && !area.value.read && !area.value.exec then None
    else
      match GetPte(vm, v, alloc)
      case None => None
      case Some(vm') =>
        if vm'.mmu.pt[v] == ZERO_PTE then AllocAndMap(vm', v, area.value.write, true, alloc) else None
  }

  /** tlb_miss_handler */
  ghost function MissHandler(vm: Vm, v: nat, area: Option<Vma>, write: bool, alloc: Policy): Option<Vm>
    requires Sized(vm) && v < NPAGES && Sound(alloc)
  {
    if vm.mmu.pt[v].present then Some(vm.(mmu := Fill(vm.mmu, v)))
    else
      match Fault(vm, v, area, write, alloc)
      case None => None
      case Some(vm') => Some(vm'.(mmu := Fill(vm'.mmu, v)))
  }

  // ---------- reference counts ----------

  ghost function MappedBy(pt: seq<Pte>, f: Frame): set<nat> {
    set v | 0 <= v < |pt| && pt[v].present && pt[v].ppn == f
  }

  ghost function TablesIn(dir: seq<Option<Frame>>, f: Frame): set<nat> {
    set d | 0 <= d < |dir| && dir[d] == Some(f)
  }

  /** Every PTE is empty, or present below a page table and naming a managed frame. */
  ghost predicate PtesOk(vm: Vm)
    requires Sized(vm)
  {
    forall v | 0 <= v < NPAGES ::
      if vm.mmu.pt[v].present then vm.dir[Table(v)].Some? else vm.mmu.pt[v] == ZERO_PTE
  }

  /** ref counts the present PTEs and page directory entries that name the frame, plus one for `held`. */
  ghost predicate Counted(vm: Vm, held: Option<Frame>) {
    forall f | f in vm.refs ::
      vm.refs[f] == |MappedBy(vm.mmu.pt, f)| + |TablesIn(vm.dir, f)| + (if held == Some(f) then 1 else 0)
  }

  ghost predicate Accounted(vm: Vm, held: Option<Frame>) {
    && Sized(vm) && PtesOk(vm) && Counted(vm, held)
    && (forall d | 0 <= d < NTABLES && vm.dir[d].Some? :: vm.dir[d].value in vm.refs)
    && (forall f | f in vm.idle :: vm.refs[f] == 0)
  }

  /** What every step keeps: TLB and page table agree, and the reference counts are right. */
  ghost predicate Good(vm: Vm) {
    Coherent(vm.mmu) && Accounted(vm, None)
  }

  lemma GoodFacts(vm: Vm)
    requires Good(vm)
    ensures Sized(vm) && Coherent(vm.mmu) && Shape(vm.mmu) && Accounted(vm, None)
  {
  }

  /** No frame on the free list is mapped or holds a page table. */
  lemma IdleUnmapped(vm: Vm, f: Frame)
    requires Good(vm) && f in vm.idle
    ensures MappedBy(vm.mmu.pt, f) == {} && TablesIn(vm.dir, f) == {}
  {
    assert vm.refs[f] == 0;
  }

  /** Equal but for the TLB bookkeeping bits of present PTEs. */
  ghost predicate SameMaps(pt: seq<Pte>, pt': seq<Pte>) {
    && |pt| == |pt'|
    && forall v | 0 <= v < |pt| ::
         pt'[v] == (if pt[v].present then pt[v].(tlbp := pt'[v].tlbp, idx := pt'[v].idx) else pt[v])
  }

  lemma SameMapsCount(pt: seq<Pte>, pt': seq<Pte>, f: Frame)
    requires SameMaps(pt, pt')
    ensures MappedBy(pt, f) == MappedBy(pt', f)
  {
  }

  lemma WithoutOne(s: set<nat>, v: nat)
    ensures |s - {v}| == |s| - (if v in s then 1 else 0)
    ensures s == {v} <==> v in s && |s| == 1
  {
    if v in s {
      assert s == (s - {v}) + {v};
      assert s == {v} <==> s - {v} == {};
    } else {
      assert s == s - {v};
    }
  }

  lemma DifferAtOne(s: set<nat>, s': set<nat>, v: nat)
    requires s - {v} == s' - {v}
    ensures |s'| == |s| - (if v in s then 1 else 0) + (if v in s' then 1 else 0)
  {
    WithoutOne(s, v);
    WithoutOne(s', v);
  }

  lemma WriteCount(pt: seq<Pte>, v: nat, p: Pte, f: Frame)
    requires v < |pt|
    ensures |MappedBy(pt[v := p], f)| ==
            |MappedBy(pt, f)| - (if pt[v].present && pt[v].ppn == f then 1 else 0)
              + (if p.present && p.ppn == f then 1 else 0)
  {
    DifferAtOne(MappedBy(pt, f), MappedBy(pt[v := p], f), v);
  }

  lemma TableCount(dir: seq<Option<Frame>>, d: nat, g: Frame, f: Frame)
    requires d < |dir| && dir[d].None?
    ensures |TablesIn(dir[d := Some(g)], f)| == |TablesIn(dir, f)| + (if f == g then 1 else 0)
  {
    assert TablesIn(dir[d := Some(g)], f) - {d} == TablesIn(dir, f);
  }

  // ---------- what every operation keeps ----------

  lemma GetPteGood(vm: Vm, v: nat, alloc: Policy)
    requires Good(vm) && v < NPAGES && Sound(alloc)
    ensures var r := GetPte(vm, v, alloc);
      && (r.None? <==> vm.dir[Table(v)].None? && vm.idle == {})
      && (r.Some? ==>
            && Good(r.value) && r.value.mmu == vm.mmu && r.value.dir[Table(v)].Some?
              && r.value.refs.Keys == vm.refs.Keys
            && r.value.idle == vm.idle - (if vm.dir[Table(v)].Some? then {} else {alloc(vm.idle).value})
            && forall f | f in vm.refs && f !in vm.idle :: r.value.refs[f] == vm.refs[f])
  {
    if vm.dir[Table(v)].None? && vm.idle != {} {
      var g := alloc(vm.idle).value;
      assert g in vm.idle && vm.refs[g] == 0;
      var vm' := GetPte(vm, v, alloc).value;
      forall f | f in vm'.refs
        ensures vm'.refs[f] == |MappedBy(vm'.mmu.pt, f)| + |TablesIn(vm'.dir, f)|
      {
        TableCount(vm.dir, Table(v), g, f);
        assert f in vm.refs;
      }
      assert Counted(vm', None);
    }
  }

  lemma UnmapCounts(vm: Vm, v: nat, held: Option<Frame>, f: Frame)
    requires Sized(vm) && Counted(vm, held) && v < NPAGES && vm.mmu.pt[v].present && f in vm.refs
    requires SameMaps(vm.mmu.pt[v := ZERO_PTE], RemovePte(vm, v).mmu.pt)
    ensures var vm' := RemovePte(vm, v);
      vm'.refs[f] == |MappedBy(vm'.mmu.pt, f)| + |TablesIn(vm'.dir, f)| + (if held == Some(f) then 1 else 0)
  {
    WriteCount(vm.mmu.pt, v, ZERO_PTE, f);
    SameMapsCount(vm.mmu.pt[v := ZERO_PTE], RemovePte(vm, v).mmu.pt, f);
    hide MappedBy, TablesIn, SameMaps, Invalidate;
  }

  lemma UnmapCoherent(vm: Vm, v: nat)
    requires Coherent(vm.mmu) && Sized(vm) && v < NPAGES && vm.mmu.pt[v].present
    ensures var vm' := RemovePte(vm, v);
      && Coherent(vm'.mmu) && SameMaps(vm.mmu.pt[v := ZERO_PTE], vm'.mmu.pt) && vm'.mmu.pt[v] == ZERO_PTE
  {
    hide Coherent, Invalidate;
    CoherentShape(vm.mmu);
    InvalidateCoherent(vm.mmu, v);
    WriteCoherent(Invalidate(vm.mmu, v), v, ZERO_PTE);
  }

  /** Unmapping a page: coherent and counted as before, and the frame goes back when nothing else names it. */
  lemma RemovePteGood(vm: Vm, v: nat, held: Option<Frame>)
    requires Coherent(vm.mmu) && Accounted(vm, held) && v < NPAGES
    ensures var vm' := RemovePte(vm, v);
      && Coherent(vm'.mmu) && Accounted(vm', held) && vm'.dir == vm.dir && vm'.refs.Keys == vm.refs.Keys
      && SameMaps(vm.mmu.pt[v := ZERO_PTE], vm'.mmu.pt) && vm'.mmu.pt[v] == ZERO_PTE
  {
    hide Coherent, Invalidate, MappedBy, TablesIn;
    var p := vm.mmu.pt[v];
    if p.present {
      UnmapCoherent(vm, v);
      forall f | f in vm.refs
        ensures var vm' := RemovePte(vm, v);
          vm'.refs[f] == |MappedBy(vm'.mmu.pt, f)| + |TablesIn(vm'.dir, f)| + (if held == Some(f) then 1 else 0)
      {
        UnmapCounts(vm, v, held, f);
      }
    } else {
      assert vm.mmu.pt[v := ZERO_PTE] == vm.mmu.pt;
    }
  }

  /** page_remove gives a frame back exactly when the removed page was the last thing that named it. */
  lemma RemoveFreesLast(vm: Vm, v: nat, f: Frame)
    requires Good(vm) && v < NPAGES
    ensures f in Remove(vm, v).idle && f !in vm.idle <==>
            && vm.mmu.pt[v].present && vm.mmu.pt[v].ppn == f
            && MappedBy(vm.mmu.pt, f) == {v} && TablesIn(vm.dir, f) == {}
  {
    hide Coherent, Invalidate;
    var p := vm.mmu.pt[v];
    if p.present && p.ppn == f {
      var mapped, tables := MappedBy(vm.mmu.pt, f), TablesIn(vm.dir, f);
      assert v in mapped && vm.refs[f] == |mapped| + |tables|;
      WithoutOne(mapped, v);
      hide MappedBy, TablesIn;
    }
  }

  // ---------- page_insert ----------

  lemma PlaceCoherent(vm: Vm, v: nat, p: Pte)
    requires Coherent(vm.mmu) && v < NPAGES && !p.tlbp && p.idx == 0
    ensures var m := Invalidate(vm.mmu, v);
      && |m.pt| == NPAGES && Coherent(m.(pt := m.pt[v := p])) && SameMaps(vm.mmu.pt[v := p], m.pt[v := p])
  {
    hide Coherent, Invalidate, Shape;
    CoherentShape(vm.mmu);
    InvalidateCoherent(vm.mmu, v);
    WriteCoherent(Invalidate(vm.mmu, v), v, p);
  }

  /** The reference that a PTE for `p` takes over: the one held for its frame, or that of the PTE it replaces. */
  ghost predicate TakesOver(vm: Vm, v: nat, p: Pte, held: Option<Frame>)
    requires Sized(vm) && v < NPAGES
  {
    && vm.dir[Table(v)].Some? && p.present && !p.tlbp && p.idx == 0 && p.ppn in vm.refs
    && if held.Some? then held.value == p.ppn && !vm.mmu.pt[v].present
       else vm.mmu.pt[v].present && vm.mmu.pt[v].ppn == p.ppn
  }

  lemma PlaceCounts(vm: Vm, v: nat, p: Pte, held: Option<Frame>, pt: seq<Pte>, f: Frame)
    requires Sized(vm) && Counted(vm, held) && v < NPAGES && TakesOver(vm, v, p, held) && f in vm.refs
    requires SameMaps(vm.mmu.pt[v := p], pt)
    ensures vm.refs[f] == |MappedBy(pt, f)| + |TablesIn(vm.dir, f)|
  {
    hide MappedBy, TablesIn, SameMaps, PtesOk;
    WriteCount(vm.mmu.pt, v, p, f);
    SameMapsCount(vm.mmu.pt[v := p], pt, f);
  }

  lemma PlacePtesOk(vm: Vm, v: nat, p: Pte, held: Option<Frame>, m: Mmu)
    requires Accounted(vm, held) && Shape(m) && v < NPAGES && SameMaps(vm.mmu.pt[v := p], m.pt)
    requires TakesOver(vm, v, p, held)
    ensures Sized(vm.(mmu := m)) && PtesOk(vm.(mmu := m))
  {
    hide Counted;
  }

  lemma PlaceAccounted(vm: Vm, v: nat, p: Pte, held: Option<Frame>, m: Mmu)
    requires Accounted(vm, held) && Shape(m) && v < NPAGES && SameMaps(vm.mmu.pt[v := p], m.pt)
    requires TakesOver(vm, v, p, held)
    ensures Accounted(vm.(mmu := m), None)
  {
    hide SameMaps, MappedBy, TablesIn, Sized, Shape, PtesOk, TakesOver;
    PlacePtesOk(vm, v, p, held, m);
    forall f | f in vm.refs
      ensures vm.refs[f] == |MappedBy(m.pt, f)| + |TablesIn(vm.dir, f)|
    {
      PlaceCounts(vm, v, p, held, m.pt, f);
    }
  }

  lemma PlaceGood(vm: Vm, v: nat, p: Pte, held: Option<Frame>)
    requires Coherent(vm.mmu) && Accounted(vm, held) && v < NPAGES && TakesOver(vm, v, p, held)
    ensures var m := Invalidate(vm.mmu, v);
      Good(vm.(mmu := m.(pt := m.pt[v := p]))) && SameMaps(vm.mmu.pt[v := p], m.pt[v := p])
  {
    hide Coherent, Accounted, Invalidate, SameMaps, Shape;
    CoherentShape(vm.mmu);
    var m := Invalidate(vm.mmu, v);
    PlaceCoherent(vm, v, p);
    CoherentShape(m.(pt := m.pt[v := p]));
    PlaceAccounted(vm, v, p, held, m.(pt := m.pt[v := p]));
  }

  lemma CoherentShape(m: Mmu)
    requires Coherent(m)
    ensures Shape(m) && |m.pt| == NPAGES
    ensures forall v | 0 <= v < NPAGES :: m.pt[v].tlbp ==> m.pt[v].present
  {
    forall v | 0 <= v < NPAGES ensures m.pt[v].tlbp ==> m.pt[v].present {
      assert PteOk(m, v);
    }
  }

  lemma HoldOne(vm: Vm, f: Frame)
    requires Accounted(vm, None) && f in vm.refs && f !in vm.idle
    ensures var up := vm.(refs := vm.refs[f := vm.refs[f] + 1]); Accounted(up, Some(f)) && Sized(up)
  {
  }

  /** page_insert maps the frame as asked, keeps the counts and the coherence, and touches no other page. */
  lemma MapGood(vm: Vm, f: Frame, v: nat, writable: bool, user: bool)
    requires Good(vm) && v < NPAGES && f in vm.refs && f !in vm.idle && vm.dir[Table(v)].Some?
    ensures var vm' := Map(vm, f, v, writable, user);
      var p := Pte(true, writable, user, false, 0, f);
      && Good(vm') && vm'.dir == vm.dir && vm'.refs.Keys == vm.refs.Keys
      && vm'.mmu.pt[v] == p && SameMaps(vm.mmu.pt[v := p], vm'.mmu.pt)
  {
    hide Coherent, Invalidate, Counted, PtesOk;
    var new_ := Pte(true, writable, user, false, 0, f);
    var old_ := vm.mmu.pt[v];
    var up := vm.(refs := vm.refs[f := vm.refs[f] + 1]);
    HoldOne(vm, f);
    if !old_.present {
      PlaceGood(up, v, new_, Some(f));
    } else if old_.ppn == f {
      assert up.(refs := up.refs[f := up.refs[f] - 1]) == vm;
      PlaceGood(vm, v, new_, None);
    } else {
      RemovePteGood(up, v, Some(f));
      var vm1 := RemovePte(up, v);
      PlaceGood(vm1, v, new_, Some(f));
      hide RemovePte;
      assert vm1.mmu.pt[v := new_][v] == new_;
    }
  }

  lemma InsertGood(vm: Vm, f: Frame, v: nat, writable: bool, user: bool, alloc: Policy)
    requires Good(vm) && v < NPAGES && f in vm.refs && f !in vm.idle && Sound(alloc)
    ensures var r := Insert(vm, f, v, writable, user, alloc);
      && (r.None? <==> vm.dir[Table(v)].None? && vm.idle == {})
      && (r.Some? ==>
            && Good(r.value) && r.value.mmu.pt[v] == Pte(true, writable, user, false, 0, f)
            && r.value.dir[Table(v)].Some?
            && SameMaps(vm.mmu.pt[v := Pte(true, writable, user, false, 0, f)], r.value.mmu.pt))
  {
    assert Sized(vm);
    hide Good;
    GetPteGood(vm, v, alloc);
    var r := GetPte(vm, v, alloc);
    if r.Some? {
      MapGood(r.value, f, v, writable, user);
    }
  }

  // ---------- page faults and misses ----------

  predicate Permits(area: Option<Vma>, write: bool) {
    area.Some? && (if write then area.value.write else area.value.read || area.value.exec)
  }

  /** The frames that serving a fault on page `v` takes: one for the page and one for a missing page table. */
  function FramesNeeded(vm: Vm, v: nat): nat
    requires Sized(vm) && v < NPAGES
  {
    if vm.mmu.pt[v].present then 0 else if vm.dir[Table(v)].Some? then 1 else 2
  }

  /** pgdir_alloc_page stops only when the one frame left is the page's and its page table finds none; with
    * no frame at all it changes nothing, and otherwise it maps the frame it was given.
    */
  lemma AllocAndMapGood(vm: Vm, v: nat, writable: bool, user: bool, alloc: Policy)
    requires Good(vm) && v < NPAGES && Sound(alloc)
    ensures var r := AllocAndMap(vm, v, writable, user, alloc);
      && (r.None? <==> vm.dir[Table(v)].None? && |vm.idle| == 1)
      && (r.Some? ==> Good(r.value)) && (vm.idle == {} ==> r == Some(vm))
      && (r.Some? && vm.idle != {} ==>
            var p := Pte(true, writable, user, false, 0, alloc(vm.idle).value);
            r.value.dir[Table(v)].Some? && r.value.mmu.pt[v] == p && SameMaps(vm.mmu.pt[v := p], r.value.mmu.pt))
  {
    if vm.idle != {} {
      var f := alloc(vm.idle).value;
      var taken := vm.(idle := vm.idle - {f});
      TakeGood(vm, alloc);
      hide Good;
      WithoutOne(vm.idle, f);
      InsertGood(taken, f, v, writable, user, alloc);
      assert |vm.idle| == 1 <==> taken.idle == {};
    }
  }

  /** What serving a fault on page `v` leaves: the page mapped to a frame that was free, with the rights of its area
    * and no other page changed; or, for want of a frame, no page changed.
    */
  ghost predicate Served(vm: Vm, v: nat, area: Vma, vm': Vm)
    requires Sized(vm) && Sized(vm') && v < NPAGES
  {
    var p := vm'.mmu.pt[v];
    if p.present then
      && p == Pte(true, area.write, true, false, 0, p.ppn) && p.ppn in vm.idle
      && SameMaps(vm.mmu.pt[v := p], vm'.mmu.pt)
    else vm'.mmu == vm.mmu
  }

  lemma AllocServes(vm: Vm, v: nat, area: Vma, alloc: Policy)
    requires Good(vm) && v < NPAGES && Sound(alloc) && vm.dir[Table(v)].Some? && !vm.mmu.pt[v].present
    ensures var r := AllocAndMap(vm, v, area.write, true, alloc);
      && r.Some? && Good(r.value) && !r.value.mmu.pt[v].tlbp && r.value.dir[Table(v)].Some?
      && (r.value.mmu.pt[v].present <==> vm.idle != {}) && Served(vm, v, area, r.value)
  {
    hide Coherent, Accounted, SameMaps;
    GoodFacts(vm);
    AbsentIsZero(vm, v);
    AllocAndMapGood(vm, v, area.write, true, alloc);
    hide AllocAndMap;
  }

  lemma ServedEarlier(vm: Vm, vm1: Vm, v: nat, area: Vma, vm2: Vm)
    requires Sized(vm) && Sized(vm1) && Sized(vm2) && v < NPAGES && vm1.mmu == vm.mmu && vm1.idle <= vm.idle
    requires Served(vm1, v, area, vm2)
    ensures Served(vm, v, area, vm2)
  {
  }

  lemma FaultWithTable(vm: Vm, v: nat, area: Option<Vma>, write: bool, alloc: Policy)
    requires Good(vm) && v < NPAGES && Sound(alloc) && !vm.mmu.pt[v].present && vm.dir[Table(v)].Some?
    requires Permits(area, write)
    ensures var r := Fault(vm, v, area, write, alloc);
      && r.Some? && Good(r.value) && !r.value.mmu.pt[v].tlbp && r.value.dir[Table(v)].Some?
      && (r.value.mmu.pt[v].present <==> vm.idle != {}) && Served(vm, v, area.value, r.value)
  {
    hide Good, AllocAndMap, Sound, Sized, Served;
    GoodFacts(vm);
    AbsentIsZero(vm, v);
    AllocServes(vm, v, area.value, alloc);
  }

  lemma FaultWithoutTable(vm: Vm, v: nat, area: Option<Vma>, write: bool, alloc: Policy)
    requires Good(vm) && v < NPAGES && Sound(alloc) && vm.dir[Table(v)].None? && vm.idle != {}
    requires Permits(area, write)
    ensures var r := Fault(vm, v, area, write, alloc);
      && r.Some? && Good(r.value) && !r.value.mmu.pt[v].tlbp && r.value.dir[Table(v)].Some?
      && (r.value.mmu.pt[v].present <==> |vm.idle| >= 2) && Served(vm, v, area.value, r.value)
  {
    hide Good, AllocAndMap, Sound, Sized, GetPte, Served;
    GoodFacts(vm);
    AbsentIsZero(vm, v);
    GetPteGood(vm, v, alloc);
    GetPteTakesOne(vm, v, alloc);
    var vm' := GetPte(vm, v, alloc).value;
    AllocServes(vm', v, area.value, alloc);
    GoodFacts(vm');
    GoodFacts(Fault(vm, v, area, write, alloc).value);
    ServedEarlier(vm, vm', v, area.value, Fault(vm, v, area, write, alloc).value);
  }

  lemma AbsentIsZero(vm: Vm, v: nat)
    requires Good(vm) && v < NPAGES
    ensures vm.mmu.pt[v].present || vm.mmu.pt[v] == ZERO_PTE
    ensures vm.mmu.pt[v].present ==> vm.dir[Table(v)].Some?
  {
  }

  lemma GetPteTakesOne(vm: Vm, v: nat, alloc: Policy)
    requires Sized(vm) && v < NPAGES && Sound(alloc) && vm.dir[Table(v)].None? && vm.idle != {}
    ensures |GetPte(vm, v, alloc).value.idle| == |vm.idle| - 1
  {
    var f := alloc(vm.idle).value;
    assert f in vm.idle;
    assert vm.idle == (vm.idle - {f}) + {f};
  }

  /** A fault is served exactly on a page that is not there, in an area that permits the access, and with a
    * frame for a missing page table.
    */
  lemma FaultGood(vm: Vm, v: nat, area: Option<Vma>, write: bool, alloc: Policy)
    requires Good(vm) && v < NPAGES && Sound(alloc)
    ensures var r := Fault(vm, v, area, write, alloc);
      && (r.Some? <==>
            !vm.mmu.pt[v].present && Permits(area, write) && (vm.dir[Table(v)].Some? || vm.idle != {}))
      && (r.Some? ==>
            && Good(r.value) && !r.value.mmu.pt[v].tlbp && r.value.dir[Table(v)].Some?
            && (r.value.mmu.pt[v].present <==> |vm.idle| >= FramesNeeded(vm, v))
            && Served(vm, v, area.value, r.value))
  {
    hide Good, Accounted, Coherent, GetPte, AllocAndMap, Sound, Sized;
    GoodFacts(vm);
    if !Permits(area, write) {
    } else if vm.mmu.pt[v].present {
      AbsentIsZero(vm, v);
      GetPteGood(vm, v, alloc);
    } else if vm.dir[Table(v)].Some? {
      FaultWithTable(vm, v, area, write, alloc);
    } else if vm.idle != {} {
      FaultWithoutTable(vm, v, area, write, alloc);
    } else {
      GetPteGood(vm, v, alloc);
    }
  }

  lemma SameMapsAccounted(vm: Vm, m: Mmu)
    requires Accounted(vm, None) && Shape(m) && SameMaps(vm.mmu.pt, m.pt)
    ensures Accounted(vm.(mmu := m), None)
  {
    hide MappedBy, TablesIn;
    forall f | f in vm.refs {
      SameMapsCount(vm.mmu.pt, m.pt, f);
    }
  }

  lemma FillGood(vm: Vm, v: nat)
    requires Good(vm) && v < NPAGES && vm.mmu.pt[v].present && !vm.mmu.pt[v].tlbp
    ensures Good(vm.(mmu := Fill(vm.mmu, v))) && SameMaps(vm.mmu.pt, Fill(vm.mmu, v).pt)
  {
    hide Coherent, Accounted, Fill, Shape;
    CoherentShape(vm.mmu);
    FillCoherent(vm.mmu, v);
    CoherentShape(Fill(vm.mmu, v));
    SameMapsAccounted(vm, Fill(vm.mmu, v));
  }

  /** What a miss on page `v` leaves: the page as it was mapped before or with the rights of its area, and all else as
    * it was mapped.
    */
  ghost predicate MissServed(vm: Vm, v: nat, area: Option<Vma>, vm': Vm)
    requires Sized(vm) && Sized(vm') && v < NPAGES
  {
    if vm.mmu.pt[v].present then SameMaps(vm.mmu.pt, vm'.mmu.pt)
    else
      && area.Some? && vm'.mmu.pt[v].ppn in vm.idle
      && SameMaps(vm.mmu.pt[v := Pte(true, area.value.write, true, false, 0, vm'.mmu.pt[v].ppn)], vm'.mmu.pt)
  }

  lemma SameMapsJoin(a: seq<Pte>, b: seq<Pte>, c: seq<Pte>)
    requires SameMaps(a, b) && SameMaps(b, c)
    ensures SameMaps(a, c)
  {
  }

  lemma PresentFilled(vm: Vm, v: nat, area: Option<Vma>)
    requires Good(vm) && v < NPAGES && vm.mmu.pt[v].present && !vm.mmu.pt[v].tlbp
    ensures var end := vm.(mmu := Fill(vm.mmu, v)); Good(end) && MissServed(vm, v, area, end)
  {
    hide Coherent, Accounted, Fill, SameMaps;
    GoodFacts(vm);
    FillGood(vm, v);
    GoodFacts(vm.(mmu := Fill(vm.mmu, v)));
  }

  lemma ServedThenFilled(vm: Vm, v: nat, area: Vma, vm': Vm)
    requires Sized(vm) && v < NPAGES && !vm.mmu.pt[v].present && Good(vm') && Served(vm, v, area, vm')
    requires vm'.mmu.pt[v].present && !vm'.mmu.pt[v].tlbp
    ensures var end := vm'.(mmu := Fill(vm'.mmu, v)); Good(end) && MissServed(vm, v, Some(area), end)
  {
    hide Coherent, Accounted, Fill;
    GoodFacts(vm');
    FillGood(vm', v);
    SameMapsJoin(vm.mmu.pt[v := vm'.mmu.pt[v]], vm'.mmu.pt, Fill(vm'.mmu, v).pt);
    GoodFacts(vm'.(mmu := Fill(vm'.mmu, v)));
  }

  /**
    The miss handler keeps the TLB and the page table in agreement exactly when there were
    frames enough to serve the fault: pgdir_alloc_page reports a missing frame to nobody.
   */
  lemma MissGood(vm: Vm, v: nat, area: Option<Vma>, write: bool, alloc: Policy)
    requires Good(vm) && v < NPAGES && Sound(alloc) && !vm.mmu.pt[v].tlbp
    ensures var r := MissHandler(vm, v, area, write, alloc);
      && (r.None? <==>
            && !vm.mmu.pt[v].present
            && (!Permits(area, write) || (vm.dir[Table(v)].None? && vm.idle == {})))
      && (r.Some? ==> (Good(r.value) <==> |vm.idle| >= FramesNeeded(vm, v)))
      && (r.Some? && Good(r.value) ==> r.value.mmu.pt[v].tlbp && MissServed(vm, v, area, r.value))
  {
    hide Coherent, Accounted, Fault, Fill, Served, MissServed, SameMaps;
    GoodFacts(vm);
    if vm.mmu.pt[v].present {
      PresentFilled(vm, v, area);
      FillCoherent(vm.mmu, v);
    } else {
      FaultGood(vm, v, area, write, alloc);
      AbsentIsZero(vm, v);
      var r := Fault(vm, v, area, write, alloc);
      if r.Some? {
        GoodFacts(r.value);
        FillNeedsPresent(r.value.mmu, v);
        if r.value.mmu.pt[v].present {
          ServedThenFilled(vm, v, area.value, r.value);
          FillCoherent(r.value.mmu, v);
        }
      }
    }
  }

  // ---------- whole runs ----------

  datatype Op =
    | Access(la: Addr, area: Option<Vma>, write: bool)
    | MapPage(f: Frame, v: nat, writable: bool, user: bool)
    | Unmap(v: nat)
    | Flush(v: nat)
    | Take
    | Give(f: Frame)

  /** An access goes through the hardware and traps only when that misses; Take and Give are alloc_page and
    * free_page.
    */
  ghost function Step(vm: Vm, op: Op, alloc: Policy): Option<Vm>
    requires Sized(vm) && Permitted(vm, op) && Sound(alloc)
  {
    match op
    case Access(la, area, write) =>
      if Lookup(vm.mmu.hw, la).Hit? then Some(vm) else MissHandler(vm, Vpn(la), area, write, alloc)
    case MapPage(f, v, w, u) => Insert(vm, f, v, w, u, alloc)
    case Unmap(v) => Some(Remove(vm, v))
    case Flush(v) => Some(vm.(mmu := Invalidate(vm.mmu, v)))
    case Take => Some(match alloc(vm.idle) case None => vm case Some(f) => vm.(idle := vm.idle - {f}))
    case Give(f) => Some(vm.(idle := vm.idle + {f}))
  }

  /** Callers map frames they own and give back frames nobody uses; faults find frames enough. */
  ghost predicate Permitted(vm: Vm, op: Op)
    requires Sized(vm)
  {
    match op
    case Access(la, _, _) => Lookup(vm.mmu.hw, la).Hit? || |vm.idle| >= FramesNeeded(vm, Vpn(la))
    case MapPage(f, v, _, _) => v < NPAGES && f in vm.refs && f !in vm.idle
    case Unmap(v) => v < NPAGES
    case Flush(v) => v < NPAGES
    case Take => true
    case Give(f) => f in vm.refs && vm.refs[f] == 0
  }

  lemma FlushGood(vm: Vm, v: nat)
    requires Good(vm) && v < NPAGES
    ensures Good(vm.(mmu := Invalidate(vm.mmu, v)))
  {
    hide Coherent, Accounted, Invalidate, Shape;
    CoherentShape(vm.mmu);
    InvalidateCoherent(vm.mmu, v);
    CoherentShape(Invalidate(vm.mmu, v));
    SameMapsAccounted(vm, Invalidate(vm.mmu, v));
  }

  lemma RemoveGood(vm: Vm, v: nat)
    requires Good(vm) && v < NPAGES
    ensures Good(Remove(vm, v))
  {
    hide Coherent, Accounted, RemovePte;
    GoodFacts(vm);
    AbsentIsZero(vm, v);
    RemovePteGood(vm, v, None);
  }

  lemma TakeGood(vm: Vm, alloc: Policy)
    requires Good(vm) && Sound(alloc)
    ensures alloc(vm.idle).Some? ==> Good(vm.(idle := vm.idle - {alloc(vm.idle).value}))
  {
  }

  lemma GiveGood(vm: Vm, f: Frame)
    requires Good(vm) && f in vm.refs && vm.refs[f] == 0
    ensures Good(vm.(idle := vm.idle + {f}))
  {
  }

  lemma StepGood(vm: Vm, op: Op, alloc: Policy)
    requires Good(vm) && Permitted(vm, op) && Sound(alloc)
    ensures Step(vm, op, alloc).Some? ==> Good(Step(vm, op, alloc).value)
  {
    hide Good, Coherent, Accounted, MissHandler, Lookup, Insert, RemovePte, Invalidate, Sized, Shape;
    GoodFacts(vm);
    match op
    case Access(la, area, write) =>
      LookupAgrees(vm.mmu, la);
      if !Lookup(vm.mmu.hw, la).Hit? { MissGood(vm, Vpn(la), area, write, alloc); }
    case MapPage(f, v, w, u) =>
      InsertGood(vm, f, v, w, u, alloc);
    case Unmap(v) =>
      RemoveGood(vm, v);
    case Flush(v) =>
      FlushGood(vm, v);
    case Take =>
      TakeGood(vm, alloc);
    case Give(f) =>
      GiveGood(vm, f);
  }

  ghost predicate Legal(vm: Vm, ops: seq<Op>, alloc: Policy)
    requires Sound(alloc)
    decreases |ops|
  {
    ops == [] ||
    (&& Sized(vm) && Permitted(vm, ops[0])
     && (Step(vm, ops[0], alloc).Some? ==> Legal(Step(vm, ops[0], alloc).value, ops[1..], alloc)))
  }

  ghost function Run(vm: Vm, ops: seq<Op>, alloc: Policy): Option<Vm>
    requires Sound(alloc) && Legal(vm, ops, alloc)
    decreases |ops|
  {
    if ops == [] then Some(vm)
    else
      match Step(vm, ops[0], alloc)
      case None => None
      case Some(vm') => Run(vm', ops[1..], alloc)
  }

  lemma {:induction false} RunGood(vm: Vm, ops: seq<Op>, alloc: Policy)
    requires Good(vm) && Sound(alloc) && Legal(vm, ops, alloc)
    ensures Run(vm, ops, alloc).Some? ==> Good(Run(vm, ops, alloc).value)
    decreases |ops|
  {
    if ops != [] {
      StepGood(vm, ops[0], alloc);
      if Step(vm, ops[0], alloc).Some? {
        hide Good, Step;
        RunGood(Step(vm, ops[0], alloc).value, ops[1..], alloc);
      }
    }
  }

  /** Any page tables with right counts and no TLB_P bits will do to start from; tlb_init makes the TLB agree with
    * them.
    */
  ghost predicate Bootable(vm: Vm) {
    && Accounted(vm, None)
    && forall v | 0 <= v < NPAGES :: !vm.mmu.pt[v].tlbp
  }

  function Boot(vm: Vm): Vm {
    vm.(mmu := TlbInit(vm.mmu))
  }

  /**
    After any run from tlb_init, the hardware translates an address exactly when its PTE has
    TLB_P, and then as the page table does; every ref counter is the number of entries that
    name its frame, and no free frame is mapped.
   */
  lemma RunsAreSafe(vm: Vm, ops: seq<Op>, alloc: Policy, la: Addr, f: Frame)
    requires Bootable(vm) && Sound(alloc) && Legal(Boot(vm), ops, alloc) && f in vm.refs
    requires Run(Boot(vm), ops, alloc).Some?
    ensures var end := Run(Boot(vm), ops, alloc).value;
      && Sized(end)
      && Lookup(end.mmu.hw, la) == (var p := end.mmu.pt[Vpn(la)]; if p.tlbp then Hit(p.ppn, p.writable) else Miss)
      && (Lookup(end.mmu.hw, la).Hit? ==> end.mmu.pt[Vpn(la)].present)
      && (f in end.refs ==> end.refs[f] == |MappedBy(end.mmu.pt, f)| + |TablesIn(end.dir, f)|)
      && (f in end.idle ==> MappedBy(end.mmu.pt, f) == {} && TablesIn(end.dir, f) == {})
  {
    InitCoherent(vm.mmu);
    assert Good(Boot(vm));
    RunGood(Boot(vm), ops, alloc);
    var end := Run(Boot(vm), ops, alloc).value;
    LookupAgrees(end.mmu, la);
    if f in end.idle {
      IdleUnmapped(end, f);
    }
  }

  // ---------- out of frames ----------

  /** A booted machine with one page table, in frame 1, and no free frame. */
  function FullMachine(): Vm {
    Boot(Vm(Mmu(seq(NPAGES, _ => ZERO_PTE), [], [], seq(TLBN, _ => 0), 0),
            seq(NTABLES, d => if d == 0 then Some(1) else None), map[1 := 1], {}))
  }

  /** There a permitted read of address 0 is answered with frame 0, though page 0 is not mapped. */
  lemma MissWithoutFrames(alloc: Policy)
    requires Sound(alloc)
    ensures var vm := FullMachine();
      && Good(vm)
      && var r := MissHandler(vm, 0, Some(Vma(true, false, false)), false, alloc);
      && r.Some? && !Good(r.value)
      && !r.value.mmu.pt[0].present && Lookup(r.value.mmu.hw, 0) == Hit(0, false)
  {
    var vm := FullMachine();
    InitCoherent(vm.mmu);
    assert TablesIn(vm.dir, 1) == {0} && MappedBy(vm.mmu.pt, 1) == {};
    assert Good(vm);
    MissGood(vm, 0, Some(Vma(true, false, false)), false, alloc);
    var m := Fill(vm.mmu, 0);
    LookupOnly(m.hw, 0, 15);
  }
}
