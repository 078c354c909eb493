/**
  The kernel's own state: a page directory, page tables held in frames, the arrays of
  tlb.c and the hardware's slots, updated in place as tlb.c, pmm.c and vmm.c do.  Every
  method is proved to do to the flat view what the function of the same name in Tlb or
  Paging does.
 */
module MmuKernel {
  import opened Options
  import opened Tlb
  import opened Paging

  /** Every page directory entry names a frame with a page table, each a different one. */
  ghost predicate TablesOk(dir: seq<Option<Frame>>, tables: map<Frame, seq<Pte>>) {
    && |dir| == NTABLES
    && (forall d | 0 <= d < NTABLES && dir[d].Some? :: dir[d].value in tables && |tables[dir[d].value]| == 0x400)
    && (forall d, e | 0 <= d < e < NTABLES && dir[d].Some? :: dir[d] != dir[e])
  }

  ghost function PteIn(dir: seq<Option<Frame>>, tables: map<Frame, seq<Pte>>, v: nat): Pte
    requires TablesOk(dir, tables) && v < NPAGES
  {
    match dir[Table(v)]
    case None => ZERO_PTE
    case Some(f) => tables[f][v % 0x400]
  }

  /** The two levels seen as one table. */
  ghost function Flat(dir: seq<Option<Frame>>, tables: map<Frame, seq<Pte>>): (pt: seq<Pte>)
    requires TablesOk(dir, tables)
    ensures |pt| == NPAGES && forall v | 0 <= v < NPAGES :: pt[v] == PteIn(dir, tables, v)
  {
    seq(NPAGES, v requires 0 <= v < NPAGES && TablesOk(dir, tables) => PteIn(dir, tables, v))
  }

  lemma FlatWrite(dir: seq<Option<Frame>>, tables: map<Frame, seq<Pte>>, v: nat, p: Pte)
    requires TablesOk(dir, tables) && v < NPAGES && dir[Table(v)].Some?
    ensures var f := dir[Table(v)].value;
      var tables' := tables[f := tables[f][v % 0x400 := p]];
      TablesOk(dir, tables') && Flat(dir, tables') == Flat(dir, tables)[v := p]
  {
    var f := dir[Table(v)].value;
    var tables' := tables[f := tables[f][v % 0x400 := p]];
    forall w | 0 <= w < NPAGES
      ensures PteIn(dir, tables', w) == if w == v then p else PteIn(dir, tables, w)
    {
      if Table(w) != Table(v) && dir[Table(w)].Some? {
        var d, e := if Table(w) < Table(v) then Table(w) else Table(v),
          if Table(w) < Table(v) then Table(v) else Table(w);
        assert dir[d] != dir[e];
      }
    }
  }

  lemma FlatNewTable(dir: seq<Option<Frame>>, tables: map<Frame, seq<Pte>>, d: nat, f: Frame)
    requires TablesOk(dir, tables) && d < NTABLES && dir[d].None? && Some(f) !in dir
    ensures var tables' := tables[f := seq(0x400, _ => ZERO_PTE)];
      && TablesOk(dir[d := Some(f)], tables')
      && Flat(dir[d := Some(f)], tables') == Flat(dir, tables)
  {
    var dir' := dir[d := Some(f)];
    var tables' := tables[f := seq(0x400, _ => ZERO_PTE)];
    assert TablesOk(dir', tables');
    forall w | 0 <= w < NPAGES
      ensures PteIn(dir', tables', w) == PteIn(dir, tables, w)
    {
    }
  }

  lemma IdleHoldsNoTable(vm: Vm, f: Frame)
    requires Good(vm) && f in vm.idle
    ensures Some(f) !in vm.dir
  {
    IdleUnmapped(vm, f);
    assert forall d | 0 <= d < |vm.dir| && vm.dir[d] == Some(f) :: d in TablesIn(vm.dir, f);
  }

  class Kernel {
    const alloc: Policy
    const pgdir: array<Option<Frame>>
    const hw: array<Slot>
    const tlbAlgoEmpty: array<nat>
    const tlbAlgoHi: array<nat>
    var tlbAlgoN: nat
    var tlbAlgoPtr: nat
    var tables: map<Frame, seq<Pte>>  // the contents of the frames that hold page tables
    var refs: map<Frame, int>
    var idle: set<Frame>

    ghost predicate Valid()
      reads this`tables, this`tlbAlgoN, pgdir
    {
      && Sound(alloc) && TablesOk(pgdir[..], tables)
      && hw.Length == tlbAlgoEmpty.Length == tlbAlgoHi.Length == TLBN
      && tlbAlgoEmpty != tlbAlgoHi && tlbAlgoN <= TLBN
    }

    ghost function Pt(): (pt: seq<Pte>)
      reads this`tables, pgdir
      requires TablesOk(pgdir[..], tables)
    {
      Flat(pgdir[..], tables)
    }

    ghost function MmuView(): Mmu
      reads this`tables, this`tlbAlgoN, this`tlbAlgoPtr, pgdir, hw, tlbAlgoEmpty, tlbAlgoHi
      requires Valid()
    {
      Mmu(Pt(), hw[..], tlbAlgoEmpty[..tlbAlgoN], tlbAlgoHi[..], tlbAlgoPtr)
    }

    ghost function View(): Vm
      reads this, pgdir, hw, tlbAlgoEmpty, tlbAlgoHi
      requires Valid()
    {
      Vm(MmuView(), pgdir[..], refs, idle)
    }

    /** The state before tlb_init: page tables and frames as they were set up, and whatever the hardware's
      * slots held at power-on.
      */
    constructor (alloc: Policy, dir: seq<Option<Frame>>, tables: map<Frame, seq<Pte>>, refs: map<Frame, int>,
                 idle: set<Frame>, slots: seq<Slot>)
      requires Sound(alloc) && TablesOk(dir, tables) && |slots| == TLBN
      ensures Valid() && this.alloc == alloc && fresh(pgdir) && fresh(hw) && fresh(tlbAlgoEmpty) && fresh(tlbAlgoHi)
      ensures View() == Vm(Mmu(Flat(dir, tables), slots, [], seq(TLBN, _ => 0), 0), dir, refs, idle)
    {
      this.alloc := alloc;
      pgdir := new Option<Frame>[|dir|](i requires 0 <= i < |dir| => dir[i]);
      hw := new Slot[TLBN](i requires 0 <= i < |slots| => slots[i]);
      tlbAlgoEmpty := new nat[TLBN](_ => 0);
      tlbAlgoHi := new nat[TLBN](_ => 0);
      tlbAlgoN, tlbAlgoPtr := 0, 0;
      this.tables, this.refs, this.idle := tables, refs, idle;
      new;
      assert pgdir[..] == dir && hw[..] == slots;
      assert tlbAlgoHi[..] == seq(TLBN, _ => 0);
    }

    /** A write through the pointer that get_pte returned. */
    method WritePte(v: nat, p: Pte)
      requires Valid() && v < NPAGES && pgdir[Table(v)].Some?
      modifies this`tables
      ensures Valid() && Pt() == old(Pt())[v := p]
    {
      FlatWrite(pgdir[..], tables, v, p);
      var f := pgdir[Table(v)].value;
      tables := tables[f := tables[f][v % 0x400 := p]];
    }

    method ReadPte(v: nat) returns (p: Option<Pte>)
      requires Valid() && v < NPAGES
      ensures if pgdir[Table(v)].None? then p == None && Pt()[v] == ZERO_PTE else p == Some(Pt()[v])
    {
      match pgdir[Table(v)]
      case None => p := None;
      case Some(f) => p := Some(tables[f][v % 0x400]);
    }

    /** get_page: the frame that is mapped at the page, if one is, and the entry where there is a page table. */
    method GetPage(v: nat) returns (page: Option<Frame>, p: Option<Pte>)
      requires Valid() && v < NPAGES
      ensures page == if Pt()[v].present then Some(Pt()[v].ppn) else None
      ensures p == if pgdir[Table(v)].None? then None else Some(Pt()[v])
    {
      p := ReadPte(v);
      page := if p.Some? && p.value.present then Some(p.value.ppn) else None;
    }

    /** `*ptep &= ~TLB_P`, where there is a PTE. */
    method ClearTlbpAt(v: nat)
      requires Valid() && v < NPAGES
      modifies this`tables
      ensures Valid() && Pt() == ClearTlbp(old(Pt()), v)
    {
      var p := ReadPte(v);
      if p.Some? {
        WritePte(v, p.value.(tlbp := false));
      }
    }

    method TlbGetEmpty(base: Addr) returns (idx: nat)
      requires Valid() && Shape(MmuView())
      modifies this`tables, this`tlbAlgoN, this`tlbAlgoPtr, tlbAlgoHi
      ensures Valid() && idx < TLBN
      ensures (MmuView(), idx) == GetEmpty(old(MmuView()), base)
    {
      if tlbAlgoN > 0 {
        tlbAlgoN := tlbAlgoN - 1;
        idx := tlbAlgoEmpty[tlbAlgoN];
        assert tlbAlgoEmpty[..tlbAlgoN] == old(tlbAlgoEmpty[..tlbAlgoN])[..tlbAlgoN];
        assert MmuView() == old(MmuView()).(free := old(MmuView()).free[..tlbAlgoN]);
      } else {
        idx := tlbAlgoPtr;
        tlbAlgoPtr := (tlbAlgoPtr + 1) % TLBN;
        var v := Vpn(tlbAlgoHi[idx]);
        ClearTlbpAt(v);
        ClearTlbpAt(Pair(v));
        assert MmuView() == old(MmuView()).(pt := ClearTlbp(ClearTlbp(old(Pt()), v), Pair(v)), next := tlbAlgoPtr);
      }
      tlbAlgoHi[idx] := base;
      assert tlbAlgoHi[..] == old(tlbAlgoHi[..])[idx := base];
    }
  
    /** The mtc0s and tlbwi of tlb_write. */
    method TlbWrite(idx: nat, s: Slot)
      requires Valid() && idx < TLBN
      modifies hw
      ensures hw[..] == old(hw[..])[idx := s]
    {
      hw[idx] := s;
    }

    method TlbInvalidate(v: nat)
      requires Valid() && Coherent(MmuView()) && v < NPAGES
      modifies this`tables, this`tlbAlgoN, hw, tlbAlgoEmpty
      ensures Valid() && MmuView() == Invalidate(old(MmuView()), v)
    {
      var p := ReadPte(v);
      if p.None? || !p.value.tlbp {
        return;
      }
      var idx := p.value.idx;
      var other := ReadPte(Pair(v));
      ghost var before := MmuView();
      FreeStackHasRoom(before, v);
      assert idx == before.pt[v].idx < TLBN;
      if other.Some? && other.value.tlbp {
        TlbWrite(idx, PairSlot(v, ENTRYLO_INVALID, Lo(other.value)));
      } else {
        tlbAlgoEmpty[tlbAlgoN] := idx;
        tlbAlgoN := tlbAlgoN + 1;
        TlbWrite(idx, Slot(ENTRYHI_INVALID, ENTRYLO_INVALID, ENTRYLO_INVALID));
      }
      WritePte(v, p.value.(tlbp := false));
    }
  
    /** The end of tlb_miss_handler: `v` goes into the slot of its pair, or into an empty one. */
    method TlbFill(v: nat)
      requires Valid() && Shape(MmuView()) && v < NPAGES && pgdir[Table(v)].Some?
      modifies this`tables, this`tlbAlgoN, this`tlbAlgoPtr, hw, tlbAlgoHi
      ensures Valid() && MmuView() == Fill(old(MmuView()), v)
    {
      var p := ReadPte(v);
      var other := ReadPte(Pair(v));
      var own := Lo(p.value);
      var idx;
      if other.Some? && other.value.tlbp {
        idx := other.value.idx;
        assert idx == MmuView().pt[Pair(v)].idx;
        TlbWrite(idx, PairSlot(v, own, Lo(other.value)));
      } else {
        idx := TlbGetEmpty(PairBase(v));
        TlbWrite(idx, PairSlot(v, own, ENTRYLO_INVALID));
      }
      p := ReadPte(v);
      WritePte(v, p.value.(idx := idx, tlbp := true));
    }

    method PageRemovePte(v: nat)
      requires Valid() && Sized(View()) && Coherent(MmuView()) && v < NPAGES
      modifies this`tables, this`tlbAlgoN, this`refs, this`idle, hw, tlbAlgoEmpty
      ensures Valid() && View() == RemovePte(old(View()), v)
    {
      var p := ReadPte(v);
      if p.Some? && p.value.present {
        var f := p.value.ppn;
        assert f == View().mmu.pt[v].ppn;
        refs := refs[f := refs[f] - 1];
        if refs[f] == 0 {
          idle := idle + {f};
        }
        TlbInvalidate(v);
        WritePte(v, ZERO_PTE);
      }
    }

    method PageRemove(v: nat)
      requires Valid() && Sized(View()) && Coherent(MmuView()) && v < NPAGES
      modifies this`tables, this`tlbAlgoN, this`refs, this`idle, hw, tlbAlgoEmpty
      ensures Valid() && View() == Remove(old(View()), v)
    {
      var p := ReadPte(v);
      if p.Some? {
        PageRemovePte(v);
      }
    }

    /** get_pte with create set; `ok` is false when the kernel stops for want of a frame. */
    method GetPteCreate(v: nat) returns (ok: bool)
      requires Valid() && Good(View()) && v < NPAGES
      modifies this`tables, this`refs, this`idle, pgdir
      ensures Valid()
      ensures GetPte(old(View()), v, alloc) == if ok then Some(View()) else None
    {
      assert Sized(View());
      hide Good;
      if pgdir[Table(v)].None? {
        var f := alloc(idle);
        if f.None? {
          return false;
        }
        IdleHoldsNoTable(View(), f.value);
        FlatNewTable(pgdir[..], tables, Table(v), f.value);
        idle := idle - {f.value};
        refs := refs[f.value := 1];
        pgdir[Table(v)] := f;
        tables := tables[f.value := seq(0x400, _ => ZERO_PTE)];
        assert pgdir[..] == old(pgdir[..])[Table(v) := f];
      }
      ok := true;
    }

    /** The last two lines of page_insert. */
    method PagePlace(v: nat, p: Pte)
      requires Valid() && Coherent(MmuView()) && v < NPAGES && pgdir[Table(v)].Some?
      modifies this`tables, this`tlbAlgoN, hw, tlbAlgoEmpty
      ensures Valid()
      ensures MmuView() == (var m := Invalidate(old(MmuView()), v); m.(pt := m.pt[v := p]))
    {
      hide Coherent, Invalidate, Flat, TablesOk;
      TlbInvalidate(v);
      WritePte(v, p);
    }

    /** The middle of page_insert. */
    method PageDisplace(f: Frame, v: nat)
      requires Valid() && Good(View()) && v < NPAGES && f in refs && f !in idle && pgdir[Table(v)].Some?
      modifies this`tables, this`tlbAlgoN, this`refs, this`idle, hw, tlbAlgoEmpty
      ensures Valid() && View() == Displace(old(View()), f, v) && Coherent(MmuView())
    {
      hide Good, Accounted, Coherent, Sized, Shape, RemovePte, Flat, TablesOk, Sound;
      ghost var vm := View();
      GoodFacts(vm);
      HoldOne(vm, f);
      var p := ReadPte(v);
      refs := refs[f := refs[f] + 1];
      if p.value.present {
        if p.value.ppn == f {
          refs := refs[f := refs[f] - 1];
        } else {
          RemovePteGood(View(), v, Some(f));
          PageRemovePte(v);
        }
      }
    }

    /** page_insert from the point where the page table is there. */
    method PageMap(f: Frame, v: nat, writable: bool, user: bool)
      requires Valid() && Good(View()) && v < NPAGES && f in refs && f !in idle && pgdir[Table(v)].Some?
      modifies this`tables, this`tlbAlgoN, this`refs, this`idle, hw, tlbAlgoEmpty
      ensures Valid() && View() == Map(old(View()), f, v, writable, user)
    {
      assert Sized(View());
      hide Good, Coherent, Invalidate, Flat, TablesOk, Displace, Sized;
      PageDisplace(f, v);
      PagePlace(v, Pte(true, writable, user, false, 0, f));
    }

    method PageInsert(f: Frame, v: nat, writable: bool, user: bool) returns (ok: bool)
      requires Valid() && Good(View()) && v < NPAGES && f in refs && f !in idle
      modifies this`tables, this`tlbAlgoN, this`refs, this`idle, pgdir, hw, tlbAlgoEmpty
      ensures Valid()
      ensures Insert(old(View()), f, v, writable, user, alloc) == if ok then Some(View()) else None
    {
      assert Sized(View());
      GetPteGood(View(), v, alloc);
      hide GetPte, Good, Map;
      ok := GetPteCreate(v);
      if ok {
        PageMap(f, v, writable, user);
      }
    }
  
    /** pgdir_alloc_page: a missing frame is not reported. */
    method PgdirAllocPage(v: nat, writable: bool, user: bool) returns (ok: bool)
      requires Valid() && Good(View()) && v < NPAGES
      modifies this`tables, this`tlbAlgoN, this`refs, this`idle, pgdir, hw, tlbAlgoEmpty
      ensures Valid()
      ensures AllocAndMap(old(View()), v, writable, user, alloc) == if ok then Some(View()) else None
    {
      hide Coherent, Insert;
      var f := alloc(idle);
      if f.None? {
        return true;
      }
      TakeGood(View(), alloc);
      assert f.value in idle;
      idle := idle - {f.value};
      ok := PageInsert(f.value, v, writable, user);
    }

    method DoPgfault(v: nat, area: Option<Vma>, write: bool) returns (ok: bool)
      requires Valid() && Good(View()) && v < NPAGES
      modifies this`tables, this`tlbAlgoN, this`refs, this`idle, pgdir, hw, tlbAlgoEmpty
      ensures Valid()
      ensures Fault(old(View()), v, area, write, alloc) == if ok then Some(View()) else None
    {
      hide Good, GetPte, AllocAndMap, Sound, Sized, Coherent, Accounted, Flat, TablesOk;
      GoodFacts(View());
      if area.None? || (if write then !area.value.write else !area.value.read && !area.value.exec) {
        return false;
      }
      GetPteGood(View(), v, alloc);
      ok := GetPteCreate(v);
      if !ok {
        return;
      }
      GoodFacts(View());
      AbsentIsZero(View(), v);
      var p := ReadPte(v);
      if p.value == ZERO_PTE {
        ok := PgdirAllocPage(v, area.value.write, true);
      } else {
        ok := false;
      }
    }

    method TlbMissHandler(la: Addr, area: Option<Vma>, write: bool) returns (ok: bool)
      requires Valid() && Good(View())
      modifies this, pgdir, hw, tlbAlgoEmpty, tlbAlgoHi
      ensures Valid()
      ensures MissHandler(old(View()), Vpn(la), area, write, alloc) == if ok then Some(View()) else None
    {
      hide Good, Fault, Fill, Sound, Sized, Coherent, Accounted, Flat, TablesOk;
      GoodFacts(View());
      var v := Vpn(la);
      AbsentIsZero(View(), v);
      var p := ReadPte(v);
      if p.None? || !p.value.present {
        FaultGood(View(), v, area, write, alloc);
        ok := DoPgfault(v, area, write);
        if !ok {
          return;
        }
        GoodFacts(View());
      }
      ok := true;
      TlbFill(v);
    }

    /** tlb_init */
    method Init()
      requires Valid()
      modifies this`tlbAlgoN, hw, tlbAlgoEmpty
      ensures Valid() && View() == Boot(old(View()))
    {
      for i := 0 to TLBN
        modifies hw
        invariant forall j | 0 <= j < i :: hw[j] == Slot(ENTRYHI_INVALID, ENTRYLO_INVALID, ENTRYLO_INVALID)
      {
        TlbWrite(i, Slot(ENTRYHI_INVALID, ENTRYLO_INVALID, ENTRYLO_INVALID));
      }
      for i := 0 to TLBN
        modifies tlbAlgoEmpty
        invariant forall j | 0 <= j < i :: tlbAlgoEmpty[j] == j
      {
        tlbAlgoEmpty[i] := i;
      }
      tlbAlgoN := TLBN;
      assert hw[..] == TlbInit(old(MmuView())).hw;
      assert tlbAlgoEmpty[..] == TlbInit(old(MmuView())).free;
    }
  }
}
