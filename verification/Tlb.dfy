/**
  The software-managed TLB of lab3/kern/mm/tlb.c over a flat view of the page table,
  and the lookup that cpu_final/mmu.vhd does in hardware.  A page without a page table
  reads as ZERO_PTE, which is what the tests for a null `ptep` amount to.

  Module TlbWords relates these records to the 32-bit words and masks of tlb.h.
 */
module Tlb {
  type Frame = f: nat | f < 0x10_0000

  const TLBN := 16
  const NPAGES := 0x10_0000
  const ENTRYHI_INVALID := 0x8000_0000

  datatype Pte = Pte(present: bool, writable: bool, user: bool, tlbp: bool, idx: nat, ppn: Frame)

  const ZERO_PTE := Pte(false, false, false, false, 0, 0)

  /** One half of a TLB entry: frame, D bit, V bit. */
  datatype EntryLo = EntryLo(pfn: Frame, dirty: bool, valid: bool)

  const ENTRYLO_INVALID := EntryLo(0, false, false)

  function Lo(p: Pte): EntryLo {
    EntryLo(p.ppn, p.writable, true)
  }

  datatype Slot = Slot(hi: nat, lo0: EntryLo, lo1: EntryLo) {
    function Half(odd: bool): EntryLo {
      if odd then lo1 else lo0
    }
  }

  /**
    `pt` is indexed by virtual page number, `hw` is what tlbwi wrote, `free` is
    tlb_algo_empty up to tlb_algo_n, `hi` is tlb_algo_hi and `next` is tlb_algo_ptr.
   */
  datatype Mmu = Mmu(pt: seq<Pte>, hw: seq<Slot>, free: seq<nat>, hi: seq<nat>, next: nat)

  // ---------- addresses ----------

  type Addr = a: nat | a < 0x1_0000_0000

  function Vpn(la: Addr): (v: nat)
    ensures v < NPAGES
  {
    la / 0x1000
  }

  function Odd(v: nat): bool {
    v % 2 == 1
  }

  /** TLBPAIR, on page numbers. */
  function Pair(v: nat): nat {
    if Odd(v) then v - 1 else v + 1
  }

  /** The address bits above the pair of pages: la & 0xffffe000. */
  function PairBase(v: nat): nat {
    v / 2 * 0x2000
  }

  // ---------- the handlers ----------

  function TlbInit(m: Mmu): Mmu {
    m.(hw := seq(TLBN, _ => Slot(ENTRYHI_INVALID, ENTRYLO_INVALID, ENTRYLO_INVALID)), free := seq(TLBN, i => i))
  }

  function ClearTlbp(pt: seq<Pte>, v: nat): seq<Pte>
    requires v < |pt|
  {
    pt[v := pt[v].(tlbp := false)]
  }

  predicate Shape(m: Mmu) {
    && |m.pt| == NPAGES && |m.hw| == |m.hi| == TLBN && m.next < TLBN
    && (forall i | 0 <= i < |m.free| :: m.free[i] < TLBN)
    && (forall i | 0 <= i < TLBN :: m.hi[i] < 0x1_0000_0000)
    && (forall v | 0 <= v < NPAGES :: m.pt[v].idx < TLBN)
  }

  /** tlb_get_empty: pop a free slot, or throw out the pair in the slot that is next in turn. */
  function GetEmpty(m: Mmu, hi: nat): (Mmu, nat)
    requires Shape(m)
  {
    if |m.free| > 0 then
      var idx := m.free[|m.free| - 1];
      (m.(free := m.free[..|m.free| - 1], hi := m.hi[idx := hi]), idx)
    else
      var idx := m.next;
      var v := Vpn(m.hi[idx]);
      (m.(pt := ClearTlbp(ClearTlbp(m.pt, v), Pair(v)), hi := m.hi[idx := hi], next := (m.next + 1) % TLBN), idx)
  }

  function PairSlot(v: nat, own: EntryLo, other: EntryLo): Slot {
    if Odd(v) then Slot(PairBase(v), other, own) else Slot(PairBase(v), own, other)
  }

  /** The part of tlb_miss_handler after the page is present. */
  function Fill(m: Mmu, v: nat): Mmu
    requires Shape(m) && v < NPAGES
  {
    var own := Lo(m.pt[v]);
    var other := m.pt[Pair(v)];
    if other.tlbp then
      m.(hw := m.hw[other.idx := PairSlot(v, own, Lo(other))],
        pt := m.pt[v := m.pt[v].(idx := other.idx, tlbp := true)])
    else
      var (m', idx) := GetEmpty(m, PairBase(v));
      m'.(hw := m'.hw[idx := PairSlot(v, own, ENTRYLO_INVALID)], pt := m'.pt[v := m'.pt[v].(idx := idx, tlbp := true)])
  }

  /** tlb_invalidate on the page directory in use. */
  function Invalidate(m: Mmu, v: nat): (m': Mmu)
    requires Shape(m) && v < NPAGES
    ensures Shape(m')
  {
    var p := m.pt[v];
    if !p.tlbp then m
    else
      var other := m.pt[Pair(v)];
      var pt := ClearTlbp(m.pt, v);
      if other.tlbp then
        m.(hw := m.hw[p.idx := PairSlot(v, ENTRYLO_INVALID, Lo(other))], pt := pt)
      else
        m.(hw := m.hw[p.idx := Slot(ENTRYHI_INVALID, ENTRYLO_INVALID, ENTRYLO_INVALID)], pt := pt,
          free := m.free + [p.idx])
  }

  // ---------- the hardware ----------

  predicate Matches(s: Slot, la: Addr) {
    s.hi / 0x2000 == la / 0x2000 && s.Half(Odd(Vpn(la))).valid
  }

  datatype Translation = Miss | Hit(pfn: Frame, dirty: bool)

  /** The parallel lookup: the bits of all matching halves are or-ed together. */
  function Lookup(hw: seq<Slot>, la: Addr): Translation {
    if hw == [] then Miss
    else
      var rest := Lookup(hw[..|hw| - 1], la);
      var s := hw[|hw| - 1];
      if !Matches(s, la) then rest
      else
        var lo := s.Half(Odd(Vpn(la)));
        if rest.Miss? then Hit(lo.pfn, lo.dirty)
        else Hit((rest.pfn as bv20 | lo.pfn as bv20) as nat, rest.dirty || lo.dirty)
  }

  // ---------- coherence ----------

  ghost predicate PteOk(m: Mmu, v: nat)
    requires Shape(m) && v < NPAGES
  {
    var p := m.pt[v];
    var other := m.pt[Pair(v)];
    p.tlbp ==>
      && p.present
      && p.idx !in m.free
      && m.hw[p.idx].hi == PairBase(v)
      && m.hw[p.idx].Half(Odd(v)) == Lo(p)
      && (other.tlbp ==> other.idx == p.idx)
  }

  ghost predicate HalfOk(m: Mmu, i: nat, odd: bool)
    requires Shape(m) && i < TLBN
  {
    m.hw[i].Half(odd).valid ==>
      var v := m.hw[i].hi / 0x1000 + (if odd then 1 else 0);
      v < NPAGES && m.pt[v].tlbp && m.pt[v].idx == i
  }

  ghost predicate SlotOk(m: Mmu, i: nat)
    requires Shape(m) && i < TLBN
  {
    && HalfOk(m, i, false) && HalfOk(m, i, true)
    && (i in m.free ==> !m.hw[i].lo0.valid && !m.hw[i].lo1.valid)
    && (i !in m.free ==> m.hw[i].hi == m.hi[i] && m.hi[i] % 0x2000 == 0 && (m.hw[i].lo0.valid || m.hw[i].lo1.valid))
  }

  ghost predicate FreeOk(free: seq<nat>) {
    forall i, j | 0 <= i < j < |free| :: free[i] != free[j]
  }

  /** The page table and the TLB agree, and the free stack lists each unused slot once. */
  ghost predicate Coherent(m: Mmu) {
    && Shape(m) && FreeOk(m.free)
    && (forall v | 0 <= v < NPAGES :: PteOk(m, v))
    && (forall i | 0 <= i < TLBN :: SlotOk(m, i))
  }

  lemma PairFacts(v: nat)
    requires v < NPAGES
    ensures Pair(v) < NPAGES && Pair(Pair(v)) == v && Pair(v) != v && Odd(Pair(v)) != Odd(v)
    ensures PairBase(Pair(v)) == PairBase(v) < 0x1_0000_0000 && PairBase(v) % 0x2000 == 0
    ensures v == PairBase(v) / 0x1000 + (if Odd(v) then 1 else 0)
  {
  }

  /** A slot that is in use holds the pair it is recorded for, so no two slots hold the same pair. */
  lemma SlotsDiffer(m: Mmu, i: nat, j: nat)
    requires Coherent(m) && i < TLBN && j < TLBN && i !in m.free && j !in m.free && m.hi[i] == m.hi[j]
    ensures i == j
  {
    assert SlotOk(m, i) && SlotOk(m, j);
    var vi := m.hi[i] / 0x1000 + (if m.hw[i].lo1.valid then 1 else 0);
    var vj := m.hi[j] / 0x1000 + (if m.hw[j].lo1.valid then 1 else 0);
    assert m.pt[vi].tlbp && m.pt[vi].idx == i;
    assert m.pt[vj].tlbp && m.pt[vj].idx == j;
    assert PteOk(m, vi);
  }

  // ---------- the lookup tells the truth ----------

  lemma {:induction false} LookupNone(hw: seq<Slot>, la: Addr)
    requires forall i | 0 <= i < |hw| :: !Matches(hw[i], la)
    ensures Lookup(hw, la) == Miss
  {
    if hw != [] {
      LookupNone(hw[..|hw| - 1], la);
    }
  }

  lemma {:induction false} LookupOnly(hw: seq<Slot>, la: Addr, k: nat)
    requires k < |hw| && Matches(hw[k], la)
    requires forall i | 0 <= i < |hw| :: Matches(hw[i], la) ==> i == k
    ensures var lo := hw[k].Half(Odd(Vpn(la))); Lookup(hw, la) == Hit(lo.pfn, lo.dirty)
  {
    if k == |hw| - 1 {
      LookupNone(hw[..k], la);
    } else {
      LookupOnly(hw[..|hw| - 1], la, k);
    }
  }

  lemma MatchIsTlbp(m: Mmu, la: Addr, i: nat)
    requires Coherent(m) && i < TLBN
    ensures Matches(m.hw[i], la) <==> m.pt[Vpn(la)].tlbp && m.pt[Vpn(la)].idx == i
  {
    var v := Vpn(la);
    assert PteOk(m, v) && SlotOk(m, i);
    PairFacts(v);
  }

  /** The hardware hits an address exactly when its PTE has TLB_P, and then says what the PTE says. */
  lemma LookupAgrees(m: Mmu, la: Addr)
    requires Coherent(m)
    ensures var p := m.pt[Vpn(la)];
            Lookup(m.hw, la) == if p.tlbp then Hit(p.ppn, p.writable) else Miss
    ensures Lookup(m.hw, la).Hit? ==> m.pt[Vpn(la)].present
  {
    var p := m.pt[Vpn(la)];
    assert PteOk(m, Vpn(la));
    forall i | 0 <= i < TLBN
      ensures Matches(m.hw[i], la) <==> p.tlbp && p.idx == i
    {
      MatchIsTlbp(m, la, i);
    }
    if p.tlbp {
      LookupOnly(m.hw, la, p.idx);
    } else {
      LookupNone(m.hw, la);
    }
  }

  // ---------- what keeps coherence ----------

  lemma InitCoherent(m: Mmu)
    requires |m.pt| == NPAGES && |m.hi| == TLBN && m.next < TLBN
    requires forall i | 0 <= i < TLBN :: m.hi[i] < 0x1_0000_0000
    requires forall v | 0 <= v < NPAGES :: !m.pt[v].tlbp && m.pt[v].idx < TLBN
    ensures Coherent(TlbInit(m))
  {
    var m' := TlbInit(m);
    forall i | 0 <= i < TLBN ensures SlotOk(m', i) {
      assert m'.free[i] == i;
    }
  }

  lemma WriteCoherent(m: Mmu, v: nat, p: Pte)
    requires Coherent(m) && v < NPAGES && !m.pt[v].tlbp && !p.tlbp && p.idx < TLBN
    ensures Coherent(m.(pt := m.pt[v := p]))
  {
    var m' := m.(pt := m.pt[v := p]);
    forall w | 0 <= w < NPAGES ensures PteOk(m', w) {
      assert PteOk(m, w);
    }
    forall i | 0 <= i < TLBN ensures SlotOk(m', i) {
      assert SlotOk(m, i);
    }
  }

  lemma {:induction false} DistinctFit(s: seq<nat>, n: nat)
    requires FreeOk(s) && forall i | 0 <= i < |s| :: s[i] < n
    ensures |s| <= n
  {
    if n > 0 {
      if n - 1 in s {
        var k :| 0 <= k < |s| && s[k] == n - 1;
        DistinctFit(s[..k] + s[k + 1..], n - 1);
      } else {
        DistinctFit(s, n - 1);
      }
    }
  }

  lemma FreeHasRoom(free: seq<nat>, idx: nat)
    requires FreeOk(free) && idx !in free && idx < TLBN && forall i | 0 <= i < |free| :: free[i] < TLBN
    ensures |free| < TLBN && FreeOk(free + [idx])
  {
    DistinctFit(free + [idx], TLBN);
  }

  /** tlb_del_callback never writes past tlb_algo_empty: a slot to be freed leaves room on the stack. */
  lemma FreeStackHasRoom(m: Mmu, v: nat)
    requires Coherent(m) && v < NPAGES && m.pt[v].tlbp
    ensures |m.free| < TLBN
  {
    assert PteOk(m, v);
    FreeHasRoom(m.free, m.pt[v].idx);
  }

  lemma InvalidateShape(m: Mmu, v: nat)
    requires Coherent(m) && v < NPAGES
    ensures FreeOk(Invalidate(m, v).free)
    ensures Invalidate(m, v).pt == ClearTlbp(m.pt, v)
  {
    if m.pt[v].tlbp {
      assert PteOk(m, v);
      FreeHasRoom(m.free, m.pt[v].idx);
    } else {
      assert ClearTlbp(m.pt, v) == m.pt;
    }
  }

  lemma InvalidatePteOk(m: Mmu, v: nat, w: nat)
    requires Coherent(m) && v < NPAGES && w < NPAGES
    ensures PteOk(Invalidate(m, v), w)
  {
    assert PteOk(m, v) && PteOk(m, Pair(v)) && PteOk(m, w) && PteOk(m, Pair(w));
    PairFacts(v);
    PairFacts(w);
  }

  lemma InvalidateSlotOk(m: Mmu, v: nat, i: nat)
    requires Coherent(m) && v < NPAGES && i < TLBN
    ensures SlotOk(Invalidate(m, v), i)
  {
    assert SlotOk(m, i) && PteOk(m, v) && PteOk(m, Pair(v));
    PairFacts(v);
  }

  /** Flushing one page keeps coherence and clears TLB_P in that page's PTE alone. */
  lemma InvalidateCoherent(m: Mmu, v: nat)
    requires Coherent(m) && v < NPAGES
    ensures Coherent(Invalidate(m, v))
    ensures Invalidate(m, v).pt == ClearTlbp(m.pt, v)
  {
    hide Invalidate, PteOk, SlotOk;
    InvalidateShape(m, v);
    forall w | 0 <= w < NPAGES ensures PteOk(Invalidate(m, v), w) {
      InvalidatePteOk(m, v, w);
    }
    forall i | 0 <= i < TLBN ensures SlotOk(Invalidate(m, v), i) {
      InvalidateSlotOk(m, v, i);
    }
  }

  // ---------- the miss handler ----------

  /** Throwing out slot `next` clears exactly the TLB_P bits that name it, and never those of the pair being filled. */
  lemma EvictClears(m: Mmu, v: nat)
    requires Coherent(m) && v < NPAGES && !m.pt[v].tlbp && !m.pt[Pair(v)].tlbp && m.free == []
    ensures m.hi[m.next] != PairBase(v)
    ensures var out := Vpn(m.hi[m.next]);
      && (m.pt[out].tlbp ==> m.pt[out].idx == m.next)
      && (m.pt[Pair(out)].tlbp ==> m.pt[Pair(out)].idx == m.next)
      && forall w | 0 <= w < NPAGES && m.pt[w].tlbp && m.pt[w].idx == m.next :: w == out || w == Pair(out)
  {
    var i := m.next;
    var out := Vpn(m.hi[i]);
    assert SlotOk(m, i);
    PairFacts(v);
    PairFacts(out);
    assert PteOk(m, out) && PteOk(m, Pair(out));
    forall w | 0 <= w < NPAGES && m.pt[w].tlbp && m.pt[w].idx == i ensures w == out || w == Pair(out) {
      assert PteOk(m, w);
      PairFacts(w);
    }
  }

  /** Everything is coherent but slot `idx`, which is taken and which no PTE names. */
  ghost predicate ReadyAt(m: Mmu, idx: nat) {
    && Shape(m) && FreeOk(m.free) && idx < TLBN && idx !in m.free
    && (forall v | 0 <= v < NPAGES :: PteOk(m, v) && (m.pt[v].tlbp ==> m.pt[v].idx != idx))
    && (forall i | 0 <= i < TLBN && i != idx :: SlotOk(m, i))
  }

  lemma PopReady(m: Mmu, hi: nat)
    requires Coherent(m) && |m.free| > 0 && hi < 0x1_0000_0000
    ensures var (m', idx) := GetEmpty(m, hi); ReadyAt(m', idx) && m'.hi[idx] == hi && m'.pt == m.pt
  {
    var (m', idx) := GetEmpty(m, hi);
    assert forall i :: i in m.free <==> i in m'.free || i == idx;
    forall w | 0 <= w < NPAGES ensures PteOk(m', w) && (m.pt[w].tlbp ==> m.pt[w].idx != idx) {
      assert PteOk(m, w);
    }
    forall i | 0 <= i < TLBN && i != idx ensures SlotOk(m', i) {
      assert SlotOk(m, i);
    }
  }

  lemma EvictPteOk(m: Mmu, v: nat, w: nat)
    requires Coherent(m) && v < NPAGES && !m.pt[v].tlbp && !m.pt[Pair(v)].tlbp && m.free == [] && w < NPAGES
    ensures var (m', idx) := GetEmpty(m, PairBase(v));
      && Shape(m') && PteOk(m', w)
      && m'.pt[w] == m.pt[w].(tlbp := m.pt[w].tlbp && m.pt[w].idx != idx)
  {
    EvictClears(m, v);
    PairFacts(v);
    PairFacts(w);
    PairFacts(Vpn(m.hi[m.next]));
    assert PteOk(m, w);
  }

  lemma EvictReady(m: Mmu, v: nat)
    requires Coherent(m) && v < NPAGES && !m.pt[v].tlbp && !m.pt[Pair(v)].tlbp && m.free == []
    ensures var (m', idx) := GetEmpty(m, PairBase(v)); ReadyAt(m', idx) && m'.hi[idx] == PairBase(v)
    ensures var (m', idx) := GetEmpty(m, PairBase(v));
      forall w | 0 <= w < NPAGES :: m'.pt[w] == m.pt[w].(tlbp := m.pt[w].tlbp && m.pt[w].idx != idx)
  {
    hide PteOk;
    var (m', idx) := GetEmpty(m, PairBase(v));
    PairFacts(v);
    forall w | 0 <= w < NPAGES
      ensures Shape(m') && PteOk(m', w) && m'.pt[w] == m.pt[w].(tlbp := m.pt[w].tlbp && m.pt[w].idx != idx)
    {
      EvictPteOk(m, v, w);
    }
    forall i | 0 <= i < TLBN && i != idx ensures SlotOk(m', i) {
      assert SlotOk(m, i);
    }
  }

  lemma FillReady(m: Mmu, v: nat, idx: nat)
    requires ReadyAt(m, idx) && v < NPAGES && m.pt[v].present && !m.pt[v].tlbp && !m.pt[Pair(v)].tlbp
    requires m.hi[idx] == PairBase(v)
    ensures Coherent(m.(hw := m.hw[idx := PairSlot(v, Lo(m.pt[v]), ENTRYLO_INVALID)],
                        pt := m.pt[v := m.pt[v].(idx := idx, tlbp := true)]))
  {
    var m' := m.(hw := m.hw[idx := PairSlot(v, Lo(m.pt[v]), ENTRYLO_INVALID)],
                 pt := m.pt[v := m.pt[v].(idx := idx, tlbp := true)]);
    PairFacts(v);
    forall w | 0 <= w < NPAGES ensures PteOk(m', w) {
      assert PteOk(m, w);
      PairFacts(w);
    }
    forall i | 0 <= i < TLBN ensures SlotOk(m', i) {
      if i != idx { assert SlotOk(m, i); }
    }
  }

  lemma FillPairedPteOk(m: Mmu, v: nat, w: nat)
    requires Coherent(m) && v < NPAGES && m.pt[v].present && !m.pt[v].tlbp && m.pt[Pair(v)].tlbp && w < NPAGES
    ensures PteOk(Fill(m, v), w)
  {
    PairFacts(v);
    PairFacts(w);
    assert PteOk(m, Pair(v)) && PteOk(m, w);
  }

  lemma FillPairedSlotOk(m: Mmu, v: nat, i: nat)
    requires Coherent(m) && v < NPAGES && m.pt[v].present && !m.pt[v].tlbp && m.pt[Pair(v)].tlbp && i < TLBN
    ensures SlotOk(Fill(m, v), i)
  {
    PairFacts(v);
    assert PteOk(m, Pair(v)) && SlotOk(m, i);
  }

  lemma FillPaired(m: Mmu, v: nat)
    requires Coherent(m) && v < NPAGES && m.pt[v].present && !m.pt[v].tlbp && m.pt[Pair(v)].tlbp
    ensures Coherent(Fill(m, v))
  {
    hide PteOk, SlotOk;
    PairFacts(v);
    forall w | 0 <= w < NPAGES ensures PteOk(Fill(m, v), w) {
      FillPairedPteOk(m, v, w);
    }
    forall i | 0 <= i < TLBN ensures SlotOk(Fill(m, v), i) {
      FillPairedSlotOk(m, v, i);
    }
  }

  /** Apart from the evicted pair and the page filled, a fill leaves the page table alone. */
  ghost predicate FilledPt(pt: seq<Pte>, pt': seq<Pte>, v: nat)
    requires |pt| == NPAGES && v < NPAGES
  {
    && |pt'| == NPAGES
    && (forall w | 0 <= w < NPAGES && w != v ::
      pt'[w].(tlbp := false) == pt[w].(tlbp := false) && (pt'[w].tlbp ==> pt[w].tlbp))
    && pt'[v].tlbp && pt'[v].(tlbp := pt[v].tlbp, idx := pt[v].idx) == pt[v]
  }

  /** Filling a present page that the TLB missed keeps coherence, with or without its pair, full TLB or not. */
  lemma FillCoherent(m: Mmu, v: nat)
    requires Coherent(m) && v < NPAGES && m.pt[v].present && !m.pt[v].tlbp
    ensures Coherent(Fill(m, v)) && FilledPt(m.pt, Fill(m, v).pt, v)
  {
    hide PteOk, SlotOk;
    PairFacts(v);
    if m.pt[Pair(v)].tlbp {
      FillPaired(m, v);
    } else {
      var (m', idx) := GetEmpty(m, PairBase(v));
      if m.free == [] {
        EvictReady(m, v);
      } else {
        PopReady(m, PairBase(v));
      }
      FillReady(m', v, idx);
    }
  }

  /** Filling a page that is not present breaks coherence: the TLB then maps what the page table does not. */
  lemma FillNeedsPresent(m: Mmu, v: nat)
    requires Coherent(m) && v < NPAGES && !m.pt[v].tlbp
    ensures Coherent(Fill(m, v)) <==> m.pt[v].present
  {
    if m.pt[v].present {
      FillCoherent(m, v);
    } else {
      var m' := Fill(m, v);
      assert m'.pt[v].tlbp && !m'.pt[v].present;
      assert Shape(m') ==> !PteOk(m', v);
    }
  }
}
