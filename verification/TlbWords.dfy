/**
  The words behind the records of Tlb: the PTE format and the macros of tlb.h, and the
  masks that tlb.c applies, act on the fields as the model says.
 */
module TlbWords {
  import opened Tlb

  const PTE_P: bv32 := 0x001
  const PTE_W: bv32 := 0x002
  const PTE_U: bv32 := 0x004
  const TLB_P: bv32 := 0x80

  function TLBIDX(pte: bv32): (idx: bv32)
    ensures idx <= 0xf
  {
    (pte >> 8) & 0xf
  }

  function PPN(la: bv32): (ppn: bv32)
    ensures ppn <= 0xfffff
  {
    la >> 12
  }

  function ENTRYLO(pte: bv32): bv32 {
    (PPN(pte) << 6) | (2 << 3) | (((pte >> 1) & 1) << 2) | 0x3
  }

  function TLBPAIR(la: bv32): bv32 {
    la ^ 0x1000
  }

  function TLBLO(la: bv32): bv32 {
    PPN(la) & 1
  }

  /** A page-frame number as a number. */
  function FrameOf(ppn: bv32): Frame
    requires ppn <= 0xfffff
  {
    (ppn as bv20) as nat
  }

  /** The PTE format of tlb.h; bits 3 to 6 are reserved. */
  function Decode(pte: bv32): Pte {
    Pte(pte & PTE_P != 0, pte & PTE_W != 0, pte & PTE_U != 0, pte & TLB_P != 0,
        TLBIDX(pte) as nat, FrameOf(PPN(pte)))
  }

  /** The frame number in an EntryLo word. */
  function PFN(lo: bv32): (pfn: bv32)
    ensures pfn <= 0xfffff
  {
    (lo >> 6) & 0xfffff
  }

  /** EntryLo of MIPS32 Volume III: frame number in bits 25..6, D in bit 2, V in bit 1. */
  function DecodeLo(lo: bv32): EntryLo {
    EntryLo(FrameOf(PFN(lo)), lo & 4 != 0, lo & 2 != 0)
  }

  function Bit(b: bool, mask: bv32): bv32 {
    if b then mask else 0
  }

  lemma PteFieldsOf(ppn: bv32, idx: bv32, low: bv32, w: bv32)
    requires ppn <= 0xfffff && idx <= 0xf && low <= 0xff && w == (ppn << 12) | (idx << 8) | low
    ensures PPN(w) == ppn && TLBIDX(w) == idx && w & 0xff == low
  {
  }

  lemma DecodeParts(w: bv32, ppn: bv32, idx: bv32, p: Pte)
    requires ppn <= 0xfffff && PPN(w) == ppn && TLBIDX(w) == idx && p.idx == idx as nat && p.ppn == FrameOf(ppn)
    requires (w & 0x80 != 0 <==> p.tlbp) && (w & 4 != 0 <==> p.user) && (w & 2 != 0 <==> p.writable)
             && (w & 1 != 0 <==> p.present)
    ensures Decode(w) == p
  {
    hide PPN, TLBIDX, FrameOf;
  }

  /** A PTE put together from its fields, whatever the reserved bits, decodes to them. */
  lemma PteLayout(ppn: bv32, idx: bv32, reserved: bv32, p: Pte, low: bv32, w: bv32)
    requires ppn <= 0xfffff && idx <= 0xf && reserved & 0x78 == reserved
    requires p.idx == idx as nat && p.ppn == FrameOf(ppn)
    requires low == Bit(p.tlbp, 0x80) | reserved | Bit(p.user, 4) | Bit(p.writable, 2) | Bit(p.present, 1)
    requires w == (ppn << 12) | (idx << 8) | low
    ensures Decode(w) == p
  {
    hide PPN, TLBIDX, FrameOf, Decode, Bit;
    LowBits(p.tlbp, reserved, p.user, p.writable, p.present, low);
    PteFieldsOf(ppn, idx, low, w);
    LowOf(w, low);
    DecodeParts(w, ppn, idx, p);
  }

  lemma LowBits(t: bool, reserved: bv32, u: bool, w: bool, p: bool, low: bv32)
    requires reserved & 0x78 == reserved
    requires low == Bit(t, 0x80) | reserved | Bit(u, 4) | Bit(w, 2) | Bit(p, 1)
    ensures low <= 0xff && (low & 0x80 != 0 <==> t) && (low & 4 != 0 <==> u) && (low & 2 != 0 <==> w)
            && (low & 1 != 0 <==> p)
  {
  }

  lemma LowOf(w: bv32, low: bv32)
    requires w & 0xff == low
    ensures w & 0x80 == low & 0x80 && w & 4 == low & 4 && w & 2 == low & 2 && w & 1 == low & 1
  {
  }

  lemma LoFieldsOf(pfn: bv32, c: bv32, low: bv32, w: bv32)
    requires pfn <= 0xfffff && c <= 7 && low <= 7 && w == (pfn << 6) | (c << 3) | low
    ensures PFN(w) == pfn && w & 7 == low && w & 4 == low & 4 && w & 2 == low & 2
  {
  }

  /** An EntryLo word put together from its fields decodes to them, whatever the cache attribute and the G bit. */
  lemma LoLayout(pfn: bv32, c: bv32, global: bool, lo: EntryLo, w: bv32)
    requires pfn <= 0xfffff && c <= 7 && lo.pfn == FrameOf(pfn)
    requires w == (pfn << 6) | (c << 3) | (Bit(lo.dirty, 4) | Bit(lo.valid, 2) | Bit(global, 1))
    ensures DecodeLo(w) == lo
  {
    hide PFN, FrameOf;
    LoFieldsOf(pfn, c, Bit(lo.dirty, 4) | Bit(lo.valid, 2) | Bit(global, 1), w);
  }

  /** Words with equal fields decode to the same PTE, but for TLB_P and the index. */
  lemma SameFields(w: bv32, v: bv32)
    requires PPN(w) == PPN(v)
    requires w & PTE_P == v & PTE_P && w & PTE_W == v & PTE_W && w & PTE_U == v & PTE_U
    ensures Decode(w) == Decode(v).(idx := TLBIDX(w) as nat, tlbp := w & TLB_P != 0)
  {
    hide PPN, TLBIDX, FrameOf;
  }

  lemma EntryLoBits(pte: bv32)
    ensures PFN(ENTRYLO(pte)) == PPN(pte)
    ensures ENTRYLO(pte) & 4 != 0 <==> pte & PTE_W != 0
    ensures ENTRYLO(pte) & 2 != 0 && ENTRYLO(pte) & 1 != 0 && (ENTRYLO(pte) >> 3) & 7 == 2
  {
  }

  lemma EntryLoWord(pte: bv32)
    ensures DecodeLo(ENTRYLO(pte)) == Lo(Decode(pte))
  {
    hide ENTRYLO, PFN, PPN, TLBIDX, FrameOf;
    EntryLoBits(pte);
  }

  lemma MarkedFields(pte: bv32, idx: bv32)
    requires idx < 16
    ensures var w := (pte & 0xfffff0ff) | (idx << 8) | TLB_P;
      && PPN(w) == PPN(pte) && TLBIDX(w) == idx && w & TLB_P != 0
      && w & PTE_P == pte & PTE_P && w & PTE_W == pte & PTE_W && w & PTE_U == pte & PTE_U
  {
  }

  /** The last assignment of tlb_miss_handler. */
  lemma MarkWord(pte: bv32, idx: bv32, w: bv32)
    requires idx < 16 && w == (pte & 0xfffff0ff) | (idx << 8) | TLB_P
    ensures Decode(w) == Decode(pte).(idx := idx as nat, tlbp := true)
  {
    hide PPN, TLBIDX, FrameOf, Decode;
    MarkedFields(pte, idx);
    SameFields(w, pte);
  }

  lemma ClearedFields(pte: bv32)
    ensures var w := pte & !TLB_P;
      && PPN(w) == PPN(pte) && TLBIDX(w) == TLBIDX(pte) && w & TLB_P == 0
      && w & PTE_P == pte & PTE_P && w & PTE_W == pte & PTE_W && w & PTE_U == pte & PTE_U
  {
  }

  lemma IndexDecoded(pte: bv32)
    ensures Decode(pte).idx == TLBIDX(pte) as nat
  {
    hide PPN, TLBIDX, FrameOf;
  }

  lemma ClearWord(pte: bv32)
    ensures Decode(pte & !TLB_P) == Decode(pte).(tlbp := false)
  {
    hide PPN, TLBIDX, FrameOf, Decode;
    ClearedFields(pte);
    SameFields(pte & !TLB_P, pte);
    IndexDecoded(pte);
  }

  lemma StoredWord(ppn: bv32, perm: bv32)
    requires ppn <= 0xfffff
    ensures ((ppn << 12) | 1 | perm) >> 12 == ppn | (perm >> 12)
    ensures (((ppn << 12) | 1 | perm) >> 8) & 0xf == (perm >> 8) & 0xf
    ensures ((ppn << 12) | 1 | perm) & 1 != 0
    ensures ((ppn << 12) | 1 | perm) & 2 == perm & 2
    ensures ((ppn << 12) | 1 | perm) & 4 == perm & 4
    ensures ((ppn << 12) | 1 | perm) & 0x80 == perm & 0x80
  {
  }

  /** The word that page_insert stores, field by field. */
  lemma MappedFields(ppn: bv32, perm: bv32, w: bv32)
    requires ppn <= 0xfffff && w == (ppn << 12) | PTE_P | perm
    ensures w & PTE_P != 0 && w & PTE_W == perm & PTE_W && w & PTE_U == perm & PTE_U
    ensures PPN(w) == ppn | PPN(perm) && TLBIDX(w) == TLBIDX(perm) && w & TLB_P == perm & TLB_P
  {
    StoredWord(ppn, perm);
  }

  /** The last assignment of page_insert: the word maps the frame, outside the TLB, exactly when the
    * permission word sets no frame bit that the frame lacks and no bit of the TLB's own.
    */
  lemma MapWord(ppn: bv32, perm: bv32, w: bv32)
    requires ppn <= 0xfffff && w == (ppn << 12) | PTE_P | perm
    ensures w & PTE_P != 0 && w & PTE_W == perm & PTE_W && w & PTE_U == perm & PTE_U
    ensures PPN(w) == ppn && TLBIDX(w) == 0 && w & TLB_P == 0
            <==> ppn | PPN(perm) == ppn && TLBIDX(perm) == 0 && perm & TLB_P == 0
  {
    hide PPN, TLBIDX;
    MappedFields(ppn, perm, w);
  }

  /** Paired pages differ in the lowest page-number bit: same base, the other half. */
  lemma PairWords(la: bv32)
    ensures PPN(TLBPAIR(la)) == PPN(la) ^ 1
    ensures TLBLO(TLBPAIR(la)) == TLBLO(la) ^ 1
    ensures TLBPAIR(la) & 0xffffe000 == la & 0xffffe000 && TLBPAIR(la) & 0xfff == la & 0xfff
  {
  }
}
