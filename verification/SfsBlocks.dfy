/** Block map of the filesystem image: twelve direct pointers, one indirect and one double-indirect
  * pointer block per inode (lab8/tools/mksfs.c). A state also records what each allocated block is
  * used for; the invariant ties that record to the pointers, so no block has two uses.
  */
module SfsBlocks {
  import opened Options

  const DIRECT: nat := 12
  const ENTRIES: nat := 1024
  const SINGLE: nat := DIRECT + ENTRIES
  const MAX_BLOCKS: nat := 32768
  const BLOCK_SIZE: nat := 4096
  const ROOT: nat := 1
  const IMAGE_BLOCKS: nat := 524288

  type byte = x: int | 0 <= x < 256

  datatype Kind = File | Dir | Link

  datatype Inode = Inode(kind: Kind, size: nat, nlinks: nat, blocks: nat,
                         direct: seq<nat>, indirect: nat, dbIndirect: nat)

  /** What a block is used for: an inode, the i-th data block of an inode, its indirect block, its
    * double-indirect block, or the k-th pointer block below the double-indirect one.
    */
  datatype Use = Node | Data(ino: nat, i: nat) | Single(ino: nat) | Double(ino: nat) | Leaf(ino: nat, k: nat)

  type Index = map<nat, seq<nat>>

  /** `known` maps a host inode number to the image inode most recently made for it, and `entry` is
    * the name buffer that is reused, uncleared, for every directory entry.
    */
  datatype Fs = Fs(ninos: nat, next: nat, unused: int, disk: map<nat, seq<byte>>, nodes: map<nat, Inode>,
                   index: Index, use: map<nat, Use>, known: map<nat, nat>, entry: seq<byte>)

  function Slot(index: Index, b: nat, i: nat): nat {
    if b in index && i < |index[b]| then index[b][i] else 0
  }

  /** The i-th block of an inode, found through its pointers. */
  function Lookup(index: Index, node: Inode, i: nat): nat {
    if i < DIRECT then (if i < |node.direct| then node.direct[i] else 0)
    else if i < SINGLE then Slot(index, node.indirect, i - DIRECT)
    else Slot(index, Slot(index, node.dbIndirect, (i - SINGLE) / ENTRIES), (i - SINGLE) % ENTRIES)
  }

  function Blocks(index: Index, node: Inode): (s: seq<nat>) {
    seq(node.blocks, i requires 0 <= i => Lookup(index, node, i))
  }

  function Zeros(): (s: seq<nat>) {
    seq(ENTRIES, _ => 0)
  }

  // ---- operations ----

  function Take(fs: Fs, u: Use): Option<Fs> {
    if fs.next < fs.ninos
    then Some(fs.(next := fs.next + 1, unused := fs.unused - 1, use := fs.use[fs.next := u]))
    else None
  }

  /** A pointer block for the slot that holds b: the block b names, or a fresh zeroed one. */
  function Pointers(fs: Fs, b: nat, u: Use): Option<(Fs, nat)> {
    if b != 0 then Some((fs, b)) else
    match Take(fs, u)
    case None => None
    case Some(fs1) => Some((fs1.(index := fs1.index[fs.next := Zeros()]), fs.next))
  }

  function SetSlot(index: Index, b: nat, i: nat, v: nat): Index {
    if b in index && i < |index[b]| then
      var words: seq<nat> := index[b];
      var changed: seq<nat> := words[i := v];
      index[b := changed]
    else index
  }

  /** The pointer write of append_block: block b becomes number node.blocks of inode n. */
  function Place(fs: Fs, n: nat, b: nat): Option<Fs>
    requires n in fs.nodes && |fs.nodes[n].direct| == DIRECT
  {
    var node := fs.nodes[n];
    var i := node.blocks;
    if i < DIRECT then Some(fs.(nodes := fs.nodes[n := node.(direct := node.direct[i := b])]))
    else if i < SINGLE then
      match Pointers(fs, node.indirect, Single(n))
      case None => None
      case Some((f, l1)) =>
        Some(f.(nodes := f.nodes[n := node.(indirect := l1)], index := SetSlot(f.index, l1, i - DIRECT, b)))
    else
      var q := i - SINGLE;
      match Pointers(fs, node.dbIndirect, Double(n))
      case None => None
      case Some((f, l2)) =>
        match Pointers(f, Slot(f.index, l2, q / ENTRIES), Leaf(n, q / ENTRIES))
        case None => None
        case Some((g, l1)) =>
          Some(g.(nodes := g.nodes[n := node.(dbIndirect := l2)],
                  index := SetSlot(SetSlot(g.index, l2, q / ENTRIES, l1), l1, q % ENTRIES, b)))
  }

  function Append(fs: Fs, n: nat, size: nat, b: nat): Option<Fs>
    requires n in fs.nodes && |fs.nodes[n].direct| == DIRECT
  {
    if fs.nodes[n].blocks >= MAX_BLOCKS then None else
    match Place(fs, n, b)
    case None => None
    case Some(f) =>
      var node := f.nodes[n];
      Some(f.(nodes := f.nodes[n := node.(size := node.size + size, blocks := node.blocks + 1)]))
  }

  /** Allocate a block, write it, and append it: what every caller of append_block does. */
  function AddBlock(fs: Fs, n: nat, size: nat, bytes: seq<byte>): Option<Fs>
    requires n in fs.nodes && |fs.nodes[n].direct| == DIRECT
  {
    match Take(fs, Data(n, fs.nodes[n].blocks))
    case None => None
    case Some(f) => Append(f.(disk := f.disk[fs.next := bytes]), n, size, fs.next)
  }

  // ---- invariant ----

  /** First block after the superblock, the root inode and the free-block bitmap. */
  function FirstFree(ninos: nat): nat {
    2 + (ninos + 32767) / 32768
  }

  ghost predicate Used(fs: Fs, b: nat, u: Use) {
    b in fs.use && fs.use[b] == u
  }

  /** Pointer states of inode n when it has `count` blocks. */
  ghost predicate PointersOk(fs: Fs, n: nat, node: Inode, count: nat) {
    && (if count <= DIRECT then node.indirect == 0 else Used(fs, node.indirect, Single(n)))
    && (if count <= SINGLE then node.dbIndirect == 0 else Used(fs, node.dbIndirect, Double(n)))
    && (count > SINGLE ==> forall k: nat :: k < ENTRIES ==> LeafOk(fs, n, k, Slot(fs.index, node.dbIndirect, k), count))
  }

  ghost predicate LeafOk(fs: Fs, n: nat, k: nat, leaf: nat, count: nat) {
    if SINGLE + k * ENTRIES < count then Used(fs, leaf, Leaf(n, k)) else leaf == 0
  }

  /** The pointers of inode n lead to blocks that are used for exactly that purpose. */
  ghost predicate Mapped(fs: Fs, n: nat, node: Inode) {
    && |node.direct| == DIRECT && node.blocks <= MAX_BLOCKS
    && (forall i: nat :: i < node.blocks ==> Used(fs, Lookup(fs.index, node, i), Data(n, i)))
    && PointersOk(fs, n, node, node.blocks)
  }

  /** The block is really reached through the pointers its use names. */
  ghost predicate Reached(nodes: map<nat, Inode>, index: Index, b: nat, u: Use) {
    match u
    case Node => b in nodes
    case Data(n, i) => n in nodes && i < nodes[n].blocks && Lookup(index, nodes[n], i) == b
    case Single(n) => n in nodes && nodes[n].indirect == b
    case Double(n) => n in nodes && nodes[n].dbIndirect == b
    case Leaf(n, k) => n in nodes && nodes[n].dbIndirect != 0 && Slot(index, nodes[n].dbIndirect, k) == b
  }

  ghost predicate Counted(fs: Fs) {
    && FirstFree(fs.ninos) <= fs.next <= fs.ninos <= IMAGE_BLOCKS
    && fs.unused == fs.ninos - fs.next
    && (forall b: nat :: b in fs.use <==> b == ROOT || FirstFree(fs.ninos) <= b < fs.next)
    && Used(fs, ROOT, Node)
    && |fs.entry| == 256
  }

  /** Which blocks are held in which form follows from their use. */
  ghost predicate Sorted(fs: Fs) {
    && (forall b: nat :: b in fs.nodes <==> Used(fs, b, Node))
    && (forall b: nat :: b in fs.index ==>
      b in fs.use && !fs.use[b].Node? && !fs.use[b].Data? && |fs.index[b]| == ENTRIES)
    && (forall b: nat :: b in fs.use && !fs.use[b].Node? && !fs.use[b].Data? ==> b in fs.index)
    && (forall b: nat :: b in fs.disk ==> b in fs.use && fs.use[b].Data? && |fs.disk[b]| == BLOCK_SIZE)
    && (forall b: nat :: b in fs.use && fs.use[b].Data? ==> b in fs.disk)
  }

  /** Every allocated block but `pending` is reached; pending is allocated and not yet appended. */
  ghost predicate Whole(fs: Fs, pending: nat) {
    && Counted(fs) && Sorted(fs)
    && (forall n: nat :: n in fs.nodes ==> Mapped(fs, n, fs.nodes[n]))
    && (forall b: nat :: b in fs.use && b != pending ==> Reached(fs.nodes, fs.index, b, fs.use[b]))
    && (forall r: nat :: r in fs.known ==> fs.known[r] in fs.nodes)
  }

  ghost predicate Good(fs: Fs) {
    Whole(fs, 0)
  }

  // ---- one appended block ----

  ghost predicate SameLookups(index: Index, index': Index, node: Inode, node': Inode, count: nat) {
    forall i: nat :: i < count ==> Lookup(index', node', i) == Lookup(index, node, i)
  }

  ghost predicate PointsFor(u: Use, n: nat) {
    (u.Single? || u.Double? || u.Leaf?) && u.ino == n
  }

  /** Uses are only added, and the only pointer blocks that change are those of inode n. */
  ghost predicate OnlyFor(fs: Fs, f: Fs, n: nat) {
    && (forall b :: b in fs.use ==> b in f.use && f.use[b] == fs.use[b])
    && (forall b :: b in fs.use && !PointsFor(fs.use[b], n) && b in fs.index ==>
      b in f.index && f.index[b] == fs.index[b])
    && (forall b :: b in fs.use && !PointsFor(fs.use[b], n) && b in f.index ==> b in fs.index)
  }

  lemma OtherNode(fs: Fs, f: Fs, n: nat, m: nat, node: Inode)
    requires Mapped(fs, m, node) && OnlyFor(fs, f, n) && m != n
    ensures SameLookups(fs.index, f.index, node, node, node.blocks)
    ensures PointersOk(f, m, node, node.blocks)
  {
    forall b: nat, i: nat, u: Use | Used(fs, b, u) && u in {Single(m), Double(m)}
      ensures Slot(f.index, b, i) == Slot(fs.index, b, i)
    {
    }
    forall i: nat | i < node.blocks ensures Lookup(f.index, node, i) == Lookup(fs.index, node, i) {
      if i >= SINGLE {
        var k := (i - SINGLE) / ENTRIES;
        assert LeafOk(fs, m, k, Slot(fs.index, node.dbIndirect, k), node.blocks);
      }
    }
    if node.blocks > SINGLE {
      forall k: nat | k < ENTRIES ensures LeafOk(f, m, k, Slot(f.index, node.dbIndirect, k), node.blocks) {
        assert LeafOk(fs, m, k, Slot(fs.index, node.dbIndirect, k), node.blocks);
      }
    }
  }

  /** What asking for a pointer block gives: the block the slot names, or a new zeroed one. */
  ghost predicate Provided(fs: Fs, f: Fs, b: nat, l: nat, u: Use) {
    && Counted(f) && Sorted(f) && Used(f, l, u) && l != 0 && l in f.index && |f.index[l]| == ENTRIES
    && (if b != 0 then f == fs && l == b else
        && l !in fs.use && l !in fs.index
        && f == fs.(next := f.next, unused := f.unused, index := fs.index[l := Zeros()], use := fs.use[l := u]))
  }

  lemma PointersProvided(fs: Fs, b: nat, u: Use)
    requires Counted(fs) && Sorted(fs) && (b == 0 || Used(fs, b, u)) && (u.Single? || u.Double? || u.Leaf?)
    requires Pointers(fs, b, u).Some?
    ensures Provided(fs, Pointers(fs, b, u).value.0, b, Pointers(fs, b, u).value.1, u)
  {
    if b == 0 {
      var f := Pointers(fs, b, u).value.0;
      assert f.use.Keys == fs.use.Keys + {fs.next};
      assert Counted(f);
    }
  }

  lemma ZeroUnused(fs: Fs)
    requires Counted(fs)
    ensures 0 !in fs.use
  {
  }

  lemma SetSlotSorted(fs: Fs, l: nat, i: nat, v: nat)
    requires Counted(fs) && Sorted(fs)
    ensures var f := fs.(index := SetSlot(fs.index, l, i, v)); Counted(f) && Sorted(f)
  {
  }

  /** What the pointer writes do for the inode itself. */
  ghost predicate Placed(fs: Fs, f: Fs, n: nat, b: nat)
    requires n in fs.nodes
  {
    var node := fs.nodes[n];
    && n in f.nodes && |f.nodes[n].direct| == DIRECT
    && f.nodes == fs.nodes[n := f.nodes[n]]
    && f.nodes[n]
      == node.(direct := f.nodes[n].direct, indirect := f.nodes[n].indirect, dbIndirect := f.nodes[n].dbIndirect)
    && f == fs.(next := f.next, unused := f.unused, nodes := f.nodes, index := f.index, use := f.use)
    && OnlyFor(fs, f, n) && Counted(f) && Sorted(f)
    && SameLookups(fs.index, f.index, node, f.nodes[n], node.blocks)
    && Lookup(f.index, f.nodes[n], node.blocks) == b
    && PointersOk(f, n, f.nodes[n], node.blocks + 1)
  }

  lemma NodeUpdated(fs: Fs, f: Fs, n: nat, node: Inode)
    requires Counted(fs) && Sorted(fs) && n in fs.nodes
    requires f == fs.(nodes := fs.nodes[n := node])
    ensures Counted(f) && Sorted(f)
  {
    assert f.nodes.Keys == fs.nodes.Keys;
  }

  lemma PlaceDirect(fs: Fs, n: nat, b: nat)
    requires Counted(fs) && Sorted(fs) && n in fs.nodes && Mapped(fs, n, fs.nodes[n]) && fs.nodes[n].blocks < DIRECT
    ensures Place(fs, n, b).Some? && Placed(fs, Place(fs, n, b).value, n, b)
  {
    hide Counted, Sorted, Used;
    var f := Place(fs, n, b).value;
    NodeUpdated(fs, f, n, f.nodes[n]);
  }

  lemma PlaceSingle(fs: Fs, n: nat, b: nat)
    requires Counted(fs) && Sorted(fs) && n in fs.nodes && Mapped(fs, n, fs.nodes[n])
    requires DIRECT <= fs.nodes[n].blocks < SINGLE && Place(fs, n, b).Some?
    ensures Placed(fs, Place(fs, n, b).value, n, b)
  {
    hide Counted, Sorted, Pointers, OnlyFor;
    ZeroUnused(fs);
    var node := fs.nodes[n];
    PointersProvided(fs, node.indirect, Single(n));
    var (f, l1) := Pointers(fs, node.indirect, Single(n)).value;
    var g := Place(fs, n, b).value;
    NodeUpdated(f, f.(nodes := g.nodes), n, node.(indirect := l1));
    SetSlotSorted(f.(nodes := g.nodes), l1, node.blocks - DIRECT, b);
    OwnSlot(fs, f, n, node.indirect, l1, Single(n), node.blocks - DIRECT, b, g);
  }

  lemma ProvidedOnly(fs: Fs, f: Fs, n: nat, b: nat, l: nat, u: Use)
    requires Provided(fs, f, b, l, u) && PointsFor(u, n)
    ensures OnlyFor(fs, f, n)
  {
    hide Counted, Sorted;
  }

  lemma SetSlotOnly(fs: Fs, n: nat, l: nat, u: Use, i: nat, v: nat)
    requires Used(fs, l, u) && PointsFor(u, n)
    ensures OnlyFor(fs, fs.(index := SetSlot(fs.index, l, i, v)), n)
  {
  }

  lemma OnlyForTrans(fs: Fs, f: Fs, g: Fs, n: nat)
    requires OnlyFor(fs, f, n) && OnlyFor(f, g, n)
    ensures OnlyFor(fs, g, n)
  {
  }

  /** Providing a pointer block for inode n and setting one of its slots touches nothing else. */
  lemma OwnSlot(fs: Fs, f: Fs, n: nat, b: nat, l: nat, u: Use, i: nat, v: nat, g: Fs)
    requires Provided(fs, f, b, l, u) && PointsFor(u, n) && i < ENTRIES
    requires g.use == f.use && g.index == SetSlot(f.index, l, i, v)
    ensures OnlyFor(fs, g, n)
  {
    hide Counted, Sorted, OnlyFor, SetSlot;
    ProvidedOnly(fs, f, n, b, l, u);
    SetSlotOnly(f, n, l, u, i, v);
    OnlyForTrans(fs, f, f.(index := g.index), n);
    SameParts(fs, f.(index := g.index), g, n);
  }

  lemma SameParts(fs: Fs, f: Fs, g: Fs, n: nat)
    requires OnlyFor(fs, f, n) && g.use == f.use && g.index == f.index
    ensures OnlyFor(fs, g, n)
  {
  }

  /** The pointer block chosen for leaf k, before it is written. */
  ghost predicate LeafChosen(fs: Fs, n: nat, f: Fs, l2: nat, g: Fs, l1: nat)
    requires n in fs.nodes
  {
    var node := fs.nodes[n];
    var k := (node.blocks - SINGLE) / ENTRIES;
    && node.blocks >= SINGLE
    && Provided(fs, f, node.dbIndirect, l2, Double(n))
    && Provided(f, g, Slot(f.index, l2, k), l1, Leaf(n, k))
  }

  lemma LeafFound(fs: Fs, n: nat, f: Fs, l2: nat)
    requires Counted(fs) && n in fs.nodes && Mapped(fs, n, fs.nodes[n]) && SINGLE <= fs.nodes[n].blocks < MAX_BLOCKS
    requires Provided(fs, f, fs.nodes[n].dbIndirect, l2, Double(n))
    ensures var k := (fs.nodes[n].blocks - SINGLE) / ENTRIES;
            LeafOk(f, n, k, Slot(f.index, l2, k), fs.nodes[n].blocks)
  {
    hide Sorted;
    var node := fs.nodes[n];
    var k := (node.blocks - SINGLE) / ENTRIES;
    if node.blocks > SINGLE {
      assert LeafOk(fs, n, k, Slot(fs.index, node.dbIndirect, k), node.blocks);
    }
  }

  lemma DoubleLookups(fs: Fs, n: nat, f: Fs, l2: nat, g: Fs, l1: nat, b: nat, index: Index, node': Inode)
    requires Counted(fs) && n in fs.nodes && Mapped(fs, n, fs.nodes[n]) && LeafChosen(fs, n, f, l2, g, l1)
    requires fs.nodes[n].blocks < MAX_BLOCKS && node' == fs.nodes[n].(dbIndirect := l2)
    requires var q := fs.nodes[n].blocks - SINGLE;
             index == SetSlot(SetSlot(g.index, l2, q / ENTRIES, l1), l1, q % ENTRIES, b)
    ensures SameLookups(fs.index, index, fs.nodes[n], node', fs.nodes[n].blocks)
    ensures Lookup(index, node', fs.nodes[n].blocks) == b
  {
    hide Counted, Sorted;
    ZeroUnused(fs);
    LeafFound(fs, n, f, l2);
    var node := fs.nodes[n];
    assert l1 != l2;
    forall i: nat | i < node.blocks ensures Lookup(index, node', i) == Lookup(fs.index, node, i) {
      if i >= SINGLE {
        LeafLookup(fs, n, f, l2, g, l1, b, index, i);
      }
    }
  }

  lemma LeafLookup(fs: Fs, n: nat, f: Fs, l2: nat, g: Fs, l1: nat, b: nat, index: Index, i: nat)
    requires Counted(fs) && n in fs.nodes && Mapped(fs, n, fs.nodes[n]) && LeafChosen(fs, n, f, l2, g, l1)
    requires SINGLE <= i < fs.nodes[n].blocks < MAX_BLOCKS
    requires var q := fs.nodes[n].blocks - SINGLE;
             index == SetSlot(SetSlot(g.index, l2, q / ENTRIES, l1), l1, q % ENTRIES, b)
    ensures Lookup(index, fs.nodes[n].(dbIndirect := l2), i) == Lookup(fs.index, fs.nodes[n], i)
  {
    hide Counted, Sorted;
    ZeroUnused(fs);
    LeafFound(fs, n, f, l2);
    var node := fs.nodes[n];
    var k := (i - SINGLE) / ENTRIES;
    assert LeafOk(fs, n, k, Slot(fs.index, node.dbIndirect, k), node.blocks);
    var leaf := Slot(fs.index, node.dbIndirect, k);
    assert l2 == node.dbIndirect && f == fs;
    assert Slot(index, l2, k) == leaf;
  }

  lemma DoublePointers(fs: Fs, n: nat, f: Fs, l2: nat, g: Fs, l1: nat, b: nat, h: Fs, node': Inode)
    requires Counted(fs) && n in fs.nodes && Mapped(fs, n, fs.nodes[n]) && LeafChosen(fs, n, f, l2, g, l1)
    requires fs.nodes[n].blocks < MAX_BLOCKS && node' == fs.nodes[n].(dbIndirect := l2)
    requires h.use == g.use
    requires var q := fs.nodes[n].blocks - SINGLE;
             h.index == SetSlot(SetSlot(g.index, l2, q / ENTRIES, l1), l1, q % ENTRIES, b)
    ensures PointersOk(h, n, node', fs.nodes[n].blocks + 1)
  {
    hide Counted, Sorted;
    ZeroUnused(fs);
    var node := fs.nodes[n];
    assert l1 != l2;
    forall k: nat | k < ENTRIES ensures LeafOk(h, n, k, Slot(h.index, l2, k), node.blocks + 1) {
      LeafKept(fs, n, f, l2, g, l1, b, h, k);
    }
  }

  lemma LeafKept(fs: Fs, n: nat, f: Fs, l2: nat, g: Fs, l1: nat, b: nat, h: Fs, k: nat)
    requires Counted(fs) && n in fs.nodes && Mapped(fs, n, fs.nodes[n]) && LeafChosen(fs, n, f, l2, g, l1)
    requires fs.nodes[n].blocks < MAX_BLOCKS && h.use == g.use && l1 != l2 && k < ENTRIES
    requires var q := fs.nodes[n].blocks - SINGLE;
             h.index == SetSlot(SetSlot(g.index, l2, q / ENTRIES, l1), l1, q % ENTRIES, b)
    ensures LeafOk(h, n, k, Slot(h.index, l2, k), fs.nodes[n].blocks + 1)
  {
    hide Counted, Sorted;
    ZeroUnused(fs);
    var node := fs.nodes[n];
    var q := node.blocks - SINGLE;
    if k == q / ENTRIES {
      assert Slot(h.index, l2, k) == l1;
    } else {
      assert Slot(h.index, l2, k) == Slot(f.index, l2, k);
      if node.blocks > SINGLE {
        assert LeafOk(fs, n, k, Slot(fs.index, node.dbIndirect, k), node.blocks);
      }
    }
  }

  lemma PlaceDouble(fs: Fs, n: nat, b: nat)
    requires Counted(fs) && Sorted(fs) && n in fs.nodes && Mapped(fs, n, fs.nodes[n])
    requires SINGLE <= fs.nodes[n].blocks < MAX_BLOCKS && Place(fs, n, b).Some?
    ensures Placed(fs, Place(fs, n, b).value, n, b)
  {
    hide Counted, Sorted, Pointers, OnlyFor, Mapped, SetSlot, SameLookups, Lookup, Slot, PointersOk;
    var node := fs.nodes[n];
    var q := node.blocks - SINGLE;
    DoubleFacts(fs, n);
    PointersProvided(fs, node.dbIndirect, Double(n));
    var (f, l2) := Pointers(fs, node.dbIndirect, Double(n)).value;
    LeafFound(fs, n, f, l2);
    LeafState(f, n, q / ENTRIES, Slot(f.index, l2, q / ENTRIES), node.blocks);
    PointersProvided(f, Slot(f.index, l2, q / ENTRIES), Leaf(n, q / ENTRIES));
    var (g, l1) := Pointers(f, Slot(f.index, l2, q / ENTRIES), Leaf(n, q / ENTRIES)).value;
    var h := Place(fs, n, b).value;
    var node' := node.(dbIndirect := l2);
    DoubleLookups(fs, n, f, l2, g, l1, b, h.index, node');
    DoublePointers(fs, n, f, l2, g, l1, b, h, node');
    DoubleSorted(g, n, node', l2, q / ENTRIES, l1, q % ENTRIES, b, h);
    DoubleOnly(fs, f, n, l2, g, l1, q / ENTRIES, b, q % ENTRIES, h);
  }

  lemma DoubleSorted(g: Fs, n: nat, node': Inode, l2: nat, k: nat, l1: nat, i: nat, b: nat, h: Fs)
    requires Counted(g) && Sorted(g) && n in g.nodes
    requires h == g.(nodes := g.nodes[n := node'], index := SetSlot(SetSlot(g.index, l2, k, l1), l1, i, b))
    ensures Counted(h) && Sorted(h)
  {
    hide Counted, Sorted, SetSlot;
    var f1 := g.(nodes := g.nodes[n := node']);
    NodeUpdated(g, f1, n, node');
    SetSlotSorted(f1, l2, k, l1);
    SetSlotSorted(f1.(index := SetSlot(f1.index, l2, k, l1)), l1, i, b);
  }

  lemma DoubleFacts(fs: Fs, n: nat)
    requires n in fs.nodes && Mapped(fs, n, fs.nodes[n]) && fs.nodes[n].blocks >= SINGLE
    ensures |fs.nodes[n].direct| == DIRECT
    ensures fs.nodes[n].dbIndirect == 0 || Used(fs, fs.nodes[n].dbIndirect, Double(n))
  {
  }

  lemma LeafState(f: Fs, n: nat, k: nat, leaf: nat, count: nat)
    requires LeafOk(f, n, k, leaf, count)
    ensures leaf == 0 || Used(f, leaf, Leaf(n, k))
  {
  }

  lemma DoubleOnly(fs: Fs, f: Fs, n: nat, l2: nat, g: Fs, l1: nat, k: nat, b: nat, i: nat, h: Fs)
    requires n in fs.nodes && k < ENTRIES && i < ENTRIES
    requires Provided(fs, f, fs.nodes[n].dbIndirect, l2, Double(n))
    requires Provided(f, g, Slot(f.index, l2, k), l1, Leaf(n, k))
    requires h.use == g.use && h.index == SetSlot(SetSlot(g.index, l2, k, l1), l1, i, b)
    ensures OnlyFor(fs, h, n)
  {
    hide Counted, Sorted, Slot, OnlyFor, SetSlot;
    ProvidedOnly(fs, f, n, fs.nodes[n].dbIndirect, l2, Double(n));
    ProvidedOnly(f, g, n, Slot(f.index, l2, k), l1, Leaf(n, k));
    OnlyForTrans(fs, f, g, n);
    assert Used(g, l2, Double(n));
    SetSlotOnly(g, n, l2, Double(n), k, l1);
    var g1 := g.(index := SetSlot(g.index, l2, k, l1));
    OnlyForTrans(fs, g, g1, n);
    SetSlotOnly(g1, n, l1, Leaf(n, k), i, b);
    var g2 := g1.(index := h.index);
    OnlyForTrans(fs, g1, g2, n);
    SameParts(fs, g2, h, n);
  }

  // ---- every pointer block stays reached ----

  /** The pointer blocks of inode n that were reached still are, and so are the new ones. */
  ghost predicate PointersReached(fs: Fs, f: Fs, n: nat) {
    && (forall b :: b in f.use && b !in fs.use ==> PointsFor(f.use[b], n))
    && (forall b :: b in f.use && PointsFor(f.use[b], n) && (b in fs.use ==> Reached(fs.nodes, fs.index, b, f.use[b]))
          ==> Reached(f.nodes, f.index, b, f.use[b]))
  }

  lemma DirectReached(fs: Fs, n: nat, b: nat)
    requires n in fs.nodes && |fs.nodes[n].direct| == DIRECT && fs.nodes[n].blocks < DIRECT
    ensures PointersReached(fs, Place(fs, n, b).value, n)
  {
  }

  lemma SingleReached(fs: Fs, n: nat, f: Fs, l1: nat, i: nat, b: nat, g: Fs)
    requires Counted(fs) && n in fs.nodes && Mapped(fs, n, fs.nodes[n])
    requires DIRECT <= fs.nodes[n].blocks < SINGLE
    requires Provided(fs, f, fs.nodes[n].indirect, l1, Single(n)) && i < ENTRIES
    requires g.use == f.use && g.index == SetSlot(f.index, l1, i, b)
    requires g.nodes == fs.nodes[n := fs.nodes[n].(indirect := l1)]
    ensures PointersReached(fs, g, n)
  {
    hide Counted, Sorted, SetSlot;
    ZeroUnused(fs);
    forall x | x in g.use && PointsFor(g.use[x], n) && (x in fs.use ==> Reached(fs.nodes, fs.index, x, g.use[x]))
      ensures Reached(g.nodes, g.index, x, g.use[x])
    {
    }
  }

  lemma DoubleReached(fs: Fs, n: nat, f: Fs, l2: nat, g: Fs, l1: nat, b: nat, h: Fs)
    requires Counted(fs) && n in fs.nodes && Mapped(fs, n, fs.nodes[n]) && LeafChosen(fs, n, f, l2, g, l1)
    requires fs.nodes[n].blocks < MAX_BLOCKS && h.use == g.use
    requires h.nodes == fs.nodes[n := fs.nodes[n].(dbIndirect := l2)]
    requires var q := fs.nodes[n].blocks - SINGLE;
             h.index == SetSlot(SetSlot(g.index, l2, q / ENTRIES, l1), l1, q % ENTRIES, b)
    ensures PointersReached(fs, h, n)
  {
    hide Counted, Sorted, Mapped;
    ZeroUnused(fs);
    assert l1 != l2;
    forall x | x in h.use && PointsFor(h.use[x], n) && (x in fs.use ==> Reached(fs.nodes, fs.index, x, h.use[x]))
      ensures Reached(h.nodes, h.index, x, h.use[x])
    {
      LeafReached(fs, n, f, l2, g, l1, b, h, x);
    }
  }

  lemma LeafReached(fs: Fs, n: nat, f: Fs, l2: nat, g: Fs, l1: nat, b: nat, h: Fs, x: nat)
    requires Counted(fs) && n in fs.nodes && Mapped(fs, n, fs.nodes[n]) && LeafChosen(fs, n, f, l2, g, l1)
    requires fs.nodes[n].blocks < MAX_BLOCKS && h.use == g.use && l1 != l2
    requires h.nodes == fs.nodes[n := fs.nodes[n].(dbIndirect := l2)]
    requires var q := fs.nodes[n].blocks - SINGLE;
             h.index == SetSlot(SetSlot(g.index, l2, q / ENTRIES, l1), l1, q % ENTRIES, b)
    requires x in h.use && PointsFor(h.use[x], n) && (x in fs.use ==> Reached(fs.nodes, fs.index, x, h.use[x]))
    ensures Reached(h.nodes, h.index, x, h.use[x])
  {
    hide Counted, Sorted, Mapped;
    ZeroUnused(fs);
    var k := (fs.nodes[n].blocks - SINGLE) / ENTRIES;
    assert Slot(h.index, l2, k) == l1;
    match h.use[x]
    case Leaf(_, j) =>
      if x in fs.use && x != l1 {
        assert Slot(h.index, l2, j) == Slot(f.index, l2, j);
      }
    case _ =>
  }

  lemma PlaceReached(fs: Fs, n: nat, b: nat)
    requires Counted(fs) && Sorted(fs) && n in fs.nodes && Mapped(fs, n, fs.nodes[n])
    requires fs.nodes[n].blocks < MAX_BLOCKS && Place(fs, n, b).Some?
    ensures PointersReached(fs, Place(fs, n, b).value, n)
  {
    hide Counted, Sorted, Pointers, PointersReached, PointersOk, Lookup, Slot, SetSlot, Reached;
    var node := fs.nodes[n];
    if node.blocks < DIRECT {
      DirectReached(fs, n, b);
    } else if node.blocks < SINGLE {
      IndirectFacts(fs, n);
      PointersProvided(fs, node.indirect, Single(n));
      var (f, l1) := Pointers(fs, node.indirect, Single(n)).value;
      SingleReached(fs, n, f, l1, node.blocks - DIRECT, b, Place(fs, n, b).value);
    } else {
      var q := node.blocks - SINGLE;
      DoubleFacts(fs, n);
      PointersProvided(fs, node.dbIndirect, Double(n));
      var (f, l2) := Pointers(fs, node.dbIndirect, Double(n)).value;
      LeafFound(fs, n, f, l2);
      LeafState(f, n, q / ENTRIES, Slot(f.index, l2, q / ENTRIES), node.blocks);
      PointersProvided(f, Slot(f.index, l2, q / ENTRIES), Leaf(n, q / ENTRIES));
      var (g, l1) := Pointers(f, Slot(f.index, l2, q / ENTRIES), Leaf(n, q / ENTRIES)).value;
      DoubleReached(fs, n, f, l2, g, l1, b, Place(fs, n, b).value);
    }
  }

  lemma IndirectFacts(fs: Fs, n: nat)
    requires n in fs.nodes && Mapped(fs, n, fs.nodes[n])
    ensures fs.nodes[n].indirect == 0 || Used(fs, fs.nodes[n].indirect, Single(n))
  {
  }

  lemma PlacePlaced(fs: Fs, n: nat, b: nat)
    requires Counted(fs) && Sorted(fs) && n in fs.nodes && Mapped(fs, n, fs.nodes[n])
    requires fs.nodes[n].blocks < MAX_BLOCKS && Place(fs, n, b).Some?
    ensures Placed(fs, Place(fs, n, b).value, n, b)
  {
    hide Counted, Sorted, Pointers, Placed, Mapped;
    if fs.nodes[n].blocks < DIRECT {
      PlaceDirect(fs, n, b);
    } else if fs.nodes[n].blocks < SINGLE {
      PlaceSingle(fs, n, b);
    } else {
      PlaceDouble(fs, n, b);
    }
  }

  /** The step keeps the blocks of every other inode and adds b after those of inode n. */
  ghost predicate Appended(fs: Fs, g: Fs, n: nat, size: nat, b: nat)
    requires n in fs.nodes
  {
    && g.nodes.Keys == fs.nodes.Keys
    && g == fs.(next := g.next, unused := g.unused, nodes := g.nodes, index := g.index, use := g.use)
    && (forall m :: m in fs.nodes && m != n ==>
      g.nodes[m] == fs.nodes[m] && Blocks(g.index, g.nodes[m]) == Blocks(fs.index, fs.nodes[m]))
    && Blocks(g.index, g.nodes[n]) == Blocks(fs.index, fs.nodes[n]) + [b]
    && g.nodes[n].kind == fs.nodes[n].kind && g.nodes[n].nlinks == fs.nodes[n].nlinks
    && g.nodes[n].size == fs.nodes[n].size + size
  }

  lemma AppendBlocks(fs: Fs, n: nat, size: nat, b: nat)
    requires Whole(fs, b) && n in fs.nodes && Used(fs, b, Data(n, fs.nodes[n].blocks))
    requires |fs.nodes[n].direct| == DIRECT && Append(fs, n, size, b).Some?
    ensures Appended(fs, Append(fs, n, size, b).value, n, size, b)
  {
    hide Counted, Sorted, Place, OnlyFor, PointersOk, Mapped, Lookup, Reached, Used;
    PlacePlaced(fs, n, b);
    var f := Place(fs, n, b).value;
    var g := Append(fs, n, size, b).value;
    forall m | m in fs.nodes && m != n ensures Blocks(g.index, g.nodes[m]) == Blocks(fs.index, fs.nodes[m]) {
      OtherNode(fs, f, n, m, fs.nodes[m]);
    }
    SameNode(f.index, f.nodes[n], g.nodes[n]);
  }

  lemma SameNode(index: Index, node: Inode, node': Inode)
    requires node'.direct == node.direct && node'.indirect == node.indirect && node'.dbIndirect == node.dbIndirect
    ensures forall i: nat :: Lookup(index, node', i) == Lookup(index, node, i)
  {
  }

  lemma AppendMapped(fs: Fs, n: nat, size: nat, b: nat, m: nat)
    requires Whole(fs, b) && n in fs.nodes && Used(fs, b, Data(n, fs.nodes[n].blocks)) && m in fs.nodes
    requires |fs.nodes[n].direct| == DIRECT && Append(fs, n, size, b).Some?
    ensures var g := Append(fs, n, size, b).value; m in g.nodes && Mapped(g, m, g.nodes[m])
  {
    hide Counted, Sorted, Place, Reached, Lookup, Slot, Mapped, SameLookups, PointersOk, OnlyFor;
    PlacePlaced(fs, n, b);
    var f := Place(fs, n, b).value;
    if m != n {
      OtherMapped(fs, f, n, m, b, Append(fs, n, size, b).value);
    } else {
      OwnMapped(fs, f, n, size, b, Append(fs, n, size, b).value);
    }
  }

  lemma OtherMapped(fs: Fs, f: Fs, n: nat, m: nat, b: nat, g: Fs)
    requires n in fs.nodes && m in fs.nodes && m != n && Mapped(fs, m, fs.nodes[m]) && Placed(fs, f, n, b)
    requires g == f.(nodes := g.nodes) && m in g.nodes && g.nodes[m] == f.nodes[m]
    ensures Mapped(g, m, g.nodes[m])
  {
    hide Counted, Sorted, Lookup, Slot;
    OtherNode(fs, f, n, m, fs.nodes[m]);
  }

  lemma OwnMapped(fs: Fs, f: Fs, n: nat, size: nat, b: nat, g: Fs)
    requires n in fs.nodes && Mapped(fs, n, fs.nodes[n]) && Placed(fs, f, n, b) && fs.nodes[n].blocks < MAX_BLOCKS
    requires Used(fs, b, Data(n, fs.nodes[n].blocks))
    requires g == f.(nodes := f.nodes[n := f.nodes[n].(size := f.nodes[n].size + size,
      blocks := f.nodes[n].blocks + 1)])
    ensures Mapped(g, n, g.nodes[n])
  {
    hide Counted, Sorted, Lookup, Slot;
    SameNode(f.index, f.nodes[n], g.nodes[n]);
  }

  lemma AppendReached(fs: Fs, n: nat, size: nat, b: nat, x: nat)
    requires Whole(fs, b) && n in fs.nodes && Used(fs, b, Data(n, fs.nodes[n].blocks))
    requires |fs.nodes[n].direct| == DIRECT && Append(fs, n, size, b).Some?
    requires x in Append(fs, n, size, b).value.use
    ensures var g := Append(fs, n, size, b).value; Reached(g.nodes, g.index, x, g.use[x])
  {
    hide Counted, Sorted, Place, PointersOk, Lookup, Slot;
    PlacePlaced(fs, n, b);
    PlaceReached(fs, n, b);
    var f := Place(fs, n, b).value;
    var g := Append(fs, n, size, b).value;
    SameNode(f.index, f.nodes[n], g.nodes[n]);
    if !PointsFor(g.use[x], n) && g.use[x].Leaf? {
      OtherLeaf(fs, f, n, g.use[x].ino, g.use[x].k);
    } else if g.use[x].Data? && g.use[x].ino in fs.nodes && g.use[x].ino != n {
      OtherNode(fs, f, n, g.use[x].ino, fs.nodes[g.use[x].ino]);
    }
  }

  lemma OtherLeaf(fs: Fs, f: Fs, n: nat, m: nat, k: nat)
    requires OnlyFor(fs, f, n) && m != n && m in fs.nodes && Mapped(fs, m, fs.nodes[m]) && fs.nodes[m].dbIndirect != 0
    ensures Slot(f.index, fs.nodes[m].dbIndirect, k) == Slot(fs.index, fs.nodes[m].dbIndirect, k)
  {
    hide Lookup;
    assert Used(fs, fs.nodes[m].dbIndirect, Double(m));
  }

  /** append_block keeps the whole invariant: every allocated block has one use and is reached for it. */
  lemma AppendWhole(fs: Fs, n: nat, size: nat, b: nat)
    requires Whole(fs, b) && n in fs.nodes && Used(fs, b, Data(n, fs.nodes[n].blocks))
    requires |fs.nodes[n].direct| == DIRECT && Append(fs, n, size, b).Some?
    ensures Good(Append(fs, n, size, b).value)
  {
    hide Counted, Sorted, Place, Mapped, Reached;
    PlacePlaced(fs, n, b);
    var f := Place(fs, n, b).value;
    var g := Append(fs, n, size, b).value;
    NodeUpdated(f, g, n, g.nodes[n]);
    forall m | m in g.nodes ensures Mapped(g, m, g.nodes[m]) {
      AppendMapped(fs, n, size, b, m);
    }
    forall x | x in g.use ensures Reached(g.nodes, g.index, x, g.use[x]) {
      AppendReached(fs, n, size, b, x);
    }
  }
}
