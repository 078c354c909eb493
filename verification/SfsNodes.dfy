/** The steps of the image builder that take blocks: add a data block to an inode, make an inode,
  * count a link; what each keeps, and when there is no room for it (lab8/tools/mksfs.c).
  */
module SfsNodes {
  import opened Options
  import opened SfsBlocks

  /** Allocating and writing a block leaves everything in order except that the block is pending. */
  lemma TakeWhole(fs: Fs, n: nat, bytes: seq<byte>)
    requires Good(fs) && n in fs.nodes && |bytes| == BLOCK_SIZE && fs.next < fs.ninos
    ensures var f := Take(fs, Data(n, fs.nodes[n].blocks)).value.(disk := fs.disk[fs.next := bytes]);
            Whole(f, fs.next) && Used(f, fs.next, Data(n, fs.nodes[n].blocks))
  {
    hide Counted, Sorted, Mapped, Reached;
    var f := Take(fs, Data(n, fs.nodes[n].blocks)).value.(disk := fs.disk[fs.next := bytes]);
    NextUnused(fs);
    TakeSorted(fs, n, bytes);
    forall m | m in f.nodes ensures Mapped(f, m, f.nodes[m]) {
      MoreUse(fs, f, m, f.nodes[m]);
    }
  }

  lemma NextUnused(fs: Fs)
    requires Counted(fs)
    ensures 0 !in fs.use && fs.next !in fs.use && fs.next != 0
  {
  }

  lemma TakeSorted(fs: Fs, n: nat, bytes: seq<byte>)
    requires Counted(fs) && Sorted(fs) && n in fs.nodes && |bytes| == BLOCK_SIZE && fs.next < fs.ninos
    ensures var f := Take(fs, Data(n, fs.nodes[n].blocks)).value.(disk := fs.disk[fs.next := bytes]);
            Counted(f) && Sorted(f)
  {
  }

  lemma MoreUse(fs: Fs, f: Fs, m: nat, node: Inode)
    requires Mapped(fs, m, node) && f.index == fs.index
    requires forall b :: b in fs.use ==> b in f.use && f.use[b] == fs.use[b]
    ensures Mapped(f, m, node)
  {
    hide Lookup, Slot;
    if node.blocks > SINGLE {
      forall k: nat | k < ENTRIES ensures LeafOk(f, m, k, Slot(f.index, node.dbIndirect, k), node.blocks) {
        assert LeafOk(fs, m, k, Slot(fs.index, node.dbIndirect, k), node.blocks);
      }
    }
  }

  /** The state after a data block was added to inode n. */
  ghost predicate Added(fs: Fs, g: Fs, n: nat, size: nat, bytes: seq<byte>)
    requires n in fs.nodes
  {
    && Good(g) && g.ninos == fs.ninos && fs.next < g.next && g.known == fs.known && g.entry == fs.entry
    && fs.next !in fs.use && g.disk == fs.disk[fs.next := bytes]
    && g.nodes.Keys == fs.nodes.Keys
    && (forall m :: m in fs.nodes && m != n ==>
      g.nodes[m] == fs.nodes[m] && Blocks(g.index, g.nodes[m]) == Blocks(fs.index, fs.nodes[m]))
    && Blocks(g.index, g.nodes[n]) == Blocks(fs.index, fs.nodes[n]) + [fs.next]
    && g.nodes[n].kind == fs.nodes[n].kind && g.nodes[n].nlinks == fs.nodes[n].nlinks
    && g.nodes[n].size == fs.nodes[n].size + size
  }

  lemma WholeCounted(fs: Fs, pending: nat)
    requires Whole(fs, pending)
    ensures Counted(fs)
  {
  }

  lemma GoodDirect(fs: Fs, n: nat)
    requires Good(fs) && n in fs.nodes
    ensures |fs.nodes[n].direct| == DIRECT
  {
    assert Mapped(fs, n, fs.nodes[n]);
  }

  /** How many pointer blocks appending to an inode of k blocks takes. */
  function NewPointers(k: nat): nat {
    if k == DIRECT then 1
    else if k == SINGLE then 2
    else if k > SINGLE && (k - SINGLE) % ENTRIES == 0 then 1
    else 0
  }

  lemma PlaceFits(fs: Fs, n: nat, b: nat)
    requires Counted(fs) && n in fs.nodes && Mapped(fs, n, fs.nodes[n])
    ensures Place(fs, n, b).Some? <==> fs.next + NewPointers(fs.nodes[n].blocks) <= fs.ninos
    ensures Place(fs, n, b).Some? ==> Place(fs, n, b).value.next == fs.next + NewPointers(fs.nodes[n].blocks)
  {
    hide Lookup;
    ZeroUnused(fs);
    var node := fs.nodes[n];
    if node.blocks >= SINGLE {
      var k := (node.blocks - SINGLE) / ENTRIES;
      if node.blocks > SINGLE {
        assert LeafOk(fs, n, k, Slot(fs.index, node.dbIndirect, k), node.blocks);
      }
    }
  }

  /** A block can be added exactly when the inode has room and the image has the blocks it takes. */
  lemma AddBlockFits(fs: Fs, n: nat, size: nat, bytes: seq<byte>)
    requires Good(fs) && n in fs.nodes && |fs.nodes[n].direct| == DIRECT && |bytes| == BLOCK_SIZE
    ensures AddBlock(fs, n, size, bytes).Some?
            <==> fs.nodes[n].blocks < MAX_BLOCKS && fs.next + 1 + NewPointers(fs.nodes[n].blocks) <= fs.ninos
    ensures AddBlock(fs, n, size, bytes).Some? ==>
              AddBlock(fs, n, size, bytes).value.next == fs.next + 1 + NewPointers(fs.nodes[n].blocks)
  {
    hide Place, Mapped, Reached, Sorted;
    if fs.next < fs.ninos {
      TakeWhole(fs, n, bytes);
      var f := Take(fs, Data(n, fs.nodes[n].blocks)).value.(disk := fs.disk[fs.next := bytes]);
      PlaceFits(f, n, fs.next);
    }
  }

  lemma AddBlockGood(fs: Fs, n: nat, size: nat, bytes: seq<byte>)
    requires Good(fs) && n in fs.nodes && |bytes| == BLOCK_SIZE && |fs.nodes[n].direct| == DIRECT
    requires AddBlock(fs, n, size, bytes).Some?
    ensures Added(fs, AddBlock(fs, n, size, bytes).value, n, size, bytes)
  {
    hide Whole, Append, Blocks, Used;
    AddBlockFits(fs, n, size, bytes);
    TakeWhole(fs, n, bytes);
    WholeCounted(fs, 0);
    NextUnused(fs);
    var f := Take(fs, Data(n, fs.nodes[n].blocks)).value.(disk := fs.disk[fs.next := bytes]);
    AppendWhole(f, n, size, fs.next);
    AppendBlocks(f, n, size, fs.next);
  }

  /** Two numbers of any two inodes share a block only if they are the same; data blocks are never
    * inode or pointer blocks, and no allocated block lies in the superblock or the bitmap.
    */
  lemma NoBlockShared(fs: Fs, n: nat, i: nat, m: nat, j: nat)
    requires Good(fs) && n in fs.nodes && i < fs.nodes[n].blocks && m in fs.nodes && j < fs.nodes[m].blocks
    ensures Lookup(fs.index, fs.nodes[n], i) == Lookup(fs.index, fs.nodes[m], j) ==> n == m && i == j
    ensures var d := Lookup(fs.index, fs.nodes[n], i);
            d !in fs.nodes && d !in fs.index && d in fs.disk && FirstFree(fs.ninos) <= d < fs.ninos
  {
    assert Mapped(fs, n, fs.nodes[n]) && Mapped(fs, m, fs.nodes[m]);
    assert Used(fs, Lookup(fs.index, fs.nodes[n], i), Data(n, i));
    assert Used(fs, Lookup(fs.index, fs.nodes[m], j), Data(m, j));
  }

  // ---- inodes and links ----

  function Blank(kind: Kind): Inode {
    Inode(kind, 0, 0, 0, [0, 0, 0, 0, 0, 0, 0, 0, 0, 0, 0, 0], 0, 0)
  }

  /** A new inode for the host inode `host`. */
  function AddNode(fs: Fs, host: nat, kind: Kind): Option<Fs> {
    match Take(fs, Node)
    case None => None
    case Some(f) => Some(f.(nodes := fs.nodes[fs.next := Blank(kind)], known := fs.known[host := fs.next]))
  }

  /** inode.nlinks is a uint16_t: one more than 65535 is 0. */
  const LINKS: nat := 0x1_0000

  function AddLink(fs: Fs, n: nat): Fs
    requires n in fs.nodes
  {
    fs.(nodes := fs.nodes[n := fs.nodes[n].(nlinks := (fs.nodes[n].nlinks + 1) % LINKS)])
  }

  lemma AddNodeGood(fs: Fs, host: nat, kind: Kind)
    requires Good(fs) && AddNode(fs, host, kind).Some?
    ensures Good(AddNode(fs, host, kind).value)
    ensures fs.next !in fs.use && fs.next !in fs.nodes
  {
    hide Counted, Sorted, Mapped, Lookup, Slot;
    var f := AddNode(fs, host, kind).value;
    AddNodeSorted(fs, host, kind);
    forall m | m in f.nodes ensures Mapped(f, m, f.nodes[m]) {
      if m == fs.next {
        BlankMapped(f, m, kind);
      } else {
        MoreUse(fs, f, m, f.nodes[m]);
      }
    }
  }

  lemma BlankMapped(fs: Fs, n: nat, kind: Kind)
    ensures Mapped(fs, n, Blank(kind))
  {
  }

  lemma AddNodeSorted(fs: Fs, host: nat, kind: Kind)
    requires Counted(fs) && Sorted(fs) && AddNode(fs, host, kind).Some?
    ensures var f := AddNode(fs, host, kind).value; Counted(f) && Sorted(f)
    ensures fs.next !in fs.use && fs.next !in fs.nodes
  {
  }

  lemma AddLinkGood(fs: Fs, n: nat)
    requires Good(fs) && n in fs.nodes
    ensures Good(AddLink(fs, n))
  {
    hide Counted, Sorted, PointersOk;
    var f := AddLink(fs, n);
    NodeUpdated(fs, f, n, f.nodes[n]);
    SameNode(fs.index, fs.nodes[n], f.nodes[n]);
    forall m | m in f.nodes ensures Mapped(f, m, f.nodes[m]) {
      LinkMapped(fs, f, m, fs.nodes[m], f.nodes[m]);
    }
  }

  lemma LinkMapped(fs: Fs, f: Fs, m: nat, node: Inode, node': Inode)
    requires Mapped(fs, m, node) && f.index == fs.index && f.use == fs.use && node' == node.(nlinks := node'.nlinks)
    ensures Mapped(f, m, node')
  {
    SameNode(fs.index, node, node');
    MoreUse(fs, f, m, node);
  }
}
