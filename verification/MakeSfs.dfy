/** The image builder itself (lab8/tools/mksfs.c): cached inodes and pointer blocks in hash chains,
  * updated in place. Each method is proved against the functions of SfsBlocks, SfsNodes and SfsTree.
  */
module MakeSfs {
  import opened Options
  import opened SfsBlocks
  import opened SfsNodes
  import opened SfsEntries
  import opened SfsTree
  import opened SfsSteps
  import opened SfsRoundTrip
  import opened SfsImage

  const HASH_LIST_SIZE: nat := 1024

  /** __hash32 with ten bits: a 32-bit product, then its top ten bits. */
  function Hash32(v: nat): (h: nat)
    ensures h < HASH_LIST_SIZE
  {
    v % 0x1_0000_0000 * 0x9e370001 % 0x1_0000_0000 / 0x40_0000
  }

  class CacheBlock {
    const ino: nat
    const cache: array<nat>

    constructor (ino: nat)
      ensures this.ino == ino && fresh(cache) && cache[..] == Zeros()
    {
      this.ino := ino;
      this.cache := new nat[ENTRIES](_ => 0);
      new;
      assert cache[..] == Zeros();
    }
  }

  class CacheInode {
    const host: nat
    const ino: nat
    const kind: Kind
    var size: nat
    var nlinks: nat
    var blocks: nat
    var direct: seq<nat>
    var indirect: nat
    var dbIndirect: nat
    var nblks: nat
    var l1: CacheBlock?
    var l2: CacheBlock?

    constructor (host: nat, ino: nat, kind: Kind)
      ensures this.host == host && this.ino == ino && this.kind == kind && Record() == Blank(kind) && nblks == 0
        && l1 == null && l2 == null
    {
      this.host, this.ino, this.kind := host, ino, kind;
      size, nlinks, blocks := 0, 0, 0;
      direct := [0, 0, 0, 0, 0, 0, 0, 0, 0, 0, 0, 0];
      indirect, dbIndirect, nblks, l1, l2 := 0, 0, 0, null, null;
    }

    /** The on-disk part. */
    function Record(): Inode
      reads this
    {
      Inode(kind, size, nlinks, blocks, direct, indirect, dbIndirect)
    }
  }

  /** The first inode of a chain made for a host inode. */
  function First(chain: seq<CacheInode>, host: nat): CacheInode? {
    if chain == [] then null else if chain[0].host == host then chain[0] else First(chain[1..], host)
  }

  ghost predicate CachedFor(use: map<nat, Use>, blockAt: map<nat, CacheBlock>, cb: CacheBlock?, u: Use) {
    cb != null && cb.ino in blockAt && blockAt[cb.ino] == cb && cb.ino in use && use[cb.ino] == u
  }

  /** The cached pointer blocks of inode n, with `count` blocks, are the ones its next append uses. */
  ghost predicate Linked(use: map<nat, Use>, blockAt: map<nat, CacheBlock>, n: nat, count: nat, l1: CacheBlock?,
                         l2: CacheBlock?) {
    && (DIRECT < count < SINGLE ==> CachedFor(use, blockAt, l1, Single(n)))
    && (count > SINGLE ==> CachedFor(use, blockAt, l2, Double(n)))
    && (count > SINGLE && (count - SINGLE) % ENTRIES != 0 ==>
          CachedFor(use, blockAt, l1, Leaf(n, (count - SINGLE) / ENTRIES)))
  }

  ghost predicate NodeTied(ci: CacheInode, n: nat, node: Inode, use: map<nat, Use>, blockAt: map<nat, CacheBlock>)
    reads ci
  {
    ci.ino == n && ci.Record() == node && ci.nblks == node.blocks && Linked(use, blockAt, n, node.blocks, ci.l1, ci.l2)
  }

  ghost function Nodes(nodeAt: map<nat, CacheInode>): set<object> {
    set n | n in nodeAt :: nodeAt[n] as object
  }

  ghost predicate NodesTied(nodeAt: map<nat, CacheInode>, nodes: map<nat, Inode>, use: map<nat, Use>,
                            blockAt: map<nat, CacheBlock>)
    reads Nodes(nodeAt)
  {
    && nodeAt.Keys == nodes.Keys
    && forall n :: n in nodeAt ==> NodeTied(nodeAt[n], n, nodes[n], use, blockAt)
  }

  ghost function Caches(blockAt: map<nat, CacheBlock>): set<object> {
    set b | b in blockAt :: blockAt[b].cache as object
  }

  ghost predicate BlocksTied(blockAt: map<nat, CacheBlock>, index: Index)
    reads Caches(blockAt)
  {
    && blockAt.Keys == index.Keys
    && (forall b :: b in blockAt ==> blockAt[b].ino == b && blockAt[b].cache[..] == index[b])
    && (forall b, b' :: b in blockAt && b' in blockAt && b != b' ==> blockAt[b].cache != blockAt[b'].cache)
  }

  /** The chains hold exactly the cached inodes. */
  ghost predicate ChainsHold(inodes: seq<seq<CacheInode>>, nodeAt: map<nat, CacheInode>)
    requires |inodes| == HASH_LIST_SIZE
  {
    && (forall i, k :: 0 <= i < HASH_LIST_SIZE && 0 <= k < |inodes[i]| ==>
          inodes[i][k].ino in nodeAt && nodeAt[inodes[i][k].ino] == inodes[i][k])
    && (forall n :: n in nodeAt ==> nodeAt[n] in inodes[Hash32(nodeAt[n].host)])
  }

  /** Searching a chain for a host inode finds the image inode last made for it. */
  ghost predicate ChainsFind(inodes: seq<seq<CacheInode>>, nodeAt: map<nat, CacheInode>, known: map<nat, nat>)
    requires |inodes| == HASH_LIST_SIZE
  {
    && (forall host: nat :: host in known ==> known[host] in nodeAt)
    && (forall host: nat :: First(inodes[Hash32(host)], host) == if host in known then nodeAt[known[host]] else null)
  }

  ghost predicate InodeChains(inodes: seq<seq<CacheInode>>, nodeAt: map<nat, CacheInode>, known: map<nat, nat>) {
    |inodes| == HASH_LIST_SIZE && ChainsHold(inodes, nodeAt) && ChainsFind(inodes, nodeAt, known)
  }

  /** All pointer blocks hang in chain 0, because they are made with block number 0. */
  ghost predicate BlockChains(blocks: seq<seq<CacheBlock>>, blockAt: map<nat, CacheBlock>) {
    && |blocks| == HASH_LIST_SIZE
    && (forall i :: 0 < i < HASH_LIST_SIZE ==> blocks[i] == [])
    && (forall k :: 0 <= k < |blocks[0]| ==> blocks[0][k].ino in blockAt && blockAt[blocks[0][k].ino] == blocks[0][k])
    && (forall b :: b in blockAt ==> blockAt[b] in blocks[0])
  }

  ghost predicate ImageTied(image: Image, ninos: nat, disk: map<nat, seq<byte>>) {
    && |image| == ninos && (forall b :: b in disk ==> b < ninos)
    && (forall b: nat :: b < ninos ==> image[b] == if b in disk then Raw(disk[b]) else Unwritten)
  }

  lemma ImageWritten(image: Image, ninos: nat, disk: map<nat, seq<byte>>, ino: nat, bytes: seq<byte>)
    requires ImageTied(image, ninos, disk) && ino < ninos
    ensures |image| == ninos && ImageTied(image[ino := Raw(bytes)], ninos, disk[ino := bytes])
  {
  }

  /** New blocks and uses disturb nothing that is tied already. */
  lemma NodesGrow(nodeAt: map<nat, CacheInode>, nodes: map<nat, Inode>, use: map<nat, Use>,
                  blockAt: map<nat, CacheBlock>,
                  use': map<nat, Use>, blockAt': map<nat, CacheBlock>)
    requires NodesTied(nodeAt, nodes, use, blockAt)
    requires forall b :: b in use ==> b in use' && use'[b] == use[b]
    requires forall b :: b in blockAt ==> b in blockAt' && blockAt'[b] == blockAt[b]
    ensures NodesTied(nodeAt, nodes, use', blockAt')
  {
    forall n | n in nodeAt ensures NodeTied(nodeAt[n], n, nodes[n], use', blockAt') {
      assert NodeTied(nodeAt[n], n, nodes[n], use, blockAt);
    }
  }

  lemma BlocksGrow(index: Index, blockAt: map<nat, CacheBlock>, b: nat, words: seq<nat>, cb: CacheBlock)
    requires BlocksTied(blockAt, index) && b !in index
    requires cb.ino == b && cb.cache[..] == words && cb.cache as object !in Caches(blockAt)
    ensures BlocksTied(blockAt[b := cb], index[b := words])
  {
  }

  /** Writing one word of a cached pointer block. */
  lemma BlocksSet(blockAt: map<nat, CacheBlock>, index: Index, b: nat, i: nat, v: nat)
    requires blockAt.Keys == index.Keys && b in blockAt && i < |index[b]|
    requires forall x :: x in blockAt ==> blockAt[x].ino == x
                                          && blockAt[x].cache[..] == (if x == b then index[b][i := v] else index[x])
    requires forall x, x' :: x in blockAt && x' in blockAt && x != x' ==> blockAt[x].cache != blockAt[x'].cache
    ensures BlocksTied(blockAt, SetSlot(index, b, i, v))
  {
  }

  lemma BlockChainsGrow(blocks: seq<seq<CacheBlock>>, blockAt: map<nat, CacheBlock>, b: nat, cb: CacheBlock)
    requires BlockChains(blocks, blockAt) && b !in blockAt && cb.ino == b
    ensures BlockChains(blocks[0 := [cb] + blocks[0]], blockAt[b := cb])
  {
  }

  lemma NodeJoins(nodeAt: map<nat, CacheInode>, nodes: map<nat, Inode>, use: map<nat, Use>,
                  blockAt: map<nat, CacheBlock>,
                  ci: CacheInode, kind: Kind)
    requires NodesTied(nodeAt, nodes, use, blockAt) && ci.ino !in nodes
    requires ci.Record() == Blank(kind) && ci.nblks == 0
    ensures NodesTied(nodeAt[ci.ino := ci], nodes[ci.ino := Blank(kind)], use, blockAt)
  {
    hide CachedFor;
    assert NodeTied(ci, ci.ino, Blank(kind), use, blockAt);
  }

  lemma ChainsHoldGrow(inodes: seq<seq<CacheInode>>, nodeAt: map<nat, CacheInode>, ci: CacheInode)
    requires |inodes| == HASH_LIST_SIZE && ChainsHold(inodes, nodeAt) && ci.ino !in nodeAt
    ensures var h := Hash32(ci.host); ChainsHold(inodes[h := [ci] + inodes[h]], nodeAt[ci.ino := ci])
  {
    hide Hash32;
    var h := Hash32(ci.host);
    var inodes', nodeAt' := inodes[h := [ci] + inodes[h]], nodeAt[ci.ino := ci];
    forall n | n in nodeAt' ensures nodeAt'[n] in inodes'[Hash32(nodeAt'[n].host)] {
      if n == ci.ino {
        assert inodes'[h][0] == ci;
      } else {
        assert nodeAt[n] in inodes[Hash32(nodeAt[n].host)];
      }
    }
  }

  lemma ChainsFindGrow(inodes: seq<seq<CacheInode>>, nodeAt: map<nat, CacheInode>, known: map<nat, nat>, ci: CacheInode)
    requires |inodes| == HASH_LIST_SIZE && ChainsFind(inodes, nodeAt, known) && ci.ino !in nodeAt
    ensures var h := Hash32(ci.host);
            ChainsFind(inodes[h := [ci] + inodes[h]], nodeAt[ci.ino := ci], known[ci.host := ci.ino])
  {
    hide Hash32;
    var h := Hash32(ci.host);
    assert ([ci] + inodes[h])[1..] == inodes[h];
  }

  lemma FirstFound(inodes: seq<seq<CacheInode>>, nodeAt: map<nat, CacheInode>, known: map<nat, nat>, host: nat)
    requires InodeChains(inodes, nodeAt, known)
    ensures host in known ==> known[host] in nodeAt
    ensures First(inodes[Hash32(host)], host) == if host in known then nodeAt[known[host]] else null
  {
    hide Hash32, ChainsHold;
  }

  ghost function Others(nodeAt: map<nat, CacheInode>, n: nat): set<object> {
    set m | m in nodeAt && m != n :: nodeAt[m] as object
  }

  ghost predicate OthersTied(nodeAt: map<nat, CacheInode>, n: nat, nodes: map<nat, Inode>, use: map<nat, Use>,
                             blockAt: map<nat, CacheBlock>)
    reads Others(nodeAt, n)
  {
    nodeAt.Keys == nodes.Keys && forall m :: m in nodeAt && m != n ==> NodeTied(nodeAt[m], m, nodes[m], use, blockAt)
  }

  lemma NodesSplit(nodeAt: map<nat, CacheInode>, n: nat, nodes: map<nat, Inode>, use: map<nat, Use>,
                   blockAt: map<nat, CacheBlock>)
    requires NodesTied(nodeAt, nodes, use, blockAt) && n in nodeAt
    ensures OthersTied(nodeAt, n, nodes, use, blockAt) && nodeAt[n] as object !in Others(nodeAt, n)
    ensures NodeTied(nodeAt[n], n, nodes[n], use, blockAt) && nodeAt[n] as object in Nodes(nodeAt)
  {
    forall m | m in nodeAt && m != n ensures nodeAt[m] != nodeAt[n] {
      assert NodeTied(nodeAt[m], m, nodes[m], use, blockAt) && NodeTied(nodeAt[n], n, nodes[n], use, blockAt);
    }
  }

  lemma NodesJoined(nodeAt: map<nat, CacheInode>, n: nat, nodes: map<nat, Inode>, use: map<nat, Use>,
                    blockAt: map<nat, CacheBlock>, node: Inode)
    requires OthersTied(nodeAt, n, nodes, use, blockAt) && n in nodeAt && NodeTied(nodeAt[n], n, node, use, blockAt)
    ensures NodesTied(nodeAt, nodes[n := node], use, blockAt)
  {
    hide NodeTied;
  }

  /** What a finished append leaves cached for inode n, whose block number `count` was just placed. */
  ghost predicate LinkedNext(use: map<nat, Use>, blockAt: map<nat, CacheBlock>, n: nat, count: nat, l1: CacheBlock?,
                             l2: CacheBlock?) {
    && (DIRECT <= count < SINGLE ==> CachedFor(use, blockAt, l1, Single(n)))
    && (count >= SINGLE ==>
      CachedFor(use, blockAt, l2, Double(n)) && CachedFor(use, blockAt, l1, Leaf(n, (count - SINGLE) / ENTRIES)))
  }

  lemma LinkedBumped(use: map<nat, Use>, blockAt: map<nat, CacheBlock>, n: nat, count: nat, l1: CacheBlock?,
                     l2: CacheBlock?)
    requires LinkedNext(use, blockAt, n, count, l1, l2)
    ensures Linked(use, blockAt, n, count + 1, l1, l2)
  {
    hide CachedFor;
  }

  method PutWord(cb: CacheBlock, i: nat, v: nat, ghost blockAt: map<nat, CacheBlock>, ghost index: Index)
    requires BlocksTied(blockAt, index) && cb.ino in blockAt && blockAt[cb.ino] == cb && i < |index[cb.ino]|
    modifies cb.cache
    ensures BlocksTied(blockAt, SetSlot(index, cb.ino, i, v))
  {
    ghost var words := cb.cache[..];
    cb.cache[i] := v;
    assert cb.cache[..] == words[i := v];
    BlocksSet(blockAt, index, cb.ino, i, v);
  }

  /** In a whole state the cached pointer blocks are the ones the inode's pointers name. */
  lemma SingleCached(fs: Fs, pending: nat, blockAt: map<nat, CacheBlock>, n: nat, l1: CacheBlock?, l2: CacheBlock?)
    requires Whole(fs, pending) && n in fs.nodes && Used(fs, pending, Data(n, fs.nodes[n].blocks))
    requires Linked(fs.use, blockAt, n, fs.nodes[n].blocks, l1, l2) && DIRECT <= fs.nodes[n].blocks < SINGLE
    ensures if fs.nodes[n].blocks == DIRECT then fs.nodes[n].indirect == 0
            else
              && fs.nodes[n].indirect != 0 && CachedFor(fs.use, blockAt, l1, Single(n))
              && l1.ino == fs.nodes[n].indirect
  {
    hide Counted, Sorted, Lookup;
    ZeroUnused(fs);
    assert Mapped(fs, n, fs.nodes[n]);
    if fs.nodes[n].blocks > DIRECT {
      assert Reached(fs.nodes, fs.index, l1.ino, fs.use[l1.ino]);
    }
  }

  lemma DoubleCached(fs: Fs, pending: nat, blockAt: map<nat, CacheBlock>, n: nat, l1: CacheBlock?, l2: CacheBlock?)
    requires Whole(fs, pending) && n in fs.nodes && Used(fs, pending, Data(n, fs.nodes[n].blocks))
    requires Linked(fs.use, blockAt, n, fs.nodes[n].blocks, l1, l2) && SINGLE <= fs.nodes[n].blocks < MAX_BLOCKS
    ensures var node := fs.nodes[n];
            if node.blocks == SINGLE then node.dbIndirect == 0
            else node.dbIndirect != 0 && CachedFor(fs.use, blockAt, l2, Double(n)) && l2.ino == node.dbIndirect
    ensures var node := fs.nodes[n];
            var k := (node.blocks - SINGLE) / ENTRIES;
            var leaf := Slot(fs.index, node.dbIndirect, k);
            if (node.blocks - SINGLE) % ENTRIES == 0 then node.blocks > SINGLE ==> leaf == 0
            else leaf != 0 && CachedFor(fs.use, blockAt, l1, Leaf(n, k)) && l1.ino == leaf
  {
    hide Counted, Sorted, Lookup;
    ZeroUnused(fs);
    var node := fs.nodes[n];
    var k := (node.blocks - SINGLE) / ENTRIES;
    assert Mapped(fs, n, node);
    if node.blocks > SINGLE {
      assert LeafOk(fs, n, k, Slot(fs.index, node.dbIndirect, k), node.blocks);
      assert Reached(fs.nodes, fs.index, l2.ino, fs.use[l2.ino]);
      if (node.blocks - SINGLE) % ENTRIES != 0 {
        assert Reached(fs.nodes, fs.index, l1.ino, fs.use[l1.ino]);
      }
    }
  }

  /** The state with the double-indirect block of inode n in place, and that block. */
  function WithDouble(fs: Fs, n: nat): (r: Option<(Fs, nat)>)
    requires n in fs.nodes
    ensures r.Some? ==> r.value.0.nodes == fs.nodes[n := fs.nodes[n].(dbIndirect := r.value.1)]
  {
    match Pointers(fs, fs.nodes[n].dbIndirect, Double(n))
    case None => None
    case Some((f, l2)) => Some((f.(nodes := fs.nodes[n := fs.nodes[n].(dbIndirect := l2)]), l2))
  }

  /** Then with the leaf for its next block in place, and that leaf. */
  function WithLeaf(fs: Fs, n: nat, l2: nat): Option<(Fs, nat)>
    requires n in fs.nodes && fs.nodes[n].blocks >= SINGLE
  {
    var k := (fs.nodes[n].blocks - SINGLE) / ENTRIES;
    match Pointers(fs, Slot(fs.index, l2, k), Leaf(n, k))
    case None => None
    case Some((g, l1)) => Some((g.(index := SetSlot(g.index, l2, k, l1)), l1))
  }

  lemma PlaceInSteps(fs: Fs, n: nat, b: nat)
    requires n in fs.nodes && |fs.nodes[n].direct| == DIRECT && fs.nodes[n].blocks >= SINGLE
    ensures Place(fs, n, b) ==
            match WithDouble(fs, n)
            case None => None
            case Some((f, l2)) =>
              match WithLeaf(f, n, l2)
              case None => None
              case Some((g, l1)) => Some(g.(index := SetSlot(g.index, l1, (fs.nodes[n].blocks - SINGLE) % ENTRIES, b)))
  {
    hide Pointers, Slot, SetSlot;
    match Pointers(fs, fs.nodes[n].dbIndirect, Double(n))
    case None =>
    case Some((f, l2)) =>
      var k := (fs.nodes[n].blocks - SINGLE) / ENTRIES;
      PointersAnyNodes(f, fs.nodes[n := fs.nodes[n].(dbIndirect := l2)], Slot(f.index, l2, k), Leaf(n, k));
      PointersKeepNodes(fs, fs.nodes[n].dbIndirect, Double(n));
      PointersKeepNodes(f, Slot(f.index, l2, k), Leaf(n, k));
  }

  lemma PointersAnyNodes(fs: Fs, nodes: map<nat, Inode>, b: nat, u: Use)
    ensures Pointers(fs.(nodes := nodes), b, u)
            == match Pointers(fs, b, u) case None => None case Some((f, l)) => Some((f.(nodes := nodes), l))
  {
  }

  lemma PointersKeepNodes(fs: Fs, b: nat, u: Use)
    ensures Pointers(fs, b, u).Some? ==> Pointers(fs, b, u).value.0.nodes == fs.nodes
  {
  }

  /** The cached l1 is the leaf for the next block of inode n, unless that leaf does not exist yet. */
  ghost predicate LeafReady(fs: Fs, blockAt: map<nat, CacheBlock>, n: nat, l2: nat, l1: CacheBlock?)
    requires n in fs.nodes && fs.nodes[n].blocks >= SINGLE
  {
    var k := (fs.nodes[n].blocks - SINGLE) / ENTRIES;
    var leaf := Slot(fs.index, l2, k);
    k < ENTRIES && (leaf != 0 ==> CachedFor(fs.use, blockAt, l1, Leaf(n, k)) && l1.ino == leaf)
  }

  /** All block numbers in use are below the next one, and pointer blocks have full size. */
  ghost predicate Below(fs: Fs) {
    && (forall b :: b in fs.use || b in fs.index ==> b < fs.next)
    && (forall b :: b in fs.index ==> |fs.index[b]| == ENTRIES)
  }

  lemma WholeBelow(fs: Fs, pending: nat)
    requires Whole(fs, pending)
    ensures Below(fs) && fs.next != 0
  {
    hide Mapped, Reached;
  }

  lemma BelowNext(fs: Fs)
    requires Below(fs)
    ensures fs.next !in fs.use && fs.next !in fs.index
    ensures forall b :: b in fs.index ==> |fs.index[b]| == ENTRIES
  {
  }

  lemma PointersBelow(fs: Fs, b: nat, u: Use)
    requires Below(fs) && Pointers(fs, b, u).Some?
    ensures Below(Pointers(fs, b, u).value.0)
  {
  }

  lemma BelowNodes(fs: Fs, f: Fs)
    requires Below(fs) && f == fs.(nodes := f.nodes)
    ensures Below(f)
  {
  }

  lemma BelowSet(fs: Fs, b: nat, i: nat, v: nat)
    requires Below(fs)
    ensures Below(fs.(index := SetSlot(fs.index, b, i, v)))
  {
  }

  lemma LeafIsReady(fs: Fs, f: Fs, g: Fs, blockAt: map<nat, CacheBlock>, n: nat, l2: nat, l1: CacheBlock?)
    requires n in fs.nodes && SINGLE <= fs.nodes[n].blocks < MAX_BLOCKS
      && Pointers(fs, fs.nodes[n].dbIndirect, Double(n)) == Some((f, l2))
    requires g == f.(nodes := f.nodes[n := fs.nodes[n].(dbIndirect := l2)])
    requires var k := (fs.nodes[n].blocks - SINGLE) / ENTRIES;
             var leaf := Slot(fs.index, fs.nodes[n].dbIndirect, k);
             fs.nodes[n].dbIndirect != 0 && leaf != 0 ==> CachedFor(g.use, blockAt, l1, Leaf(n, k)) && l1.ino == leaf
    ensures LeafReady(g, blockAt, n, l2, l1)
  {
    hide CachedFor;
  }

  /** One bitmap block: bit j%32 of word j/32 stands for block i + j. */
  method FillBitmap(ninos: nat, next: nat, i: nat) returns (bits: seq<bool>)
    requires i % MAP_BITS == 0
    ensures bits == BitmapBlock(ninos, next, i / MAP_BITS)
  {
    var data := new bool[MAP_BITS](_ => false);
    var start, end := if i < next then next - i else 0, if i + MAP_BITS > ninos then ninos - i else MAP_BITS;
    if i + MAP_BITS > next {
      var j := start;
      while j < end
        invariant start <= j && (j <= end || start > end)
        invariant forall b :: 0 <= b < MAP_BITS ==> (data[b] <==> start <= b < j && b < end)
      {
        data[j / 32 * 32 + j % 32] := true;
        j := j + 1;
      }
    }
    bits := data[..];
  }

  /** Blocks in `done` have their final contents, the others those they had. */
  ghost predicate Partly(fs: Fs, image0: Image, image: Image, done: set<nat>) {
    && |image0| == |image| == fs.ninos
    && forall b: nat :: b < fs.ninos ==> image[b] == if b in done then Written(fs, b) else image0[b]
  }

  lemma OneWritten(fs: Fs, image0: Image, image: Image, done: set<nat>, b: nat, contents: Block)
    requires Partly(fs, image0, image, done) && b < fs.ninos && contents == Written(fs, b)
    ensures Partly(fs, image0, image[b := contents], done + {b})
  {
    hide Written;
  }

  /** The cached contents of a chain are what its blocks should hold in the end. */
  ghost predicate BlocksReady(fs: Fs, chain: seq<CacheBlock>)
    reads set k | 0 <= k < |chain| :: chain[k].cache
  {
    forall k :: 0 <= k < |chain| ==> chain[k].ino < fs.ninos && Words(chain[k].cache[..]) == Written(fs, chain[k].ino)
  }

  ghost predicate InodesReady(fs: Fs, chain: seq<CacheInode>)
    reads chain
  {
    forall k :: 0 <= k < |chain| ==> chain[k].ino < fs.ninos && Record(chain[k].Record()) == Written(fs, chain[k].ino)
  }

  lemma NoneWritten(fs: Fs, image: Image)
    requires |image| == fs.ninos
    ensures Partly(fs, image, image, {})
  {
  }

  lemma GoodCounted(fs: Fs)
    requires Good(fs)
    ensures FirstFree(fs.ninos) <= fs.next <= fs.ninos && fs.ninos > 0
  {
    hide Mapped, Reached;
  }

  /** When superblock, bitmap, inodes and pointer blocks are written, the image is finished. */
  lemma AllWritten(fs: Fs, image0: Image, image: Image, done: set<nat>)
    requires Partly(fs, image0, image, done) && ImageTied(image0, fs.ninos, fs.disk)
    requires 0 in done && forall b: nat :: 2 <= b < FirstFree(fs.ninos) || b in fs.nodes || b in fs.index ==> b in done
    ensures Closed(fs, image)
  {
  }

  /** The state create_sfs has before it makes the root inode. */
  ghost function Unbuilt(ninos: nat): Fs {
    Fs(ninos, FirstFree(ninos), ninos - FirstFree(ninos), map[], map[], map[], map[ROOT := Node], map[], Fill(256))
  }

  lemma RootBuilt(ninos: nat)
    requires FirstFree(ninos) < ninos <= IMAGE_BLOCKS
    ensures Create(ninos * BLOCK_SIZE)
      == Some(Unbuilt(ninos).(nodes := map[ROOT := Blank(Dir)], known := map[0 := ROOT]))
    ensures Good(Create(ninos * BLOCK_SIZE).value)
  {
    hide Whole;
    assert ninos * BLOCK_SIZE / BLOCK_SIZE == ninos;
    CreateGood(ninos * BLOCK_SIZE);
  }

  /** A builder that has cached nothing yet. */
  lemma NothingCached(inodes: seq<seq<CacheInode>>, blocks: seq<seq<CacheBlock>>, ninos: nat)
    requires |inodes| == HASH_LIST_SIZE && |blocks| == HASH_LIST_SIZE
    requires forall i :: 0 <= i < HASH_LIST_SIZE ==> inodes[i] == [] && blocks[i] == []
    ensures InodeChains(inodes, map[], map[]) && BlockChains(blocks, map[])
    ensures ImageTied(seq(ninos, _ => Unwritten), ninos, map[])
    ensures forall use :: NodesTied(map[], map[], use, map[])
    ensures BlocksTied(map[], map[]) && Nodes(map[]) == {} && Caches(map[]) == {}
  {
    hide Hash32;
  }

  ghost predicate Kept(nodeAt: map<nat, CacheInode>, nodeAt': map<nat, CacheInode>) {
    forall n :: n in nodeAt ==> n in nodeAt' && nodeAt'[n] == nodeAt[n]
  }

  /** Bounds the recursion over a host tree. */
  function Weight(tree: Tree): nat {
    if tree.Folder? then 1 + WeightItems(tree.items) else 0
  }

  function WeightItems(items: Items): nat {
    match items
    case Nil => 0
    case Item(_, tree, rest) => 1 + Weight(tree) + WeightItems(rest)
  }

  class Sfs {
    var ninos: nat
    var nextIno: nat
    var unusedBlocks: int
    const inodes: array<seq<CacheInode>>
    const blocks: array<seq<CacheBlock>>
    const root: CacheInode
    var entry: seq<byte>
    var image: Image

    ghost var fs: Fs
    ghost var nodeAt: map<nat, CacheInode>
    ghost var blockAt: map<nat, CacheBlock>
    ghost var searches: nat
    /** The objects that make up the builder's state, besides itself. */
    ghost var repr: set<object>

    ghost predicate Tied()
      reads this, repr
    {
      && {inodes as object, blocks} + Nodes(nodeAt) + Caches(blockAt) <= repr
      && ninos == fs.ninos && nextIno == fs.next && unusedBlocks == fs.unused && entry == fs.entry
      && ImageTied(image, ninos, fs.disk)
      && this !in repr && inodes.Length == HASH_LIST_SIZE && blocks.Length == HASH_LIST_SIZE
      && inodes as object != blocks && {inodes as object, blocks} !! Nodes(nodeAt) !! Caches(blockAt)
      && nodeAt.Keys == fs.nodes.Keys && blockAt.Keys == fs.index.Keys
      && NodesTied(nodeAt, fs.nodes, fs.use, blockAt) && BlocksTied(blockAt, fs.index)
      && InodeChains(inodes[..], nodeAt, fs.known) && BlockChains(blocks[..], blockAt)
    }

    method AllocIno(ghost use: Use) returns (ok: bool, ino: nat)
      requires Tied() && fs.next !in fs.use
      modifies this`nextIno, this`unusedBlocks, this`fs
      ensures ok == Take(old(fs), use).Some?
      ensures ok ==> Tied() && fs == Take(old(fs), use).value && ino == old(fs).next
    {
      hide ImageTied, NodesTied, BlocksTied, InodeChains, BlockChains, Nodes, Caches;
      ok, ino := nextIno < ninos, 0;
      if ok {
        unusedBlocks := unusedBlocks - 1;
        ino := nextIno;
        nextIno := nextIno + 1;
        NodesGrow(nodeAt, fs.nodes, fs.use, blockAt, fs.use[fs.next := use], blockAt);
        fs := Take(fs, use).value;
      }
    }

    method WriteBlock(data: seq<byte>, ino: nat)
      requires Tied() && |data| <= BLOCK_SIZE && ino < ninos
      modifies this`image, this`fs
      ensures Tied() && fs == old(fs).(disk := old(fs).disk[ino := Pad(data)])
    {
      hide ImageTied, NodesTied, BlocksTied, InodeChains, BlockChains, Nodes, Caches;
      ImageWritten(image, ninos, fs.disk, ino, Pad(data));
      image := image[ino := Raw(Pad(data))];
      fs := fs.(disk := fs.disk[ino := Pad(data)]);
    }
  
    /** alloc_cache_block with block number 0, as every caller asks. */
    method AllocCacheBlock(ghost use: Use) returns (ok: bool, cb: CacheBlock?)
      requires Tied() && fs.next !in fs.index && fs.next !in fs.use
      modifies this`nextIno, this`unusedBlocks, this`fs, this`blockAt, this`repr, blocks
      ensures ok == Take(old(fs), use).Some?
      ensures ok ==>
        cb != null && fresh(cb) && fresh(cb.cache) && blockAt == old(blockAt)[cb.ino := cb]
          && repr == old(repr) + {cb.cache}
      ensures ok ==> Tied() && Pointers(old(fs), 0, use) == Some((fs, cb.ino))
    {
      hide ImageTied, NodesTied, BlocksTied, InodeChains, BlockChains;
      var ino;
      cb := null;
      ok, ino := AllocIno(use);
      if ok {
        var made := new CacheBlock(ino);
        HangBlock(made);
        cb := made;
      }
    }

    /** Put a new block at the head of the chain for number 0. */
    method HangBlock(cb: CacheBlock)
      requires Tied() && cb.ino !in fs.index && cb.cache[..] == Zeros()
      requires cb.cache as object !in repr + {this}
      modifies this`fs, this`blockAt, this`repr, blocks
      ensures Tied() && fs == old(fs).(index := old(fs).index[cb.ino := Zeros()])
        && blockAt == old(blockAt)[cb.ino := cb]
      ensures repr == old(repr) + {cb.cache}
    {
      hide ImageTied, NodesTied, BlocksTied, InodeChains, BlockChains;
      ghost var chains := blocks[..];
      NodesGrow(nodeAt, fs.nodes, fs.use, blockAt, fs.use, blockAt[cb.ino := cb]);
      BlocksGrow(fs.index, blockAt, cb.ino, Zeros(), cb);
      BlockChainsGrow(blocks[..], blockAt, cb.ino, cb);
      blocks[Hash32(0)] := [cb] + blocks[Hash32(0)];
      assert blocks[..] == chains[0 := [cb] + chains[0]];
      blockAt := blockAt[cb.ino := cb];
      repr := repr + {cb.cache};
      fs := fs.(index := fs.index[cb.ino := Zeros()]);
    }
  
    method SearchCacheBlock(ino: nat) returns (cb: CacheBlock?)
      requires Tied()
      ensures cb != null ==> cb.ino == ino && ino in blockAt && blockAt[ino] == cb
      ensures cb == null <==> forall k :: 0 <= k < |blocks[Hash32(ino)]| ==> blocks[Hash32(ino)][k].ino != ino
    {
      hide ImageTied, NodesTied, BlocksTied, InodeChains, Hash32;
      var chain := blocks[Hash32(ino)];
      var k := 0;
      while k < |chain| && chain[k].ino != ino
        invariant 0 <= k <= |chain| && forall j :: 0 <= j < k ==> chain[j].ino != ino
      {
        k := k + 1;
      }
      cb := if k < |chain| then chain[k] else null;
    }

    method SearchCacheInode(host: nat) returns (ci: CacheInode?)
      requires Tied()
      ensures Tied() && (ci != null <==> host in fs.known)
      ensures ci != null ==> Cached(ci) && ci.ino == fs.known[host]
    {
      hide ImageTied, NodesTied, BlocksTied, InodeChains, BlockChains, Nodes, Caches, Hash32;
      FirstFound(inodes[..], nodeAt, fs.known, host);
      var chain := inodes[Hash32(host)];
      var k := 0;
      while k < |chain| && chain[k].host != host
        invariant 0 <= k <= |chain| && First(chain, host) == First(chain[k..], host)
      {
        assert chain[k..][1..] == chain[k + 1..];
        k := k + 1;
      }
      ci := if k < |chain| then chain[k] else null;
      if host in fs.known {
        NodeKey(fs.known[host]);
      }
    }

    lemma NodeKey(n: nat)
      requires Tied() && n in nodeAt
      ensures nodeAt[n].ino == n && n in fs.nodes
    {
      hide ImageTied, BlocksTied, InodeChains, BlockChains;
      assert NodeTied(nodeAt[n], n, fs.nodes[n], fs.use, blockAt);
    }

    method AllocCacheInode(host: nat, kind: Kind) returns (ok: bool, ci: CacheInode?)
      requires Tied() && fs.next !in fs.nodes && fs.next !in fs.use
      modifies this`nextIno, this`unusedBlocks, this`fs, this`nodeAt, this`repr, inodes
      ensures ok == AddNode(old(fs), host, kind).Some?
      ensures ok ==> Tied() && fs == AddNode(old(fs), host, kind).value
      ensures ok ==>
        ci != null && fresh(ci) && ci.ino == old(fs).next && ci.kind == kind && nodeAt == old(nodeAt)[ci.ino := ci]
          && repr == old(repr) + {ci}
    {
      hide ImageTied, NodesTied, BlocksTied, InodeChains, BlockChains;
      var ino;
      ci := null;
      ok, ino := AllocIno(Node);
      if ok {
        var made := new CacheInode(host, ino, kind);
        HangInode(made);
        ci := made;
      }
    }

    method HangInode(ci: CacheInode)
      requires Tied() && ci.ino !in fs.nodes && ci.Record() == Blank(ci.kind) && ci.nblks == 0
      requires ci as object !in repr + {this}
      modifies this`fs, this`nodeAt, this`repr, inodes
      ensures Tied() && nodeAt == old(nodeAt)[ci.ino := ci] && repr == old(repr) + {ci}
      ensures fs == old(fs).(nodes := old(fs).nodes[ci.ino := Blank(ci.kind)],
        known := old(fs).known[ci.host := ci.ino])
    {
      hide ImageTied, NodesTied, BlocksTied, ChainsHold, ChainsFind, BlockChains, Hash32;
      ghost var chains := inodes[..];
      NodeJoins(nodeAt, fs.nodes, fs.use, blockAt, ci, ci.kind);
      ChainsHoldGrow(inodes[..], nodeAt, ci);
      ChainsFindGrow(inodes[..], nodeAt, fs.known, ci);
      var h := Hash32(ci.host);
      inodes[h] := [ci] + inodes[h];
      assert inodes[..] == chains[h := [ci] + chains[h]];
      nodeAt := nodeAt[ci.ino := ci];
      repr := repr + {ci};
      fs := fs.(nodes := fs.nodes[ci.ino := Blank(ci.kind)], known := fs.known[ci.host := ci.ino]);
    }
  
    /** The three-way choice of update_cache; the chain is searched only when the cached block is
      * not the one asked for, and then the search must succeed.
      */
    method UpdateCache(cb: CacheBlock?, ino: nat, ghost use: Use) returns (ok: bool, cb': CacheBlock?, ino': nat)
      requires Tied() && fs.next !in fs.index && fs.next !in fs.use
      modifies this`nextIno, this`unusedBlocks, this`fs, this`blockAt, this`searches, this`repr, blocks
      ensures ino == 0 ==> ok == Take(old(fs), use).Some? && searches == old(searches)
      ensures ino == 0 && ok ==>
        cb' != null && fresh(cb') && fresh(cb'.cache) && blockAt == old(blockAt)[ino' := cb']
          && repr == old(repr) + {cb'.cache}
      ensures ino == 0 && ok ==> Tied() && Pointers(old(fs), 0, use) == Some((fs, ino')) && cb'.ino == ino'
      ensures ino != 0 && cb != null && cb.ino == ino ==>
                ok && cb' == cb && searches == old(searches)
      ensures ino != 0 && ok ==>
        Tied() && fs == old(fs) && blockAt == old(blockAt) && repr == old(repr) && cb' != null && cb'.ino == ino
          && ino' == ino
      ensures ino != 0 && (cb == null || cb.ino != ino) ==> searches == old(searches) + 1
    {
      hide ImageTied, NodesTied, BlocksTied, InodeChains, BlockChains;
      ok, cb', ino' := true, cb, ino;
      if ino == 0 {
        ok, cb' := AllocCacheBlock(use);
        if ok {
          ino' := cb'.ino;
        }
      } else if cb == null || cb.ino != ino {
        searches := searches + 1;
        cb' := SearchCacheBlock(ino);
        ok := cb' != null && cb'.ino == ino;
      }
    }

    /** update_cache as append_block uses it: the cached block is the right one, so nothing is searched. */
    method CurrentBlock(cb: CacheBlock?, ino: nat, ghost use: Use, ghost other: CacheBlock?, ghost otherUse: Use)
      returns (ok: bool, cb': CacheBlock?)
      requires Tied() && Below(fs) && (ino != 0 ==> CachedFor(fs.use, blockAt, cb, use) && cb.ino == ino)
      modifies this`nextIno, this`unusedBlocks, this`fs, this`blockAt, this`searches, this`repr, blocks
      ensures searches == old(searches) && ok == Pointers(old(fs), ino, use).Some?
      ensures ok ==> Tied() && cb' != null && Pointers(old(fs), ino, use) == Some((fs, cb'.ino)) && Below(fs)
      ensures ok ==> CachedFor(fs.use, blockAt, cb', use) && cb'.cache as object in repr
      ensures ok && CachedFor(old(fs).use, old(blockAt), other, otherUse) ==>
        CachedFor(fs.use, blockAt, other, otherUse)
      ensures ok ==> old(repr) <= repr && fresh(repr - old(repr)) && fs.nodes == old(fs).nodes
    {
      hide Tied, Below;
      KeysTied();
      BelowNext(fs);
      var b;
      ok, cb', b := UpdateCache(cb, ino, use);
      if ok {
        KeysTied();
        CacheInRepr(cb'.ino);
        PointersBelow(old(fs), ino, use);
      }
    }

    method SetWord(cb: CacheBlock, i: nat, v: nat)
      requires Tied() && cb.ino in blockAt && blockAt[cb.ino] == cb && i < |fs.index[cb.ino]|
      modifies cb.cache, this`fs
      ensures nodeAt == old(nodeAt) && blockAt == old(blockAt) && searches == old(searches)
      ensures Tied() && fs == old(fs).(index := SetSlot(old(fs).index, cb.ino, i, v))
    {
      hide ImageTied, NodesTied, BlocksTied, InodeChains, BlockChains;
      assert cb.cache as object in Caches(blockAt);
      PutWord(cb, i, v, blockAt, fs.index);
      fs := fs.(index := SetSlot(fs.index, cb.ino, i, v));
    }

    method SetIndirect(file: CacheInode, cb: CacheBlock)
      requires Tied() && file.ino in nodeAt && nodeAt[file.ino] == file
      requires DIRECT <= fs.nodes[file.ino].blocks < SINGLE && CachedFor(fs.use, blockAt, cb, Single(file.ino))
      modifies file, this`fs
      ensures Tied() && fs == old(fs).(nodes := old(fs).nodes[file.ino := old(fs).nodes[file.ino].(indirect := cb.ino)])
      ensures file.l1 == cb && file.nblks == old(file.nblks)
    {
      hide ImageTied, NodesTied, BlocksTied, InodeChains, BlockChains, Nodes, Caches, Others, CachedFor, OthersTied;
      NodesSplit(nodeAt, file.ino, fs.nodes, fs.use, blockAt);
      file.l1, file.indirect := cb, cb.ino;
      NodesJoined(nodeAt, file.ino, fs.nodes, fs.use, blockAt, file.Record());
      fs := fs.(nodes := fs.nodes[file.ino := file.Record()]);
    }
  
    method SetDirect(file: CacheInode, v: nat)
      requires Tied() && file.ino in nodeAt && nodeAt[file.ino] == file
      requires fs.nodes[file.ino].blocks < DIRECT && |fs.nodes[file.ino].direct| == DIRECT
      modifies file, this`fs
      ensures Tied()
      ensures var node := old(fs).nodes[file.ino];
              fs == old(fs).(nodes := old(fs).nodes[file.ino := node.(direct := node.direct[node.blocks := v])])
      ensures file.nblks == old(file.nblks)
    {
      hide ImageTied, NodesTied, BlocksTied, InodeChains, BlockChains, Nodes, Caches, Others, CachedFor, OthersTied;
      NodesSplit(nodeAt, file.ino, fs.nodes, fs.use, blockAt);
      file.direct := file.direct[file.nblks := v];
      NodesJoined(nodeAt, file.ino, fs.nodes, fs.use, blockAt, file.Record());
      fs := fs.(nodes := fs.nodes[file.ino := file.Record()]);
    }

    method SetDouble(file: CacheInode, cb: CacheBlock)
      requires Tied() && file.ino in nodeAt && nodeAt[file.ino] == file
      requires fs.nodes[file.ino].blocks >= SINGLE && CachedFor(fs.use, blockAt, cb, Double(file.ino))
      modifies file, this`fs
      ensures Tied()
        && fs == old(fs).(nodes := old(fs).nodes[file.ino := old(fs).nodes[file.ino].(dbIndirect := cb.ino)])
      ensures file.l2 == cb && file.l1 == old(file.l1) && file.nblks == old(file.nblks)
    {
      hide ImageTied, NodesTied, BlocksTied, InodeChains, BlockChains, Nodes, Caches, Others, CachedFor, OthersTied;
      NodesSplit(nodeAt, file.ino, fs.nodes, fs.use, blockAt);
      file.l2, file.dbIndirect := cb, cb.ino;
      NodesJoined(nodeAt, file.ino, fs.nodes, fs.use, blockAt, file.Record());
      fs := fs.(nodes := fs.nodes[file.ino := file.Record()]);
    }

    method SetLeaf(file: CacheInode, cb: CacheBlock)
      requires Tied() && file.ino in nodeAt && nodeAt[file.ino] == file
      requires fs.nodes[file.ino].blocks >= SINGLE
      requires CachedFor(fs.use, blockAt, cb, Leaf(file.ino, (fs.nodes[file.ino].blocks - SINGLE) / ENTRIES))
      modifies file
      ensures Tied() && file.l1 == cb && file.l2 == old(file.l2) && file.nblks == old(file.nblks)
    {
      hide ImageTied, NodesTied, BlocksTied, InodeChains, BlockChains, Nodes, Caches, Others, CachedFor, OthersTied;
      NodesSplit(nodeAt, file.ino, fs.nodes, fs.use, blockAt);
      file.l1 := cb;
      NodesJoined(nodeAt, file.ino, fs.nodes, fs.use, blockAt, file.Record());
      assert fs.nodes[file.ino := file.Record()] == fs.nodes;
    }

    /** The last lines of append_block. */
    method CountBlock(file: CacheInode, size: nat)
      requires Tied() && file.ino in nodeAt && nodeAt[file.ino] == file
      requires LinkedNext(fs.use, blockAt, file.ino, file.nblks, file.l1, file.l2)
      modifies file, this`fs
      ensures Tied()
      ensures var node := old(fs).nodes[file.ino];
              fs == old(fs).(nodes := old(fs).nodes[file.ino := node.(size := node.size + size,
                blocks := node.blocks + 1)])
    {
      hide ImageTied, NodesTied, BlocksTied, InodeChains, BlockChains, Nodes, Caches, Others, CachedFor, OthersTied,
           LinkedNext, Linked;
      NodesSplit(nodeAt, file.ino, fs.nodes, fs.use, blockAt);
      LinkedBumped(fs.use, blockAt, file.ino, file.nblks, file.l1, file.l2);
      file.nblks := file.nblks + 1;
      file.size := file.size + size;
      file.blocks := file.blocks + 1;
      NodesJoined(nodeAt, file.ino, fs.nodes, fs.use, blockAt, file.Record());
      fs := fs.(nodes := fs.nodes[file.ino := file.Record()]);
    }
  
    lemma WordAt(cb: CacheBlock, i: nat)
      requires Tied() && cb.ino in blockAt && blockAt[cb.ino] == cb && i < |fs.index[cb.ino]|
      ensures i < cb.cache.Length && cb.cache[i] == Slot(fs.index, cb.ino, i) && cb.cache as object in repr
    {
      hide ImageTied, NodesTied, InodeChains, BlockChains;
      assert cb.cache[..] == fs.index[cb.ino];
      assert cb.cache as object in Caches(blockAt);
    }

    /** What an inode's cached pointer blocks are known to be. */
    lemma FileLinked(file: CacheInode)
      requires Tied() && file.ino in nodeAt && nodeAt[file.ino] == file
      ensures file.ino in fs.nodes && file.nblks == fs.nodes[file.ino].blocks && file.Record() == fs.nodes[file.ino]
      ensures Linked(fs.use, blockAt, file.ino, file.nblks, file.l1, file.l2)
      ensures file as object in repr && this !in repr && blocks as object in repr && inodes as object in repr
    {
      hide ImageTied, BlocksTied, InodeChains, BlockChains, Linked;
      assert NodeTied(nodeAt[file.ino], file.ino, fs.nodes[file.ino], fs.use, blockAt);
    }

    lemma CacheInRepr(b: nat)
      requires Tied() && b in blockAt
      ensures blockAt[b].cache as object in repr
    {
      hide ImageTied, NodesTied, BlocksTied, InodeChains, BlockChains, Nodes;
      assert blockAt[b].cache as object in Caches(blockAt);
    }

    lemma TablesInRepr()
      requires Tied()
      ensures inodes as object in repr && blocks as object in repr && this !in repr
    {
    }

    lemma KeysTied()
      requires Tied()
      ensures blockAt.Keys == fs.index.Keys && nodeAt.Keys == fs.nodes.Keys
    {
    }

    method AppendIndirect(file: CacheInode, ino: nat) returns (ok: bool)
      requires Tied() && Whole(fs, ino) && file.ino in nodeAt && nodeAt[file.ino] == file
      requires file.ino in fs.nodes && Used(fs, ino, Data(file.ino, fs.nodes[file.ino].blocks))
      requires DIRECT <= fs.nodes[file.ino].blocks < SINGLE && |fs.nodes[file.ino].direct| == DIRECT
      modifies this`nextIno, this`unusedBlocks, this`fs, this`blockAt, this`searches, this`repr, repr
      ensures ok == Place(old(fs), file.ino, ino).Some? && searches == old(searches) && nodeAt == old(nodeAt)
      ensures ok ==> Tied() && fs == Place(old(fs), file.ino, ino).value && file.nblks == old(file.nblks)
      ensures ok ==> LinkedNext(fs.use, blockAt, file.ino, file.nblks, file.l1, file.l2)
      ensures ok ==> old(repr) <= repr && fresh(repr - old(repr))
    {
      hide Tied, Whole, Linked, SetSlot, Below, CachedFor, Pointers, Used, Caches;
      FileLinked(file);
      SingleCached(fs, ino, blockAt, file.ino, file.l1, file.l2);
      WholeBelow(fs, ino);
      var nblks := file.nblks - DIRECT;
      var l1;
      ok, l1 := CurrentBlock(file.l1, file.indirect, Single(file.ino), null, Node);
      if !ok {
        return;
      }
      ghost var f := fs;
      SetIndirect(file, l1);
      BelowNodes(f, fs);
      CachedLength(l1, Single(file.ino));
      SetWord(l1, nblks, ino);
    }

    lemma CachedLength(cb: CacheBlock, u: Use)
      requires Tied() && Below(fs) && CachedFor(fs.use, blockAt, cb, u)
      ensures cb.ino in blockAt && blockAt[cb.ino] == cb && cb.ino in fs.index && |fs.index[cb.ino]| == ENTRIES
    {
    }

    /** The first half of a double-indirect append: the double-indirect block. */
    method FetchDouble(file: CacheInode, ghost pending: nat) returns (ok: bool, l2: CacheBlock?)
      requires Tied() && Whole(fs, pending) && file.ino in nodeAt && nodeAt[file.ino] == file
      requires file.ino in fs.nodes && Used(fs, pending, Data(file.ino, fs.nodes[file.ino].blocks))
      requires SINGLE <= fs.nodes[file.ino].blocks < MAX_BLOCKS
      modifies this`nextIno, this`unusedBlocks, this`fs, this`blockAt, this`searches, this`repr, blocks, file
      ensures searches == old(searches) && ok == WithDouble(old(fs), file.ino).Some?
      ensures ok ==> l2 != null && Tied() && file.l2 == l2 && file.nblks == old(file.nblks) && Below(fs)
      ensures ok ==> WithDouble(old(fs), file.ino) == Some((fs, l2.ino))
      ensures ok ==> CachedFor(fs.use, blockAt, l2, Double(file.ino))
      ensures ok ==> LeafReady(fs, blockAt, file.ino, l2.ino, file.l1)
      ensures ok ==> old(repr) <= repr && fresh(repr - old(repr))
    {
      hide Tied, Whole, Linked, SetSlot, Below, CachedFor, Pointers, Used, LeafReady;
      FileLinked(file);
      DoubleCached(fs, pending, blockAt, file.ino, file.l1, file.l2);
      WholeBelow(fs, pending);
      ghost var k := (fs.nodes[file.ino].blocks - SINGLE) / ENTRIES;
      ok, l2 := CurrentBlock(file.l2, file.dbIndirect, Double(file.ino), file.l1, Leaf(file.ino, k));
      if ok {
        ghost var f := fs;
        SetDouble(file, l2);
        BelowNodes(f, fs);
        LeafIsReady(old(fs), f, fs, blockAt, file.ino, l2.ino, file.l1);
      }
    }

    /** The second half: the leaf below it. */
    method FetchLeaf(file: CacheInode, l2: CacheBlock, k: nat) returns (ok: bool, l1: CacheBlock?)
      requires Tied() && file.ino in nodeAt && nodeAt[file.ino] == file && file.ino in fs.nodes
      requires fs.nodes[file.ino].blocks >= SINGLE && k == (fs.nodes[file.ino].blocks - SINGLE) / ENTRIES
      requires CachedFor(fs.use, blockAt, l2, Double(file.ino)) && file.l2 == l2 && Below(fs)
      requires LeafReady(fs, blockAt, file.ino, l2.ino, file.l1)
      modifies this`nextIno, this`unusedBlocks, this`fs, this`blockAt, this`searches, this`repr, repr
      ensures searches == old(searches) && ok == WithLeaf(old(fs), file.ino, l2.ino).Some? && nodeAt == old(nodeAt)
      ensures ok ==> l1 != null && Tied() && file.l1 == l1 && file.l2 == l2 && file.nblks == old(file.nblks)
      ensures ok ==> WithLeaf(old(fs), file.ino, l2.ino) == Some((fs, l1.ino))
      ensures ok ==>
        CachedFor(fs.use, blockAt, l1, Leaf(file.ino, k)) && CachedFor(fs.use, blockAt, l2, Double(file.ino))
      ensures ok ==> Below(fs) && l1.cache as object in repr
      ensures ok ==> old(repr) <= repr && fresh(repr - old(repr))
    {
      hide Tied, SetSlot, Linked, Below, CachedFor, Pointers, Slot, Caches;
      CachedLength(l2, Double(file.ino));
      FileLinked(file);
      WordAt(l2, k);
      ok, l1 := CurrentBlock(file.l1, l2.cache[k], Leaf(file.ino, k), l2, Double(file.ino));
      if ok {
        CachedLength(l2, Double(file.ino));
        BelowSet(fs, l2.ino, k, l1.ino);
        SetWord(l2, k, l1.ino);
        SetLeaf(file, l1);
      }
    }

    method AppendDouble(file: CacheInode, ino: nat) returns (ok: bool)
      requires Tied() && Whole(fs, ino) && file.ino in nodeAt && nodeAt[file.ino] == file
      requires file.ino in fs.nodes && Used(fs, ino, Data(file.ino, fs.nodes[file.ino].blocks))
      requires SINGLE <= fs.nodes[file.ino].blocks < MAX_BLOCKS && |fs.nodes[file.ino].direct| == DIRECT
      modifies this`nextIno, this`unusedBlocks, this`fs, this`blockAt, this`searches, this`repr, repr
      ensures ok == Place(old(fs), file.ino, ino).Some? && searches == old(searches) && nodeAt == old(nodeAt)
      ensures ok ==> Tied() && fs == Place(old(fs), file.ino, ino).value && file.nblks == old(file.nblks)
      ensures ok ==> LinkedNext(fs.use, blockAt, file.ino, file.nblks, file.l1, file.l2)
      ensures ok ==> old(repr) <= repr && fresh(repr - old(repr))
    {
      hide Tied, Whole, Below, Linked, SetSlot, LeafReady, Place, WithDouble, WithLeaf, CachedFor, Used, Slot, Pointers;
      FileLinked(file);
      PlaceInSteps(fs, file.ino, ino);
      var q := file.nblks - SINGLE;
      var l1, l2;
      ok, l2 := FetchDouble(file, ino);
      if !ok {
        return;
      }
      ok, l1 := FetchLeaf(file, l2, q / ENTRIES);
      if !ok {
        return;
      }
      CachedLength(l1, Leaf(file.ino, q / ENTRIES));
      SetWord(l1, q % ENTRIES, ino);
    }
  
    /** append_block: block `ino` becomes the next block of the inode. */
    method AppendBlock(file: CacheInode, size: nat, ino: nat) returns (ok: bool)
      requires Tied() && Whole(fs, ino) && file.ino in nodeAt && nodeAt[file.ino] == file && size <= BLOCK_SIZE
      requires file.ino in fs.nodes && Used(fs, ino, Data(file.ino, fs.nodes[file.ino].blocks))
      requires |fs.nodes[file.ino].direct| == DIRECT
      modifies this`nextIno, this`unusedBlocks, this`fs, this`blockAt, this`searches, this`repr, repr
      ensures ok == Append(old(fs), file.ino, size, ino).Some? && searches == old(searches) && nodeAt == old(nodeAt)
      ensures ok ==> Tied() && fs == Append(old(fs), file.ino, size, ino).value
      ensures ok ==> old(repr) <= repr && fresh(repr - old(repr))
    {
      hide Tied, Whole, Linked, Used, LinkedNext, Caches;
      FileLinked(file);
      var nblks := file.nblks;
      if nblks >= MAX_BLOCKS {
        return false;
      }
      ok := true;
      if nblks < DIRECT {
        SetDirect(file, ino);
        FirstLinked(file);
      } else if nblks < SINGLE {
        ok := AppendIndirect(file, ino);
      } else {
        ok := AppendDouble(file, ino);
      }
      if ok {
        CountBlock(file, size);
      }
    }

    lemma FirstLinked(file: CacheInode)
      requires file.nblks < DIRECT
      ensures LinkedNext(fs.use, blockAt, file.ino, file.nblks, file.l1, file.l2)
    {
    }
  
    method CountLink(file: CacheInode)
      requires Tied() && file.ino in nodeAt && nodeAt[file.ino] == file && file.ino in fs.nodes
      modifies file, this`fs
      ensures Tied() && fs == AddLink(old(fs), file.ino)
    {
      hide ImageTied, NodesTied, BlocksTied, InodeChains, BlockChains, Nodes, Caches, Others, CachedFor, OthersTied,
           Linked;
      NodesSplit(nodeAt, file.ino, fs.nodes, fs.use, blockAt);
      file.nlinks := (file.nlinks + 1) % LINKS;
      NodesJoined(nodeAt, file.ino, fs.nodes, fs.use, blockAt, file.Record());
      fs := AddLink(fs, file.ino);
    }

    /** Allocate a block, write it, append it: the steps every caller of append_block takes. */
    method WriteAndAppend(file: CacheInode, data: seq<byte>, size: nat) returns (ok: bool)
      requires Tied() && Good(fs) && file.ino in nodeAt && nodeAt[file.ino] == file && file.ino in fs.nodes
      requires |fs.nodes[file.ino].direct| == DIRECT && |data| <= BLOCK_SIZE && size <= BLOCK_SIZE
      modifies this`nextIno, this`unusedBlocks, this`fs, this`blockAt, this`searches, this`image, this`repr, repr
      ensures ok == AddBlock(old(fs), file.ino, size, Pad(data)).Some? && searches == old(searches)
        && nodeAt == old(nodeAt)
      ensures ok ==> Tied() && fs == AddBlock(old(fs), file.ino, size, Pad(data)).value
      ensures ok ==> old(repr) <= repr && fresh(repr - old(repr))
    {
      hide Tied, Whole, Append, Pad;
      WholeBelow(fs, 0);
      BelowNext(fs);
      NumberLeft();
      var ino;
      ghost var before := fs;
      ok, ino := AllocIno(Data(file.ino, fs.nodes[file.ino].blocks));
      if !ok {
        return;
      }
      WriteBlock(data, ino);
      TakeWhole(before, file.ino, Pad(data));
      ok := AppendBlock(file, size, ino);
    }

    lemma NumberLeft()
      requires Tied()
      ensures nextIno == fs.next && ninos == fs.ninos && entry == fs.entry
    {
    }
  
    /** From the old state on: cached inodes stay, every object of the builder is old or new, and no
      * chain of pointer blocks was searched.
      */
    twostate predicate Later()
      reads this
    {
      && Kept(old(nodeAt), nodeAt)
      && old(repr) <= repr && fresh(repr - old(repr))
      && searches == old(searches)
    }

    ghost predicate Cached(ci: CacheInode)
      reads this
    {
      ci.ino in nodeAt && nodeAt[ci.ino] == ci && ci.ino in fs.nodes
    }

    lemma CachedIsNode(ci: CacheInode)
      requires Tied() && Cached(ci)
      ensures ci as object in repr
    {
      hide ImageTied, NodesTied, BlocksTied, InodeChains, BlockChains, Caches;
    }

    method AddEntry(cur: CacheInode, file: CacheInode, name: seq<byte>) returns (ok: bool)
      requires Tied() && Good(fs) && Cached(cur) && Cached(file) && cur.kind.Dir? && IsName(name)
      modifies this`nextIno, this`unusedBlocks, this`fs, this`blockAt, this`searches, this`image, this`entry
      modifies this`repr, repr
      ensures ok == SfsTree.AddEntry(old(fs), cur.ino, file.ino, name).Some? && searches == old(searches)
        && nodeAt == old(nodeAt)
      ensures ok ==> Tied() && fs == SfsTree.AddEntry(old(fs), cur.ino, file.ino, name).value && Good(fs)
      ensures ok ==> old(repr) <= repr && fresh(repr - old(repr))
    {
      hide Tied, Whole, AddBlock, Pad, Le32, CopyName, AddLink;
      GoodBounds(fs);
      GoodDirect(fs, cur.ino);
      FileLinked(cur);
      NumberLeft();
      ghost var before := fs;
      SetBuffer(CopyName(entry, name));
      ghost var buffered := fs;
      BufferGood(before, buffered.entry);
      ok := WriteAndAppend(cur, Le32(file.ino) + entry[..NAME_KEPT], ENTRY_SIZE);
      if ok {
        AddBlockGood(buffered, cur.ino, ENTRY_SIZE, EntryBlock(file.ino, buffered.entry));
        AddLinkGood(fs, file.ino);
        CachedIsNode(file);
        CountLink(file);
      }
    }

    method SetBuffer(buffer: seq<byte>)
      requires Tied()
      modifies this`entry, this`fs
      ensures Tied() && entry == buffer && fs == old(fs).(entry := buffer)
    {
      hide ImageTied, NodesTied, BlocksTied, InodeChains, BlockChains, Nodes, Caches;
      entry := buffer;
      fs := fs.(entry := buffer);
    }
  
    method OpenFile(file: CacheInode, bytes: seq<byte>) returns (ok: bool)
      requires Tied() && Good(fs) && Cached(file)
      modifies this`nextIno, this`unusedBlocks, this`fs, this`blockAt, this`searches, this`image, this`repr, repr
      ensures ok == AddBytes(old(fs), file.ino, bytes).Some? && searches == old(searches) && nodeAt == old(nodeAt)
      ensures ok ==> Tied() && Good(fs) && fs == AddBytes(old(fs), file.ino, bytes).value
      ensures ok ==> old(repr) <= repr && fresh(repr - old(repr))
    {
      hide Tied, Whole, AddBlock, Pad;
      var pos := 0;
      while pos < |bytes|
        invariant pos <= |bytes| && Tied() && Good(fs) && nodeAt == old(nodeAt) && searches == old(searches)
          && Cached(file)
        invariant old(repr) <= repr && fresh(repr - old(repr))
        invariant AddBytes(old(fs), file.ino, bytes) == AddBytes(fs, file.ino, bytes[pos..])
      {
        GoodDirect(fs, file.ino);
        ghost var before, rest := fs, bytes[pos..];
        var chunk := Chunk(bytes[pos..]);
        ok := WriteAndAppend(file, chunk, |chunk|);
        if !ok {
          return;
        }
        AddBlockGood(before, file.ino, |chunk|, Pad(chunk));
        KeysTied();
        pos := pos + |chunk|;
        assert rest[|chunk|..] == bytes[pos..];
      }
      ok := true;
    }
  
    /** alloc_cache_inode as the callers use it. */
    method NewInode(host: nat, kind: Kind) returns (ok: bool, ci: CacheInode?)
      requires Tied() && Good(fs)
      modifies this, repr
      ensures ok == AddNode(old(fs), host, kind).Some?
      ensures ok ==> Tied() && Good(fs) && Later() && fs == AddNode(old(fs), host, kind).value
      ensures ok ==> ci != null && ci.ino == old(fs).next && ci.kind == kind && Cached(ci)
      ensures ok ==> |fs.nodes[ci.ino].direct| == DIRECT
    {
      hide Tied, Whole;
      GoodNext(fs);
      WholeBelow(fs, 0);
      BelowNext(fs);
      TablesInRepr();
      KeysTied();
      ok, ci := AllocCacheInode(host, kind);
      if ok {
        AddNodeGood(old(fs), host, kind);
        KeysTied();
      }
    }

    /** The first part of add_file: the image inode of a host file, filled if it is new. */
    method FileInode(id: nat, bytes: seq<byte>) returns (ok: bool, file: CacheInode?)
      requires Tied() && Good(fs)
      modifies this, repr
      ensures ok == SfsTree.AddFile(old(fs), id, bytes).Some?
      ensures ok ==> Tied() && Good(fs) && Later() && file != null && Cached(file)
      ensures ok ==> SfsTree.AddFile(old(fs), id, bytes) == Some((fs, file.ino))
    {
      hide Tied, Whole, AddBytes, AddNode;
      ok := true;
      file := SearchCacheInode(id);
      if file == null {
        ok, file := NewInode(id, File);
        if ok {
          ok := OpenFile(file, bytes);
          if ok {
            KeysTied();
          }
        }
      }
    }

    /** The first part of add_link: an image inode that holds the link's target. */
    method OpenLink(id: nat, target: seq<byte>) returns (ok: bool, file: CacheInode?)
      requires Tied() && Good(fs)
      modifies this, repr
      ensures ok == AddTarget(old(fs), id, target).Some?
      ensures ok ==> Tied() && Good(fs) && Later() && file != null && Cached(file)
      ensures ok ==> AddTarget(old(fs), id, target) == Some((fs, file.ino))
    {
      hide Tied, Whole, AddNode, AddBlock, Pad;
      ok, file := NewInode(id, Link);
      if !ok || |target| >= BLOCK_SIZE {
        return false, null;
      }
      ghost var made := fs;
      ok := WriteAndAppend(file, target, |target|);
      if ok {
        AddBlockGood(made, file.ino, |target|, Pad(target));
        KeysTied();
      }
    }

    method AddFile(cur: CacheInode, name: seq<byte>, id: nat, bytes: seq<byte>) returns (ok: bool)
      requires Tied() && Good(fs) && Cached(cur) && cur.kind.Dir? && IsName(name)
      modifies this, repr
      ensures ok == AddTree(old(fs), cur.ino, name, Plain(id, bytes)).Some?
      ensures ok ==> Tied() && Good(fs) && Later() && fs == AddTree(old(fs), cur.ino, name, Plain(id, bytes)).value
    {
      hide Tied, Whole, SfsTree.AddFile, SfsTree.AddEntry;
      var file;
      ok, file := FileInode(id, bytes);
      if ok {
        KeysTied();
        ok := AddEntry(cur, file, name);
      }
    }

    method AddLinkEntry(cur: CacheInode, name: seq<byte>, id: nat, target: seq<byte>) returns (ok: bool)
      requires Tied() && Good(fs) && Cached(cur) && cur.kind.Dir? && IsName(name)
      modifies this, repr
      ensures ok == AddTree(old(fs), cur.ino, name, Symlink(id, target)).Some?
      ensures ok ==> Tied() && Good(fs) && Later() && fs == AddTree(old(fs), cur.ino, name, Symlink(id, target)).value
    {
      hide Tied, Whole, AddTarget, SfsTree.AddEntry;
      var file;
      ok, file := OpenLink(id, target);
      if ok {
        KeysTied();
        ok := AddEntry(cur, file, name);
      }
    }

    method AddDir(cur: CacheInode, name: seq<byte>, id: nat, items: Items) returns (ok: bool)
      requires Tied() && Good(fs) && Cached(cur) && cur.kind.Dir? && IsName(name) && CNames(items)
      modifies this, repr
      ensures ok == AddTree(old(fs), cur.ino, name, Folder(id, items)).Some?
      ensures ok ==> Tied() && Good(fs) && Later() && fs == AddTree(old(fs), cur.ino, name, Folder(id, items)).value
      decreases WeightItems(items), 2
    {
      hide Tied, Whole, AddNode, SfsTree.OpenDir, SfsTree.AddEntry, CNames, Hidden;
      var current := SearchCacheInode(id);
      if current != null {
        return false;
      }
      ok, current := NewInode(id, Dir);
      if !ok {
        return;
      }
      KeysTied();
      ok := OpenDir(current, cur, items);
      if ok {
        KeysTied();
        ok := AddEntry(cur, current, name);
      }
    }

    /** One turn of the readdir loop. */
    method AddOne(cur: CacheInode, name: seq<byte>, tree: Tree) returns (ok: bool)
      requires Tied() && Good(fs) && Cached(cur) && cur.kind.Dir? && IsName(name)
        && (tree.Folder? ==> CNames(tree.items))
      modifies this, repr
      ensures ok == AddTree(old(fs), cur.ino, name, tree).Some?
      ensures ok ==> Tied() && Good(fs) && Later() && fs == AddTree(old(fs), cur.ino, name, tree).value
      decreases Weight(tree), 2
    {
      hide Tied, Whole, Cached, CNames, SfsTree.AddFile, SfsTree.AddTarget, AddNode, SfsTree.OpenDir, SfsTree.AddEntry;
      match tree
      case Special => ok := true;
      case Plain(id, bytes) => ok := AddFile(cur, name, id, bytes);
      case Symlink(id, target) => ok := AddLinkEntry(cur, name, id, target);
      case Folder(id, items) => ok := AddDir(cur, name, id, items);
    }

    method OpenDir(current: CacheInode, parent: CacheInode, items: Items) returns (ok: bool)
      requires Tied() && Good(fs) && Cached(current) && Cached(parent) && current.kind.Dir? && CNames(items)
      modifies this, repr
      ensures ok == SfsTree.OpenDir(old(fs), current.ino, parent.ino, items).Some?
      ensures ok ==>
        Tied() && Good(fs) && Later() && fs == SfsTree.OpenDir(old(fs), current.ino, parent.ino, items).value
      decreases WeightItems(items), 1
    {
      hide Tied, Whole, SfsTree.AddEntry, Walk;
      ok := AddEntry(current, current, [DOT]);
      if !ok {
        return;
      }
      KeysTied();
      ok := AddEntry(current, parent, [DOT, DOT]);
      if !ok {
        return;
      }
      KeysTied();
      ok := CopyItems(current, items);
    }

    /** The readdir loop of open_dir. */
    method CopyItems(current: CacheInode, items: Items) returns (ok: bool)
      requires Tied() && Good(fs) && Cached(current) && current.kind.Dir? && CNames(items)
      modifies this, repr
      ensures ok == Walk(old(fs), current.ino, items).Some?
      ensures ok ==> Tied() && Good(fs) && Later() && fs == Walk(old(fs), current.ino, items).value
      decreases WeightItems(items), 0
    {
      hide Tied, Whole, AddTree;
      ok := true;
      var rest := items;
      while rest.Item?
        invariant ok && Tied() && Good(fs) && Later() && Cached(current) && CNames(rest)
          && WeightItems(rest) <= WeightItems(items)
        invariant Walk(old(fs), current.ino, items) == Walk(fs, current.ino, rest)
        decreases WeightItems(rest)
      {
        if !Hidden(rest.name) {
          if |rest.name| > NAME_MAX {
            return false;
          }
          ok := AddOne(current, rest.name, rest.tree);
          if !ok {
            return;
          }
          KeysTied();
        }
        rest := rest.rest;
      }
    }
  
    // ---- create_sfs and close_sfs ----

    /** An image of ninos blocks of which the first nextIno are taken, with its root directory. */
    constructor (ninos: nat, nextIno: nat)
      requires FirstFree(ninos) == nextIno < ninos <= IMAGE_BLOCKS
      ensures Tied() && fresh(repr) && Create(ninos * BLOCK_SIZE) == Some(fs) && Good(fs) && searches == 0
      ensures root.ino == ROOT && root.kind == Dir && Cached(root)
    {
      hide Hash32, FirstFree, Whole, Fill, InodeChains, BlockChains, ImageTied, NodesTied, BlocksTied, Nodes, Caches,
           AddNode;
      this.ninos, this.nextIno, unusedBlocks := ninos, nextIno, ninos - nextIno;
      entry := Fill(256);
      image := seq(ninos, _ => Unwritten);
      inodes := new seq<CacheInode>[HASH_LIST_SIZE](_ => []);
      blocks := new seq<CacheBlock>[HASH_LIST_SIZE](_ => []);
      root := new CacheInode(0, ROOT, Dir);
      fs := Unbuilt(ninos);
      nodeAt, blockAt, searches := map[], map[], 0;
      new;
      repr := {inodes as object, blocks};
      NothingCached(inodes[..], blocks[..], ninos);
      HangInode(root);
      RootBuilt(ninos);
      KeysTied();
    }
  
    method WriteBitmap(ghost image0: Image) returns (ghost done: set<nat>)
      requires Tied() && Good(fs) && image == image0
      modifies this`image
      ensures Partly(fs, image0, image, done) && forall b: nat :: 2 <= b < FirstFree(fs.ninos) ==> b in done
    {
      hide Tied, Whole, Partly, BitmapBlock;
      NumberLeft();
      ImageSize();
      GoodCounted(fs);
      done := {};
      assert Partly(fs, image0, image, {}) by { NoneWritten(fs, image0); }
      var i, ino := 0, 2;
      while i < ninos
        invariant i == (ino - 2) * MAP_BITS && 2 <= ino <= FirstFree(fs.ninos) && |image| == ninos
        invariant Partly(fs, image0, image, done) && forall b: nat :: 2 <= b < ino ==> b in done
        decreases ninos - i
      {
        var bits := FillBitmap(ninos, nextIno, i);
        assert i / MAP_BITS == ino - 2;
        OneWritten(fs, image0, image, done, ino, Bits(bits));
        image := image[ino := Bits(bits)];
        done := done + {ino};
        ino, i := ino + 1, i + MAP_BITS;
      }
    }

    lemma ImageSize()
      requires Tied()
      ensures |image| == ninos == fs.ninos && ImageTied(image, fs.ninos, fs.disk)
    {
      hide NodesTied, BlocksTied, InodeChains, BlockChains, Nodes, Caches;
    }
  
    lemma BlockContents(cb: CacheBlock)
      requires Tied() && Good(fs) && cb in blocks[0]
      ensures cb.ino < fs.ninos && Words(cb.cache[..]) == Written(fs, cb.ino)
    {
      hide ImageTied, NodesTied, InodeChains, Nodes, Caches, Whole;
      UsesApart(fs);
    }

    lemma NodeContents(h: nat, ci: CacheInode)
      requires Tied() && Good(fs) && h < HASH_LIST_SIZE && ci in inodes[h]
      ensures ci.ino < fs.ninos && Record(ci.Record()) == Written(fs, ci.ino)
    {
      hide ImageTied, BlocksTied, BlockChains, Nodes, Caches, Whole, ChainsFind, Hash32, Linked;
      assert ci.ino in nodeAt && nodeAt[ci.ino] == ci;
      assert NodeTied(nodeAt[ci.ino], ci.ino, fs.nodes[ci.ino], fs.use, blockAt);
      UsesApart(fs);
    }

    /** Flush the pointer blocks of chain h. */
    method FlushBlocks(h: nat, ghost image0: Image, ghost done: set<nat>) returns (ghost done': set<nat>)
      requires Good(fs) && h < blocks.Length && Partly(fs, image0, image, done)
      requires BlocksReady(fs, blocks[h])
      modifies this`image
      ensures Partly(fs, image0, image, done') && done <= done'
      ensures forall k :: 0 <= k < |blocks[h]| ==> blocks[h][k].ino in done'
    {
      hide Whole, Written;
      done' := done;
      var chain := blocks[h];
      var k := 0;
      while k < |chain|
        invariant 0 <= k <= |chain| && Partly(fs, image0, image, done') && done <= done'
        invariant forall j :: 0 <= j < k ==> chain[j].ino in done'
      {
        var cb := chain[k];
        OneWritten(fs, image0, image, done', cb.ino, Words(cb.cache[..]));
        image := image[cb.ino := Words(cb.cache[..])];
        done' := done' + {cb.ino};
        k := k + 1;
      }
    }

    /** Flush the inodes of chain h. */
    method FlushInodes(h: nat, ghost image0: Image, ghost done: set<nat>) returns (ghost done': set<nat>)
      requires Good(fs) && h < inodes.Length && Partly(fs, image0, image, done)
      requires InodesReady(fs, inodes[h])
      modifies this`image
      ensures Partly(fs, image0, image, done') && done <= done'
      ensures forall k :: 0 <= k < |inodes[h]| ==> inodes[h][k].ino in done'
    {
      hide Whole, Written;
      done' := done;
      var chain := inodes[h];
      var k := 0;
      while k < |chain|
        invariant 0 <= k <= |chain| && Partly(fs, image0, image, done') && done <= done'
        invariant forall j :: 0 <= j < k ==> chain[j].ino in done'
      {
        var ci := chain[k];
        OneWritten(fs, image0, image, done', ci.ino, Record(ci.Record()));
        image := image[ci.ino := Record(ci.Record())];
        done' := done' + {ci.ino};
        k := k + 1;
      }
    }
  
    /** Before close_sfs writes anything, every chain is ready, and together they hold everything cached. */
    lemma AllReady(h: nat)
      requires Tied() && Good(fs) && h < HASH_LIST_SIZE
      ensures h < inodes.Length && h < blocks.Length
      ensures BlocksReady(fs, blocks[h]) && InodesReady(fs, inodes[h])
    {
      hide Whole, ImageTied, NodesTied, BlocksTied, InodeChains, Nodes, Caches, Written, Hash32;
      assert h > 0 ==> blocks[..][h] == [];
      forall k | 0 <= k < |blocks[h]| ensures blocks[h][k].ino < fs.ninos
        && Words(blocks[h][k].cache[..]) == Written(fs, blocks[h][k].ino) {
        BlockContents(blocks[h][k]);
      }
      forall k | 0 <= k < |inodes[h]| ensures inodes[h][k].ino < fs.ninos
        && Record(inodes[h][k].Record()) == Written(fs, inodes[h][k].ino) {
        NodeContents(h, inodes[h][k]);
      }
    }

    /** Inode n is in its chain, and pointer block b in chain 0. */
    lemma Chained(n: nat)
      requires Tied()
      ensures n in fs.nodes ==> exists h: nat, k: nat :: h < inodes.Length && k < |inodes[h]| && inodes[h][k].ino == n
      ensures n in fs.index ==> exists k: nat :: k < |blocks[0]| && blocks[0][k].ino == n
    {
      hide ImageTied, Nodes, Caches, Hash32, Linked;
      if n in fs.nodes {
        assert NodeTied(nodeAt[n], n, fs.nodes[n], fs.use, blockAt);
        var h := Hash32(nodeAt[n].host);
        assert nodeAt[n] in inodes[..][h];
        var k :| 0 <= k < |inodes[h]| && inodes[h][k] == nodeAt[n];
      }
      if n in fs.index {
        assert blockAt[n] in blocks[..][0];
        var k :| 0 <= k < |blocks[0]| && blocks[0][k] == blockAt[n];
      }
    }
  
    /** The last loop of close_sfs: flush every chain of both tables. */
    method FlushAll(ghost image0: Image, ghost done: set<nat>) returns (ghost done': set<nat>)
      requires Good(fs) && inodes.Length == HASH_LIST_SIZE && blocks.Length == HASH_LIST_SIZE
      requires Partly(fs, image0, image, done)
      requires forall h :: 0 <= h < HASH_LIST_SIZE ==> BlocksReady(fs, blocks[h])
      requires forall h :: 0 <= h < HASH_LIST_SIZE ==> InodesReady(fs, inodes[h])
      modifies this`image
      ensures Partly(fs, image0, image, done') && done <= done'
      ensures forall k :: 0 <= k < |blocks[0]| ==> blocks[0][k].ino in done'
      ensures forall h, k :: 0 <= h < HASH_LIST_SIZE && 0 <= k < |inodes[h]| ==> inodes[h][k].ino in done'
    {
      hide Whole, Written, Partly, BlocksReady, InodesReady;
      done' := done;
      var i := 0;
      while i < HASH_LIST_SIZE
        invariant 0 <= i <= HASH_LIST_SIZE && Partly(fs, image0, image, done') && done <= done'
        invariant i > 0 ==> forall k :: 0 <= k < |blocks[0]| ==> blocks[0][k].ino in done'
        invariant forall h, k :: 0 <= h < i && 0 <= k < |inodes[h]| ==> inodes[h][k].ino in done'
      {
        done' := FlushBlocks(i, image0, done');
        done' := FlushInodes(i, image0, done');
        i := i + 1;
      }
    }

    method CloseSfs()
      requires Tied() && Good(fs)
      modifies this`image
      ensures Closed(fs, image)
    {
      hide Whole, Partly, Tied, Written, Closed, BlocksReady, InodesReady, FirstFree;
      GoodCounted(fs);
      NumberLeft();
      ImageSize();
      TableSizes();
      ghost var image0 := image;
      forall h | 0 <= h < HASH_LIST_SIZE ensures BlocksReady(fs, blocks[h]) && InodesReady(fs, inodes[h]) {
        AllReady(h);
      }
      forall n: nat ensures n in fs.nodes ==> exists h: nat, k: nat ::
        h < inodes.Length && k < |inodes[h]| && inodes[h][k].ino == n
        ensures n in fs.index ==> exists k: nat :: k < |blocks[0]| && blocks[0][k].ino == n
      {
        Chained(n);
      }
      ghost var done := WriteBitmap(image0);
      SuperWritten(fs, image0, image, done);
      image := image[0 := Super(ninos, unusedBlocks)];
      done := done + {0};
      done := FlushAll(image0, done);
      AllWritten(fs, image0, image, done);
    }

    lemma TableSizes()
      requires Tied()
      ensures inodes.Length == HASH_LIST_SIZE && blocks.Length == HASH_LIST_SIZE && unusedBlocks == fs.unused
    {
    }
  }

  lemma SuperWritten(fs: Fs, image0: Image, image: Image, done: set<nat>)
    requires Partly(fs, image0, image, done) && fs.ninos > 0
    ensures |image| > 0 && Partly(fs, image0, image[0 := Super(fs.ninos, fs.unused)], done + {0})
  {
    OneWritten(fs, image0, image, done, 0, Super(fs.ninos, fs.unused));
  }

  lemma CreateBySize(size: nat)
    ensures var ninos := ImageBlocks(size);
            Create(size) == if FirstFree(ninos) >= ninos then None else Create(ninos * BLOCK_SIZE)
  {
    hide FirstFree;
    var ninos := ImageBlocks(size);
    assert ninos * BLOCK_SIZE / BLOCK_SIZE == ninos;
  }

  /** create_img: make the file system, copy the host directory from the root, write everything out. */
  method CreateImage(size: nat, items: Items) returns (ok: bool, image: Image)
    requires CNames(items)
    ensures ok == Build(size, items).Some?
    ensures ok ==> Closed(Build(size, items).value, image)
  {
    hide Whole, SfsTree.OpenDir, Closed, FirstFree, Create, CNames, Sfs.Tied;
    CreateBySize(size);
    var ninos := size / BLOCK_SIZE % COUNTS;
    if ninos > IMAGE_BLOCKS {
      ninos := IMAGE_BLOCKS;
    }
    var nextIno := FirstFree(ninos);
    ok, image := false, [];
    if nextIno < ninos {
      var sfs := new Sfs(ninos, nextIno);
      ok := sfs.OpenDir(sfs.root, sfs.root, items);
      if ok {
        sfs.CloseSfs();
        image := sfs.image;
      }
    }
  }
}
