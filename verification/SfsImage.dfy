/** The finished image: what close_sfs writes to each block, and a reader that starts from those
  * blocks alone (lab8/tools/mksfs.c).
  */
module SfsImage {
  import opened Options
  import opened SfsBlocks
  import opened SfsNodes
  import opened SfsEntries
  import opened SfsTree
  import opened SfsSteps
  import opened SfsRoundTrip

  const MAP_BITS: nat := 32768

  datatype Block = Super(blocks: nat, unused: int) | Bits(bits: seq<bool>) | Raw(bytes: seq<byte>)
                 | Words(words: seq<nat>) | Record(inode: Inode) | Unwritten

  type Image = seq<Block>

  /** ninos is a uint32_t: of the number of blocks in the file it keeps 32 bits. */
  const COUNTS: nat := 0x1_0000_0000

  /** How many blocks of an image file of `size` bytes are used: what the counter keeps, cut if too large. */
  function ImageBlocks(size: nat): nat {
    var ninos := size / BLOCK_SIZE % COUNTS;
    if ninos > IMAGE_BLOCKS then IMAGE_BLOCKS else ninos
  }

  /** All blocks of the file, or as many as an image may have, are used exactly when the counter holds their
    * number or what it keeps of it is still too large.
    */
  lemma BlocksCounted(size: nat)
    ensures ImageBlocks(size) == (if size / 4096 > 524288 then 524288 else size / 4096)
            <==> size / 4096 < 0x1_0000_0000 || size / 4096 % 0x1_0000_0000 >= 524288
  {
  }

  /** create_sfs on an image file of `size` bytes; too small a file stops the program. */
  function Create(size: nat): Option<Fs> {
    var ninos := ImageBlocks(size);
    if FirstFree(ninos) >= ninos then None else
    Some(Fs(ninos, FirstFree(ninos), ninos - FirstFree(ninos), map[], map[ROOT := Blank(Dir)], map[],
            map[ROOT := Node], map[0 := ROOT], Fill(256)))
  }

  /** Bitmap block k, from the two loops of close_sfs. */
  function BitmapBlock(ninos: nat, next: nat, k: nat): (s: seq<bool>)
    ensures |s| == MAP_BITS
  {
    var i := k * MAP_BITS;
    var start := if i < next then next - i else 0;
    var end := if i + MAP_BITS > ninos then ninos - i else MAP_BITS;
    seq(MAP_BITS, j => i + MAP_BITS > next && start <= j < end)
  }

  /** The contents of block b after close_sfs. */
  function Written(fs: Fs, b: nat): Block {
    if b == 0 then Super(fs.ninos, fs.unused)
    else if 2 <= b < FirstFree(fs.ninos) then Bits(BitmapBlock(fs.ninos, fs.next, b - 2))
    else if b in fs.nodes then Record(fs.nodes[b])
    else if b in fs.index then Words(fs.index[b])
    else if b in fs.disk then Raw(fs.disk[b])
    else Unwritten
  }

  ghost predicate Closed(fs: Fs, img: Image) {
    |img| == fs.ninos && forall b: nat :: b < fs.ninos ==> img[b] == Written(fs, b)
  }

  /** A reader's view: the blocks sorted by what they hold. */
  function Mount(img: Image): Fs {
    Fs(0, 0, 0, map b: nat | b < |img| && img[b].Raw? :: img[b].bytes,
       map b: nat | b < |img| && img[b].Record? :: img[b].inode,
       map b: nat | b < |img| && img[b].Words? :: img[b].words, map[], map[], [])
  }

  // ---- the bitmap ----

  /** Bit b of the bitmap is set exactly when block b is free. */
  lemma BitmapMarksFree(ninos: nat, next: nat, b: nat)
    requires next <= ninos
    ensures BitmapBlock(ninos, next, b / MAP_BITS)[b % MAP_BITS] <==> next <= b < ninos
  {
  }

  function Ones(bits: seq<bool>): nat {
    if bits == [] then 0 else Ones(bits[..|bits| - 1]) + (if bits[|bits| - 1] then 1 else 0)
  }

  /** Set bits of the first k bitmap blocks. */
  function OnesUpTo(ninos: nat, next: nat, k: nat): nat {
    if k == 0 then 0 else OnesUpTo(ninos, next, k - 1) + Ones(BitmapBlock(ninos, next, k - 1))
  }

  function Clip(x: int, lo: int, hi: int): int {
    if x < lo then lo else if x > hi then hi else x
  }

  lemma {:induction false} OnesInRange(bits: seq<bool>, lo: int, hi: int)
    requires lo <= hi && forall j :: 0 <= j < |bits| ==> (bits[j] <==> lo <= j < hi)
    ensures Ones(bits) == Clip(hi, 0, |bits|) - Clip(lo, 0, |bits|)
  {
    if bits != [] {
      OnesInRange(bits[..|bits| - 1], lo, hi);
    }
  }

  lemma {:induction false} OnesCounted(ninos: nat, next: nat, k: nat)
    requires next <= ninos
    ensures OnesUpTo(ninos, next, k) == Clip(ninos, 0, k * MAP_BITS) - Clip(next, 0, k * MAP_BITS)
  {
    if k > 0 {
      OnesCounted(ninos, next, k - 1);
      var i := (k - 1) * MAP_BITS;
      var bits := BitmapBlock(ninos, next, k - 1);
      forall j | 0 <= j < |bits| ensures bits[j] <==> next - i <= j < ninos - i {
        assert (i + j) / MAP_BITS == k - 1 && (i + j) % MAP_BITS == j;
        BitmapMarksFree(ninos, next, i + j);
      }
      OnesInRange(bits, next - i, ninos - i);
    }
  }

  /** The set bits of all bitmap blocks together are the free blocks the superblock counts. */
  lemma BitmapCountsUnused(fs: Fs)
    requires Good(fs)
    ensures OnesUpTo(fs.ninos, fs.next, FirstFree(fs.ninos) - 2) == fs.unused
  {
    hide Mapped, Reached;
    OnesCounted(fs.ninos, fs.next, FirstFree(fs.ninos) - 2);
  }

  // ---- reading the image ----

  /** The three kinds of block never meet, and stay clear of superblock and bitmap. */
  lemma UsesApart(fs: Fs)
    requires Good(fs)
    ensures forall b :: b in fs.nodes ==>
      b !in fs.index && b !in fs.disk && b < fs.ninos && b != 0 && !(2 <= b < FirstFree(fs.ninos))
    ensures forall b :: b in fs.index ==> b !in fs.disk && b < fs.ninos && FirstFree(fs.ninos) <= b
    ensures forall b :: b in fs.disk ==> b < fs.ninos && FirstFree(fs.ninos) <= b
  {
    hide Mapped, Reached;
  }

  lemma WrittenIs(fs: Fs, b: nat)
    requires Good(fs)
    ensures Written(fs, b).Record? <==> b in fs.nodes
    ensures Written(fs, b).Words? <==> b in fs.index
    ensures Written(fs, b).Raw? <==> b in fs.disk
    ensures b in fs.nodes || b in fs.index || b in fs.disk ==> b < fs.ninos
  {
    hide Good;
    UsesApart(fs);
  }

  lemma MountGives(fs: Fs, img: Image)
    requires Good(fs) && Closed(fs, img)
    ensures Mount(img).nodes == fs.nodes && Mount(img).index == fs.index && Mount(img).disk == fs.disk
  {
    hide Good, BitmapBlock, FirstFree;
    forall b: nat ensures b in fs.nodes ==> b < |img| && img[b] == Record(fs.nodes[b])
      ensures b in fs.index ==> b < |img| && img[b] == Words(fs.index[b])
      ensures b in fs.disk ==> b < |img| && img[b] == Raw(fs.disk[b])
      ensures b < |img| ==>
        (img[b].Record? <==> b in fs.nodes) && (img[b].Words? <==> b in fs.index) && (img[b].Raw? <==> b in fs.disk)
    {
      WrittenIs(fs, b);
    }
  }

  /** The image tree is the host tree: same bytes, same files shared, names cut to 252 bytes, hidden
    * and special entries gone. A file is named by its image inode, folders and links by any.
    */
  ghost predicate Matches(host: Tree, read: Tree, known: map<nat, nat>)
    decreases host
  {
    match host
    case Plain(id, bytes) => id in known && read == Plain(known[id], bytes)
    case Symlink(_, target) => read.Symlink? && read.bytes == target
    case Folder(_, items) => read.Folder? && MatchesItems(items, read.items, known)
    case Special => false
  }

  ghost predicate MatchesItems(host: Items, read: Items, known: map<nat, nat>)
    decreases host
  {
    match host
    case Nil => read.Nil?
    case Item(name, tree, rest) =>
      if Dropped(name, tree) then MatchesItems(rest, read, known)
      else
        && read.Item? && read.name == Cut(name) && Matches(tree, read.tree, known)
        && MatchesItems(rest, read.rest, known)
  }

  function Height(tree: Tree): nat {
    if tree.Folder? then 1 + HeightItems(tree.items) else 0
  }

  function HeightItems(items: Items): nat {
    match items
    case Nil => 0
    case Item(_, tree, rest) => if Height(tree) > HeightItems(rest) then Height(tree) else HeightItems(rest)
  }

  /** What a reader takes for inodes, pointer blocks and data includes the builder's. */
  ghost predicate Extends(fs: Fs, g: Fs) {
    && (forall n :: n in fs.nodes ==> n in g.nodes && g.nodes[n] == fs.nodes[n])
    && (forall b :: b in fs.index ==> b in g.index && g.index[b] == fs.index[b])
    && (forall b :: b in fs.disk ==> b in g.disk && g.disk[b] == fs.disk[b])
  }

  lemma LookupExtends(fs: Fs, g: Fs, n: nat, i: nat)
    requires Sorted(fs) && Extends(fs, g) && n in fs.nodes && Mapped(fs, n, fs.nodes[n]) && i < fs.nodes[n].blocks
    ensures Lookup(g.index, fs.nodes[n], i) == Lookup(fs.index, fs.nodes[n], i)
  {
    var node := fs.nodes[n];
    if i >= SINGLE {
      var k := (i - SINGLE) / ENTRIES;
      assert LeafOk(fs, n, k, Slot(fs.index, node.dbIndirect, k), node.blocks);
      assert SINGLE + k * ENTRIES <= i;
    }
  }

  lemma GoodSorted(fs: Fs, n: nat)
    requires Good(fs) && n in fs.nodes
    ensures Sorted(fs) && Mapped(fs, n, fs.nodes[n])
  {
    hide Reached, Mapped;
  }

  /** Such a reader sees the same in every inode of the builder. */
  lemma SameReading(fs: Fs, g: Fs, n: nat)
    requires Good(fs) && Extends(fs, g) && n in fs.nodes
    ensures Entries(g, fs.nodes[n]) == Entries(fs, fs.nodes[n]) && Bytes(g, fs.nodes[n]) == Bytes(fs, fs.nodes[n])
  {
    hide Good, Sorted, Mapped, Lookup, Entries, Bytes;
    GoodSorted(fs, n);
    forall i: nat | i < fs.nodes[n].blocks ensures Lookup(g.index, fs.nodes[n], i) == Lookup(fs.index, fs.nodes[n], i) {
      LookupExtends(fs, g, n, i);
    }
    assert Blocks(g.index, fs.nodes[n]) == Blocks(fs.index, fs.nodes[n]);
    ViewSame(fs, g, n);
  }

  lemma DotsSkipped(g: Fs, entries: seq<Entry>, depth: nat)
    requires |entries| >= 2 && entries[0].name == [DOT] && entries[1].name == [DOT, DOT]
    ensures ReadItems(g, entries, depth) == ReadItems(g, entries[2..], depth)
  {
    hide ReadTree;
    assert entries[1..][0] == entries[1] && entries[1..][1..] == entries[2..];
  }

  /** Reading an inode that shows a host tree gives back that tree. */
  lemma {:induction false} ShownIsRead(fs: Fs, g: Fs, lo: nat, parent: nat, ino: nat, tree: Tree, depth: nat)
    requires Good(fs) && Extends(fs, g) && Shows(fs, lo, parent, ino, tree) && depth >= Height(tree)
    ensures ReadTree(g, ino, depth).Some? && Matches(tree, ReadTree(g, ino, depth).value, fs.known)
    decreases tree
  {
    hide Good, Entries, Bytes, Cut;
    SameReading(fs, g, ino);
    match tree
    case Folder(_, items) =>
      var entries := Entries(fs, fs.nodes[ino]);
      ItemsAreRead(fs, g, lo, ino, entries[2..], items, depth - 1);
      DotsSkipped(g, entries, depth - 1);
    case _ =>
  }

  lemma {:induction false} ItemsAreRead(fs: Fs, g: Fs, lo: nat, dir: nat, entries: seq<Entry>, items: Items, depth: nat)
    requires Good(fs) && Extends(fs, g)
    requires ShowsItems(fs, lo, dir, entries, items) && depth >= HeightItems(items)
    ensures ReadItems(g, entries, depth).Some? && MatchesItems(items, ReadItems(g, entries, depth).value, fs.known)
    decreases items
  {
    hide Good, Extends, Entries, Bytes, Shows;
    match items
    case Nil =>
    case Item(name, tree, rest) =>
      if Dropped(name, tree) {
        ItemsAreRead(fs, g, lo, dir, entries, rest, depth);
      } else {
        ShownIsRead(fs, g, lo, dir, entries[0].ino, tree, depth);
        ItemsAreRead(fs, g, lo, dir, entries[1..], rest, depth);
      }
  }

  lemma CreateGood(size: nat)
    requires Create(size).Some?
    ensures Good(Create(size).value) && Entries(Create(size).value, Blank(Dir)) == []
  {
    var fs := Create(size).value;
    BlankMapped(fs, ROOT, Dir);
  }

  /** What create_img does with a host directory: make the file system, then copy from the root. */
  function Build(size: nat, items: Items): Option<Fs> {
    match Create(size)
    case None => None
    case Some(fs) => OpenDir(fs, ROOT, ROOT, items)
  }

  /** Any reader that takes the builder's blocks for what they are gets the host directory back. */
  lemma ReaderGets(size: nat, items: Items, files: map<nat, seq<byte>>, g: Fs, depth: nat)
    requires Build(size, items).Some? && Extends(Build(size, items).value, g)
    requires AgreesItems(items, files) && 0 !in files && depth > HeightItems(items)
    ensures var known := Build(size, items).value.known;
            && ReadTree(g, ROOT, depth).Some?
            && Matches(Folder(0, items), ReadTree(g, ROOT, depth).value, known)
            && forall id, id' ::
              id in files && id' in files && id in known && id' in known && known[id] == known[id'] ==> id == id'
  {
    hide Good, Entries, OpenDir, Shows, ShowsItems, ReadTree, Extends;
    CreateGood(size);
    var fs := Create(size).value;
    DirStep(fs, ROOT, ROOT, items, 0, files);
    var f := Build(size, items).value;
    RootShows(f, items);
    ShownIsRead(f, g, 0, ROOT, ROOT, Folder(0, items), depth);
  }

  /** The round trip: whenever the image is built, reading it from the root inode gives back the host
    * directory, and two host files share an image inode only if they are one file.
    */
  lemma ImageRoundTrip(size: nat, items: Items, files: map<nat, seq<byte>>, img: Image, depth: nat)
    requires Build(size, items).Some? && Closed(Build(size, items).value, img)
    requires AgreesItems(items, files) && 0 !in files && depth > HeightItems(items)
    ensures var known := Build(size, items).value.known;
            && ReadTree(Mount(img), ROOT, depth).Some?
            && Matches(Folder(0, items), ReadTree(Mount(img), ROOT, depth).value, known)
            && forall id, id' ::
              id in files && id' in files && id in known && id' in known && known[id] == known[id'] ==> id == id'
  {
    hide Good, Build, Mount, Closed, ReadTree;
    BuildGood(size, items, files);
    MountGives(Build(size, items).value, img);
    ReaderGets(size, items, files, Mount(img), depth);
  }

  lemma RootShows(fs: Fs, items: Items)
    requires ROOT in fs.nodes && fs.nodes[ROOT].kind.Dir?
    requires var entries := Entries(fs, fs.nodes[ROOT]);
             && |entries| >= 2 && entries[0] == Entry(ROOT, [DOT]) && entries[1] == Entry(ROOT, [DOT, DOT])
             && ShowsItems(fs, 0, ROOT, entries[2..], items)
    ensures Shows(fs, 0, ROOT, ROOT, Folder(0, items))
  {
    hide Entries, ShowsItems;
  }

  /** The finished state accounts for every block: each allocated one is reached for its one use. */
  lemma BuildGood(size: nat, items: Items, files: map<nat, seq<byte>>)
    requires Build(size, items).Some? && AgreesItems(items, files) && 0 !in files
    ensures Good(Build(size, items).value)
  {
    hide Good, Entries, OpenDir;
    CreateGood(size);
    DirStep(Create(size).value, ROOT, ROOT, items, 0, files);
  }

  // ---- long names ----

  /** Every visible name below has at most 252 bytes. */
  ghost predicate ShortNames(items: Items)
    decreases items
  {
    match items
    case Nil => true
    case Item(name, tree, rest) =>
      && (Dropped(name, tree) || (|name| <= NAME_KEPT && (tree.Folder? ==> ShortNames(tree.items))))
      && ShortNames(rest)
  }

  /** The names read are the host's, in every directory. */
  ghost predicate SameNames(host: Items, read: Items)
    decreases host
  {
    match host
    case Nil => true
    case Item(name, tree, rest) =>
      if Dropped(name, tree) then SameNames(rest, read)
      else read.Item? && read.name == name && SameNames(rest, read.rest)
           && (tree.Folder? ==> read.tree.Folder? && SameNames(tree.items, read.tree.items))
  }

  /** Names come back whole exactly when none has more than 252 bytes. */
  lemma {:induction false} NamesSurvive(host: Items, read: Items, known: map<nat, nat>)
    requires MatchesItems(host, read, known)
    ensures SameNames(host, read) <==> ShortNames(host)
    decreases host
  {
    match host
    case Nil =>
    case Item(name, tree, rest) =>
      if Dropped(name, tree) {
        NamesSurvive(rest, read, known);
      } else {
        NamesSurvive(rest, read.rest, known);
        if tree.Folder? {
          NamesSurvive(tree.items, read.tree.items, known);
        }
      }
  }
}
