/** A finished image byte for byte: where a reader of struct inode and struct sfs_entry (lab8/tools/mksfs.c,
  * lab8/kern/fs/sfs/sfs.h) finds the host directory. Every place and number is written out here; nothing of the
  * builder is used to say it.
  */
module SfsLayout {
  import opened SfsBlocks
  import opened SfsNodes
  import opened SfsEntries
  import opened SfsTree
  import opened SfsSteps
  import opened SfsRoundTrip
  import opened SfsImage
  import opened SfsRoom
  import opened SfsBytes
  import opened SfsReads
  import opened SfsSizes
  import opened SfsLinks

  type Disk = seq<seq<byte>>

  function ByteOn(disk: Disk, b: nat, x: nat): byte {
    if b < |disk| && x < |disk[b]| then disk[b][x] else 0
  }

  /** Two bytes, the low one first. */
  function HalfOn(disk: Disk, b: nat, x: nat): nat {
    ByteOn(disk, b, x) + 0x100 * ByteOn(disk, b, x + 1)
  }

  /** Four bytes, the lowest first. */
  function WordOn(disk: Disk, b: nat, x: nat): nat {
    HalfOn(disk, b, x) + 0x1_0000 * HalfOn(disk, b, x + 2)
  }

  /** The number of the i-th block of an inode: twelve in the inode from byte 12 on, 1024 in the block it names at byte
    * 60, and 1024 in each of those named in the block it names at byte 64.
    */
  function NumberOn(disk: Disk, ino: nat, i: nat): nat {
    if i < 12 then WordOn(disk, ino, 12 + 4 * i)
    else if i < 1036 then WordOn(disk, WordOn(disk, ino, 60), 4 * (i - 12))
    else WordOn(disk, WordOn(disk, WordOn(disk, ino, 64), 4 * ((i - 1036) / 1024)), 4 * ((i - 1036) % 1024))
  }

  /** The inode's size, type and number of blocks. */
  predicate InodeOn(disk: Disk, ino: nat, size: nat, code: nat, blocks: nat) {
    WordOn(disk, ino, 0) == size && HalfOn(disk, ino, 4) == code && WordOn(disk, ino, 8) == blocks
  }

  ghost predicate DataOn(disk: Disk, ino: nat, bytes: seq<byte>) {
    forall x | 0 <= x < |bytes| :: ByteOn(disk, NumberOn(disk, ino, x / 4096), x % 4096) == bytes[x]
  }

  /** Block `b` holds an entry: the inode number, and behind it the first 252 bytes of the name and a zero. */
  ghost predicate EntryOn(disk: Disk, b: nat, ino: nat, name: seq<byte>) {
    var kept := if |name| <= 252 then |name| else 252;
    && WordOn(disk, b, 0) == ino && ByteOn(disk, b, 4 + kept) == 0
    && forall x | 0 <= x < kept :: ByteOn(disk, b, 4 + x) == name[x]
  }

  /** Names that begin with '.' are not copied. */
  predicate DotName(name: seq<byte>) {
    name != [] && name[0] == 46
  }

  /** Block `ino` and those it names hold the host tree; a file has the number in `known`. */
  ghost predicate TreeOn(disk: Disk, parent: nat, ino: nat, tree: Tree, known: map<nat, nat>)
    decreases tree
  {
    match tree
    case Plain(id, bytes) =>
      && id in known && known[id] == ino
      && InodeOn(disk, ino, |bytes|, 1, (|bytes| + 4095) / 4096) && DataOn(disk, ino, bytes)
    case Symlink(_, target) => InodeOn(disk, ino, |target|, 3, 1) && DataOn(disk, ino, target)
    case Folder(_, items) =>
      && InodeOn(disk, ino, 256 * WordOn(disk, ino, 8), 2, WordOn(disk, ino, 8))
      && EntryOn(disk, NumberOn(disk, ino, 0), ino, [46]) && EntryOn(disk, NumberOn(disk, ino, 1), parent, [46, 46])
      && ItemsOn(disk, ino, 2, items, known)
    case Special => false
  }

  /** The entries of directory `dir` from number `i` to its last one hold the host items. */
  ghost predicate ItemsOn(disk: Disk, dir: nat, i: nat, items: Items, known: map<nat, nat>)
    decreases items
  {
    match items
    case Nil => WordOn(disk, dir, 8) == i
    case Item(name, tree, rest) =>
      if DotName(name) || tree.Special? then ItemsOn(disk, dir, i, rest, known)
      else
        var b := NumberOn(disk, dir, i);
        && EntryOn(disk, b, WordOn(disk, b, 0), name) && TreeOn(disk, dir, WordOn(disk, b, 0), tree, known)
        && ItemsOn(disk, dir, i + 1, rest, known)
  }

  // ---- single blocks ----

  lemma WordIs(disk: Disk, b: nat, k: nat)
    requires b < |disk| && |disk[b]| == BLOCK_SIZE && k < ENTRIES
    ensures WordOn(disk, b, 4 * k) == WordAt(disk[b], k)
  {
  }

  lemma SlotIs(disk: Disk, b: nat, k: nat)
    requires (forall c :: 0 <= c < |disk| ==> |disk[c]| == BLOCK_SIZE) && k < ENTRIES
    ensures Slot(MountBytes(disk).index, b, k) == WordOn(disk, b, 4 * k)
  {
    hide WordAt;
    if b < |disk| {
      WordIs(disk, b, k);
    }
  }

  /** What the builder has made, and the blocks it left on the disk. */
  ghost predicate Finished(fs: Fs, disk: Disk) {
    && Good(fs) && Narrow(fs) && NodesSized(fs)
    && (forall b :: 0 <= b < |disk| ==> |disk[b]| == BLOCK_SIZE) && Extends(fs, MountBytes(disk))
    && (forall n :: n in fs.nodes ==> n < |disk| && Stored(Record(fs.nodes[n]), disk[n]))
    && forall n :: n in fs.nodes && fs.nodes[n].kind.File? ==> Laid(fs, n)
  }

  lemma NodeOn(fs: Fs, disk: Disk, n: nat)
    requires Finished(fs, disk) && n in fs.nodes
    ensures Good(fs) && Extends(fs, MountBytes(disk)) && n < |disk| && Stored(Record(fs.nodes[n]), disk[n])
    ensures NarrowNode(fs.nodes[n]) && fs.nodes[n].blocks <= MAX_BLOCKS
    ensures forall b :: 0 <= b < |disk| ==> |disk[b]| == BLOCK_SIZE
  {
    hide Stored, Extends, NodesSized, Laid, NarrowNode;
    NodeBound(fs, n);
  }

  /** The words of an inode, at their places in its block. */
  lemma InodeWordOn(fs: Fs, disk: Disk, n: nat, k: nat)
    requires Finished(fs, disk) && n in fs.nodes && k < 17
    ensures |InodeWords(fs.nodes[n])| == 17 && WordOn(disk, n, 4 * k) == InodeWords(fs.nodes[n])[k]
  {
    hide Finished, Extends, WordBytes, WordAt, Good, MountBytes;
    NodeOn(fs, disk, n);
    var words := InodeWords(fs.nodes[n]);
    WordBack(words, Fill(BLOCK_SIZE - 4 * |words|), k);
    WordIs(disk, n, k);
  }

  lemma Halves(lo: nat, hi: nat, code: nat, count: nat)
    requires lo < 0x1_0000 && code < 0x1_0000 && lo + 0x1_0000 * hi == code + 0x1_0000 * count
    ensures lo == code && hi == count
  {
  }

  function CodeOf(kind: Kind): nat {
    if kind.File? then 1 else if kind.Dir? then 2 else 3
  }

  lemma FieldsOn(fs: Fs, disk: Disk, n: nat)
    requires Finished(fs, disk) && n in fs.nodes
    ensures InodeOn(disk, n, fs.nodes[n].size, CodeOf(fs.nodes[n].kind), fs.nodes[n].blocks)
    ensures HalfOn(disk, n, 6) == fs.nodes[n].nlinks
  {
    hide Finished, ByteOn;
    InodeWordOn(fs, disk, n, 0);
    InodeWordOn(fs, disk, n, 1);
    InodeWordOn(fs, disk, n, 2);
    var node := fs.nodes[n];
    Halves(HalfOn(disk, n, 4), HalfOn(disk, n, 6), CodeOf(node.kind), node.nlinks);
  }

  lemma PointerWords(node: Inode)
    requires |node.direct| == DIRECT
    ensures |InodeWords(node)| == 17
    ensures forall i | 0 <= i < 12 :: InodeWords(node)[3 + i] == node.direct[i]
    ensures InodeWords(node)[15] == node.indirect && InodeWords(node)[16] == node.dbIndirect
  {
  }

  lemma NumberMounted(fs: Fs, disk: Disk, n: nat, i: nat)
    requires Finished(fs, disk) && n in fs.nodes && i < fs.nodes[n].blocks <= MAX_BLOCKS
    requires |fs.nodes[n].direct| == DIRECT && forall b :: 0 <= b < |disk| ==> |disk[b]| == BLOCK_SIZE
    ensures NumberOn(disk, n, i) == Lookup(MountBytes(disk).index, fs.nodes[n], i)
  {
    hide Finished, WordOn, Slot, InodeWords, MountBytes;
    var node := fs.nodes[n];
    PointerWords(node);
    if i < 12 {
      InodeWordOn(fs, disk, n, 3 + i);
    } else if i < 1036 {
      InodeWordOn(fs, disk, n, 15);
      SlotIs(disk, node.indirect, i - 12);
    } else {
      InodeWordOn(fs, disk, n, 16);
      SlotIs(disk, node.dbIndirect, (i - 1036) / 1024);
      SlotIs(disk, Slot(MountBytes(disk).index, node.dbIndirect, (i - 1036) / 1024), (i - 1036) % 1024);
    }
  }

  /** The chain of numbers leads to the blocks of the inode. */
  lemma NumberIs(fs: Fs, disk: Disk, n: nat, i: nat)
    requires Finished(fs, disk) && n in fs.nodes && i < fs.nodes[n].blocks
    ensures NumberOn(disk, n, i) == Lookup(fs.index, fs.nodes[n], i)
  {
    hide Finished, Good, Sorted, Extends, Mapped, Stored, MountBytes, Lookup, NumberOn;
    NodeOn(fs, disk, n);
    GoodSorted(fs, n);
    LookupExtends(fs, MountBytes(disk), n, i);
    NumberMounted(fs, disk, n, i);
  }

  /** Places for numbers that the inode does not need are zero. */
  lemma UnusedOn(fs: Fs, disk: Disk, n: nat)
    requires Finished(fs, disk) && n in fs.nodes
    ensures forall i | fs.nodes[n].blocks <= i < 12 :: WordOn(disk, n, 12 + 4 * i) == 0
    ensures fs.nodes[n].blocks <= 12 ==> WordOn(disk, n, 60) == 0
    ensures fs.nodes[n].blocks <= 1036 ==> WordOn(disk, n, 64) == 0
  {
    hide WordOn, Narrow, Extends, Stored, Laid, Reached, Sorted, Lookup, Slot, InodeWords, Finished, Good;
    var node := fs.nodes[n];
    NodeOn(fs, disk, n);
    UnusedZero(fs, disk, n);
    PointerWords(node);
    InodeWordOn(fs, disk, n, 15);
    InodeWordOn(fs, disk, n, 16);
    forall i | node.blocks <= i < 12 ensures WordOn(disk, n, 12 + 4 * i) == 0 {
      InodeWordOn(fs, disk, n, 3 + i);
      assert 4 * (3 + i) == 12 + 4 * i && InodeWords(node)[3 + i] == node.direct[i];
    }
  }

  lemma UnusedZero(fs: Fs, disk: Disk, n: nat)
    requires Finished(fs, disk) && n in fs.nodes
    ensures |fs.nodes[n].direct| == DIRECT && forall i | fs.nodes[n].blocks <= i < 12 :: fs.nodes[n].direct[i] == 0
    ensures fs.nodes[n].blocks <= 12 ==> fs.nodes[n].indirect == 0
    ensures fs.nodes[n].blocks <= 1036 ==> fs.nodes[n].dbIndirect == 0
  {
    hide Narrow, Extends, Stored, Laid, Reached, Sorted, Lookup, Slot;
    assert Mapped(fs, n, fs.nodes[n]);
  }

  lemma ContentOn(fs: Fs, disk: Disk, n: nat, i: nat)
    requires Finished(fs, disk) && n in fs.nodes && i < fs.nodes[n].blocks
    ensures var b := NumberOn(disk, n, i);
      && b == Blocks(fs.index, fs.nodes[n])[i] && b < |disk| && Content(fs, b) == disk[b] && |disk[b]| == BLOCK_SIZE
  {
    hide Finished, Good, Lookup, NumberOn, Stored;
    NodeOn(fs, disk, n);
    NumberIs(fs, disk, n, i);
    NoBlockShared(fs, n, i, n, i);
    var b := Lookup(fs.index, fs.nodes[n], i);
    assert b in fs.disk && MountBytes(disk).disk[b] == fs.disk[b];
  }

  /** The bytes of a file or link, one by one. */
  lemma DataIs(fs: Fs, disk: Disk, n: nat)
    requires Finished(fs, disk) && n in fs.nodes
    ensures |Bytes(fs, fs.nodes[n])| == fs.nodes[n].size && DataOn(disk, n, Bytes(fs, fs.nodes[n]))
  {
    hide Finished, Good, Extends, Lookup, Content, NumberOn, Stored;
    var node := fs.nodes[n];
    var blocks := Blocks(fs.index, node);
    NodeOn(fs, disk, n);
    BlocksLength(fs.index, node);
    forall i | 0 <= i < |blocks| ensures |Content(fs, blocks[i])| == BLOCK_SIZE {
      BlocksOnDisk(fs, n, i);
    }
    JoinLength(fs, blocks);
    forall x | 0 <= x < node.size
      ensures ByteOn(disk, NumberOn(disk, n, x / 4096), x % 4096) == Bytes(fs, node)[x]
    {
      JoinByte(fs, blocks, x);
      ContentOn(fs, disk, n, x / 4096);
    }
  }

  lemma EntryIs(fs: Fs, disk: Disk, n: nat, i: nat, name: seq<byte>)
    requires Finished(fs, disk) && n in fs.nodes && i < fs.nodes[n].blocks
    requires Entries(fs, fs.nodes[n])[i].name == Cut(name)
    ensures EntryOn(disk, NumberOn(disk, n, i), Entries(fs, fs.nodes[n])[i].ino, name)
  {
    hide Finished, NumberOn, Blocks;
    ContentOn(fs, disk, n, i);
    BlocksLength(fs.index, fs.nodes[n]);
    EntryHere(disk, NumberOn(disk, n, i), name);
  }

  lemma EntryHere(disk: Disk, b: nat, name: seq<byte>)
    requires b < |disk| && |disk[b]| == BLOCK_SIZE && ReadName(disk[b]) == Cut(name)
    ensures EntryOn(disk, b, ReadIno(disk[b]), name)
  {
    var text := disk[b][4..4 + NAME_MAX];
    assert forall x | 0 <= x < NAME_MAX :: text[x] == ByteOn(disk, b, 4 + x);
  }

  // ---- the tree ----

  lemma FileOn(fs: Fs, disk: Disk, n: nat)
    requires Finished(fs, disk) && n in fs.nodes
    ensures fs.nodes[n].kind.File? ==> fs.nodes[n].blocks == (fs.nodes[n].size + 4095) / 4096
    ensures fs.nodes[n].kind.Link? ==> fs.nodes[n].blocks == 1
    ensures fs.nodes[n].kind.Dir? ==> fs.nodes[n].size == 256 * fs.nodes[n].blocks
  {
    hide Good, Narrow, Extends, Stored, Lookup, Room;
    if fs.nodes[n].kind.File? {
      BlocksLength(fs.index, fs.nodes[n]);
    }
  }

  lemma {:induction false} TreeIs(fs: Fs, disk: Disk, lo: nat, parent: nat, ino: nat, tree: Tree)
    requires Finished(fs, disk) && Shows(fs, lo, parent, ino, tree)
    ensures TreeOn(disk, parent, ino, tree, fs.known)
    decreases tree
  {
    hide Finished, Bytes, Entries, EntryOn, DataOn, NumberOn, WordOn, HalfOn, Cut;
    FieldsOn(fs, disk, ino);
    FileOn(fs, disk, ino);
    match tree
    case Plain(id, bytes) => DataIs(fs, disk, ino);
    case Symlink(_, target) => DataIs(fs, disk, ino);
    case Folder(_, items) =>
      EntryCount(fs, ino);
      DotsCut();
      EntryIs(fs, disk, ino, 0, [46]);
      EntryIs(fs, disk, ino, 1, [46, 46]);
      ItemsAre(fs, disk, lo, ino, 2, items);
  }

  lemma DotsCut()
    ensures Cut([46]) == [46] == [DOT] && Cut([46, 46]) == [46, 46] == [DOT, DOT]
  {
  }

  lemma EntryCount(fs: Fs, n: nat)
    requires n in fs.nodes
    ensures |Entries(fs, fs.nodes[n])| == fs.nodes[n].blocks
  {
    hide Blocks;
    BlocksLength(fs.index, fs.nodes[n]);
  }

  lemma {:induction false} ItemsAre(fs: Fs, disk: Disk, lo: nat, dir: nat, i: nat, items: Items)
    requires Finished(fs, disk) && dir in fs.nodes && i <= |Entries(fs, fs.nodes[dir])|
    requires ShowsItems(fs, lo, dir, Entries(fs, fs.nodes[dir])[i..], items)
    ensures ItemsOn(disk, dir, i, items, fs.known)
    decreases items
  {
    hide Finished, Entries, Shows, TreeOn, DataOn, NumberOn, WordOn, HalfOn, Cut;
    var entries := Entries(fs, fs.nodes[dir]);
    match items
    case Nil =>
      FieldsOn(fs, disk, dir);
      EntryCount(fs, dir);
    case Item(name, tree, rest) =>
      if Dropped(name, tree) {
        ItemsAre(fs, disk, lo, dir, i, rest);
      } else {
        assert entries[i..][0] == entries[i] && entries[i..][1..] == entries[i + 1..];
        EntryCount(fs, dir);
        EntryIs(fs, disk, dir, i, name);
        TreeIs(fs, disk, lo, dir, entries[i].ino, tree);
        ItemsAre(fs, disk, lo, dir, i + 1, rest);
      }
  }

  lemma ImageFinished(size: nat, items: Items, img: Image, disk: Disk)
    requires Build(size, items).Some? && Closed(Build(size, items).value, img) && OnDisk(img, disk)
    ensures Finished(Build(size, items).value, disk)
  {
    hide Good, Narrow, Laid, OpenDir, Extends, NodesSized, MountBytes, Stored;
    BuildNarrow(size, items);
    var fs := Build(size, items).value;
    BytesExtend(fs, img, disk);
    BuildSizes(size, items);
    forall n | n in fs.nodes ensures n < |disk| && Stored(Record(fs.nodes[n]), disk[n]) {
      WrittenHere(fs, n);
    }
    forall n | n in fs.nodes && fs.nodes[n].kind.File? ensures Laid(fs, n) {
      BuildLaid(size, items, n);
    }
  }

  /** Every finished image, read byte by byte from block 1 on, holds the host directory: names, kinds, sizes, the
    * bytes of files and the targets of links, and each file once.
    */
  lemma ImageHolds(size: nat, items: Items, files: map<nat, seq<byte>>, img: Image, disk: Disk)
    requires Build(size, items).Some? && Closed(Build(size, items).value, img) && OnDisk(img, disk)
    requires AgreesItems(items, files) && 0 !in files
    ensures var known := Build(size, items).value.known;
      && TreeOn(disk, 1, 1, Folder(0, items), known)
      && forall id, id' ::
           id in files && id' in files && id in known && id' in known && known[id] == known[id'] ==> id == id'
  {
    hide Good, Entries, OpenDir, Shows, ShowsItems, Closed, OnDisk, TreeOn, Finished;
    ImageFinished(size, items, img, disk);
    CreateGood(size);
    DirStep(Create(size).value, ROOT, ROOT, items, 0, files);
    var fs := Build(size, items).value;
    RootShows(fs, items);
    TreeIs(fs, disk, 0, 1, 1, Folder(0, items));
  }

  /** The link count, the upper half of an inode's second word, is the number of entries that name it, in 16 bits. */
  lemma LinksOn(size: nat, items: Items, img: Image, disk: Disk, n: nat)
    requires Build(size, items).Some? && Closed(Build(size, items).value, img) && OnDisk(img, disk) && CNames(items)
    requires n in Build(size, items).value.nodes
    ensures HalfOn(disk, n, 6) == |NamesOf(Build(size, items).value, n)| % 0x1_0000
  {
    hide Build, Closed, OnDisk, Finished, HalfOn, NamesOf;
    ImageFinished(size, items, img, disk);
    FieldsOn(Build(size, items).value, disk, n);
    LinksAreCounted(size, items);
  }

  // ---- superblock and bitmap ----

  /** The superblock: the magic number, how many blocks the image has and how many of them are free, and its text. */
  lemma SuperOn(size: nat, items: Items, img: Image, disk: Disk)
    requires Build(size, items).Some? && Closed(Build(size, items).value, img) && OnDisk(img, disk)
    ensures WordOn(disk, 0, 0) == 0x2f8d_be2a && WordOn(disk, 0, 4) == |img|
    ensures WordOn(disk, 0, 8) == |img| - Build(size, items).value.next
    ensures (forall i | 0 <= i < 18 :: ByteOn(disk, 0, 12 + i) == "simple file system"[i] as int)
            && ByteOn(disk, 0, 30) == 0
  {
    hide Good, Narrow, Build, OnDisk, WordAt, Mapped;
    BuildNarrow(size, items);
    var fs := Build(size, items).value;
    SuperBack(fs, img, disk);
    MountBounds(fs, img, disk);
    WordIs(disk, 0, 0);
    WordIs(disk, 0, 1);
    WordIs(disk, 0, 2);
    InfoOn(fs, img, disk);
  }

  lemma InfoOn(fs: Fs, img: Image, disk: Disk)
    requires Good(fs) && Closed(fs, img) && OnDisk(img, disk)
    ensures |disk| > 0 && |disk[0]| == BLOCK_SIZE && InfoAt(disk[0])
  {
    hide Good, WordBytes, InfoAt;
    MountBounds(fs, img, disk);
    assert img[0] == Super(fs.ninos, fs.unused);
  }

  /** The bitmap starts at block 2 and has a bit for every block, the lowest bit of a byte first. */
  predicate BitOn(disk: Disk, j: nat) {
    BitSet(ByteOn(disk, 2 + j / 32768, j % 32768 / 8), j % 8)
  }

  /** Block `j` is superblock, root, bitmap, or holds an inode, numbers or data of the builder. */
  ghost predicate InUse(fs: Fs, j: nat) {
    j < 2 + (fs.ninos + 32767) / 32768 || j in fs.nodes || j in fs.index || j in fs.disk
  }

  /** A bit is set exactly for the blocks of the image that are in no use. */
  lemma BitmapOn(size: nat, items: Items, img: Image, disk: Disk, j: nat)
    requires Build(size, items).Some? && Closed(Build(size, items).value, img) && OnDisk(img, disk)
    requires j < 32768 * ((|img| + 32767) / 32768)
    ensures BitOn(disk, j) <==> j < |img| && !InUse(Build(size, items).value, j)
  {
    hide Good, Narrow, Build, BitBytes, BitSet, BitmapBlock;
    BuildNarrow(size, items);
    var fs := Build(size, items).value;
    UseKnown(fs, j);
    var b, k := 2 + j / 32768, j % 32768;
    var bits := BitmapBlock(fs.ninos, fs.next, b - 2);
    BitmapStored(fs, img, disk, j);
    ByteThere(bits, k / 8);
    ByteBit(bits[8 * (k / 8)..8 * (k / 8) + 8], k % 8);
    BitmapMarksFree(fs.ninos, fs.next, j);
  }

  lemma BitmapStored(fs: Fs, img: Image, disk: Disk, j: nat)
    requires Good(fs) && Closed(fs, img) && OnDisk(img, disk) && j < 32768 * ((|img| + 32767) / 32768)
    ensures var b := 2 + j / 32768; b < |disk| && disk[b] == BitBytes(BitmapBlock(fs.ninos, fs.next, b - 2))
    ensures fs.next <= fs.ninos == |img|
  {
    hide Mapped, Reached, Sorted, BitBytes, BitmapBlock;
    var b := 2 + j / 32768;
    assert img[b] == Bits(BitmapBlock(fs.ninos, fs.next, b - 2));
  }

  lemma UseKnown(fs: Fs, j: nat)
    requires Good(fs)
    ensures InUse(fs, j) <==> j < fs.next
  {
    hide Mapped, Reached;
  }
}
