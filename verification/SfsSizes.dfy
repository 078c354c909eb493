/** Sizes of inodes: a directory has 256 bytes for every entry, the length of the name buffer, though an entry fills a
  * block; a link has one block (lab8/tools/mksfs.c: add_entry, open_link, append_block).
  */
module SfsSizes {
  import opened SfsBlocks
  import opened SfsNodes
  import opened SfsEntries
  import opened SfsTree
  import opened SfsSteps
  import opened SfsImage
  import opened SfsRoom
  import opened SfsBytes

  /** Every directory counts 256 bytes a block, every link has one block, not full, and pointers in no use are zero. */
  ghost predicate NodesSized(fs: Fs) {
    && (forall n, i :: n in fs.nodes && fs.nodes[n].blocks <= i < |fs.nodes[n].direct| ==> fs.nodes[n].direct[i] == 0)
    && (forall d :: d in fs.nodes && fs.nodes[d].kind.Dir? ==> fs.nodes[d].size == 256 * fs.nodes[d].blocks)
    && forall l :: l in fs.nodes && fs.nodes[l].kind.Link? ==> fs.nodes[l].blocks == 1 && fs.nodes[l].size < 4096
  }

  /** A block more changes size and block count of its inode, and of no other. */
  lemma BlockSizes(fs: Fs, n: nat, size: nat, bytes: seq<byte>)
    requires n in fs.nodes && |fs.nodes[n].direct| == DIRECT && AddBlock(fs, n, size, bytes).Some?
    ensures var g := AddBlock(fs, n, size, bytes).value;
      && g.nodes.Keys == fs.nodes.Keys && (forall m :: m in fs.nodes && m != n ==> g.nodes[m] == fs.nodes[m])
      && g.nodes[n].kind == fs.nodes[n].kind && g.nodes[n].size == fs.nodes[n].size + size
      && g.nodes[n].blocks == fs.nodes[n].blocks + 1
      && g.nodes[n].direct == (var d := fs.nodes[n].direct; var i := fs.nodes[n].blocks;
                               if i < 12 then d[i := fs.next] else d)
  {
    hide SetSlot, Slot;
  }

  lemma EntrySizes(fs: Fs, cur: nat, ino: nat, name: seq<byte>)
    requires NodesSized(fs) && AddEntry(fs, cur, ino, name).Some?
    ensures NodesSized(AddEntry(fs, cur, ino, name).value)
  {
    hide AddBlock;
    var entry := CopyName(fs.entry, name);
    BlockSizes(fs.(entry := entry), cur, ENTRY_SIZE, EntryBlock(ino, entry));
  }

  /** No directory or link is changed, and none is there that was not. */
  ghost predicate FilesOnly(fs: Fs, g: Fs) {
    && (forall m :: m in fs.nodes ==> m in g.nodes && g.nodes[m].kind == fs.nodes[m].kind)
    && (forall m :: m in g.nodes && !g.nodes[m].kind.File? ==> m in fs.nodes && g.nodes[m] == fs.nodes[m])
    && (NodesSized(fs) ==> NodesSized(g))
  }

  lemma {:induction false} BytesSizes(fs: Fs, n: nat, bytes: seq<byte>)
    requires n in fs.nodes && fs.nodes[n].kind.File? && AddBytes(fs, n, bytes).Some?
    ensures FilesOnly(fs, AddBytes(fs, n, bytes).value)
    decreases |bytes|
  {
    hide AddBlock;
    if bytes != [] {
      var chunk := Chunk(bytes);
      BlockSizes(fs, n, |chunk|, Pad(chunk));
      BytesSizes(AddBlock(fs, n, |chunk|, Pad(chunk)).value, n, bytes[|chunk|..]);
    }
  }

  lemma NodeSizes(fs: Fs, id: nat, kind: Kind)
    requires NodesSized(fs) && AddNode(fs, id, kind).Some?
    ensures var f := AddNode(fs, id, kind).value;
      && fs.next in f.nodes && f.nodes[fs.next].kind == kind && (kind != Link ==> NodesSized(f))
  {
  }

  lemma FileSizes(fs: Fs, id: nat, bytes: seq<byte>)
    requires NodesSized(fs) && AddFile(fs, id, bytes).Some?
    ensures NodesSized(AddFile(fs, id, bytes).value.0)
  {
    hide AddNode, AddBytes;
    if id !in fs.known {
      NodeSizes(fs, id, File);
      BytesSizes(AddNode(fs, id, File).value, fs.next, bytes);
    }
  }

  lemma TargetSizes(fs: Fs, id: nat, target: seq<byte>)
    requires NodesSized(fs) && AddTarget(fs, id, target).Some?
    ensures NodesSized(AddTarget(fs, id, target).value.0)
  {
    hide AddBlock;
    BlockSizes(AddNode(fs, id, Link).value, fs.next, |target|, Pad(target));
  }

  lemma {:induction false} TreeSizes(fs: Fs, cur: nat, name: seq<byte>, tree: Tree)
    requires NodesSized(fs) && AddTree(fs, cur, name, tree).Some?
    ensures NodesSized(AddTree(fs, cur, name, tree).value)
    decreases tree, 1
  {
    hide NodesSized, AddEntry, AddFile, AddTarget, AddNode;
    match tree
    case Special =>
    case Plain(id, bytes) =>
      FileSizes(fs, id, bytes);
      EntrySizes(AddFile(fs, id, bytes).value.0, cur, AddFile(fs, id, bytes).value.1, name);
    case Symlink(id, target) =>
      TargetSizes(fs, id, target);
      EntrySizes(AddTarget(fs, id, target).value.0, cur, AddTarget(fs, id, target).value.1, name);
    case Folder(id, items) =>
      NodeSizes(fs, id, Dir);
      var f := AddNode(fs, id, Dir).value;
      OpenSizes(f, fs.next, cur, items);
      EntrySizes(OpenDir(f, fs.next, cur, items).value, cur, fs.next, name);
  }

  lemma {:induction false} OpenSizes(fs: Fs, cur: nat, parent: nat, items: Items)
    requires NodesSized(fs) && OpenDir(fs, cur, parent, items).Some?
    ensures NodesSized(OpenDir(fs, cur, parent, items).value)
    decreases items, 2
  {
    hide NodesSized, AddEntry, Walk;
    EntrySizes(fs, cur, cur, [DOT]);
    var f := AddEntry(fs, cur, cur, [DOT]).value;
    EntrySizes(f, cur, parent, [DOT, DOT]);
    WalkSizes(AddEntry(f, cur, parent, [DOT, DOT]).value, cur, items);
  }

  lemma {:induction false} WalkSizes(fs: Fs, cur: nat, items: Items)
    requires NodesSized(fs) && Walk(fs, cur, items).Some?
    ensures NodesSized(Walk(fs, cur, items).value)
    decreases items, 1
  {
    hide NodesSized, AddTree;
    match items
    case Nil =>
    case Item(name, tree, rest) =>
      if Hidden(name) {
        WalkSizes(fs, cur, rest);
      } else {
        TreeSizes(fs, cur, name, tree);
        WalkSizes(AddTree(fs, cur, name, tree).value, cur, rest);
      }
  }

  lemma BuildSizes(size: nat, items: Items)
    requires Build(size, items).Some?
    ensures NodesSized(Build(size, items).value)
  {
    hide OpenDir;
    OpenSizes(Create(size).value, ROOT, ROOT, items);
  }

  /** In every finished image a directory has as many blocks as entries, and 256 bytes for each of them. */
  lemma DirectorySizes(size: nat, items: Items, d: nat)
    requires Build(size, items).Some?
    requires var fs := Build(size, items).value; d in fs.nodes && fs.nodes[d].kind.Dir?
    ensures var fs := Build(size, items).value;
      var entries := |Entries(fs, fs.nodes[d])|;
      fs.nodes[d].blocks == entries && fs.nodes[d].size == 256 * entries
  {
    hide Build, Blocks;
    BuildSizes(size, items);
    var fs := Build(size, items).value;
    BlocksLength(fs.index, fs.nodes[d]);
  }

  /** So do the first and the third word of the directory's block. */
  lemma DirectorySizeBytes(size: nat, items: Items, img: Image, disk: seq<seq<byte>>, d: nat)
    requires Build(size, items).Some? && Closed(Build(size, items).value, img) && OnDisk(img, disk)
    requires var fs := Build(size, items).value; d in fs.nodes && fs.nodes[d].kind.Dir?
    ensures var fs := Build(size, items).value;
      var entries := |Entries(fs, fs.nodes[d])|;
      && d < |disk| && |disk[d]| == BLOCK_SIZE && WordAt(disk[d], 0) == 256 * entries && WordAt(disk[d], 2) == entries
  {
    hide Build, Closed, OnDisk, WordAt, Narrow, Good, Entries;
    var fs := Build(size, items).value;
    BuildNarrow(size, items);
    BlockBack(fs, img, disk, d);
    DiskLengths(img, disk);
    DirectorySizes(size, items, d);
    assert DecodeInode(disk[d]).size == WordAt(disk[d], 0) && DecodeInode(disk[d]).blocks == WordAt(disk[d], 2);
  }

  lemma DiskLengths(img: Image, disk: seq<seq<byte>>)
    requires OnDisk(img, disk)
    ensures forall b :: 0 <= b < |disk| ==> |disk[b]| == BLOCK_SIZE
  {
    hide Stored;
  }
}
