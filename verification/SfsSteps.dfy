/** What each step of the tree copy changes: one directory gains one entry, or one new file its
  * bytes, and everything else reads as before.
  */
module SfsSteps {
  import opened SfsBlocks
  import opened SfsNodes
  import opened SfsEntries
  import opened SfsTree

  /** An inode reads the same in both states. */
  ghost predicate SameView(fs: Fs, g: Fs, n: nat) {
    && n in fs.nodes && n in g.nodes
    && Entries(g, g.nodes[n]) == Entries(fs, fs.nodes[n]) && Bytes(g, g.nodes[n]) == Bytes(fs, fs.nodes[n])
  }

  /** From fs to g only inode `cur` may read differently, no inode changes its kind, and the numbers
    * given to the host files in `files` stay.
    */
  ghost predicate Keeps(fs: Fs, g: Fs, cur: nat, files: map<nat, seq<byte>>) {
    && fs.next <= g.next
    && (forall n :: n in fs.nodes ==> n in g.nodes && g.nodes[n].kind == fs.nodes[n].kind)
    && (forall n :: n in fs.nodes && n != cur ==> SameView(fs, g, n))
    && (forall id :: id in files && id in fs.known ==> id in g.known && g.known[id] == fs.known[id])
  }

  lemma KeepsTrans(fs: Fs, f: Fs, g: Fs, cur: nat, files: map<nat, seq<byte>>)
    requires Keeps(fs, f, cur, files) && Keeps(f, g, cur, files)
    ensures Keeps(fs, g, cur, files)
  {
    hide Entries, Bytes;
  }

  /** A step that at most changes an inode that did not exist before keeps every reading. */
  lemma KeepsAll(fs: Fs, g: Fs, n: nat, cur: nat, files: map<nat, seq<byte>>)
    requires Keeps(fs, g, n, files) && n !in fs.nodes
    ensures Keeps(fs, g, cur, files) && (cur in fs.nodes ==> SameView(fs, g, cur))
  {
    hide Entries, Bytes;
  }

  ghost predicate Grown(fs: Fs, g: Fs, blocks: seq<nat>) {
    forall i :: 0 <= i < |blocks| ==>
      blocks[i] in fs.disk && blocks[i] in g.disk && g.disk[blocks[i]] == fs.disk[blocks[i]]
  }

  lemma EntriesSame(fs: Fs, g: Fs, blocks: seq<nat>)
    requires Grown(fs, g, blocks)
    ensures EntriesOf(g, blocks) == EntriesOf(fs, blocks)
  {
    hide ReadIno, ReadName;
  }

  lemma {:induction false} JoinSame(fs: Fs, g: Fs, blocks: seq<nat>)
    requires Grown(fs, g, blocks)
    ensures Join(g, blocks) == Join(fs, blocks)
  {
    if blocks != [] {
      JoinSame(fs, g, blocks[..|blocks| - 1]);
    }
  }

  lemma BlocksOnDisk(fs: Fs, n: nat, i: nat)
    requires Good(fs) && n in fs.nodes && i < fs.nodes[n].blocks
    ensures Blocks(fs.index, fs.nodes[n])[i] in fs.disk
    ensures |Content(fs, Blocks(fs.index, fs.nodes[n])[i])| == BLOCK_SIZE
  {
    NoBlockShared(fs, n, i, n, i);
    DiskSize(fs, Blocks(fs.index, fs.nodes[n])[i]);
  }

  lemma DiskSize(fs: Fs, b: nat)
    requires Good(fs) && b in fs.disk
    ensures |fs.disk[b]| == BLOCK_SIZE && b in fs.use
  {
    hide Mapped, Reached;
  }

  /** Equal block lists over a disk that only gained blocks read the same. */
  lemma ViewSame(fs: Fs, g: Fs, n: nat)
    requires Good(fs) && n in fs.nodes && n in g.nodes
    requires Blocks(g.index, g.nodes[n]) == Blocks(fs.index, fs.nodes[n]) && g.nodes[n].size == fs.nodes[n].size
    requires forall b :: b in fs.disk ==> b in g.disk && g.disk[b] == fs.disk[b]
    ensures SameView(fs, g, n)
  {
    hide Good, Lookup, EntriesOf, Join, Content;
    var blocks := Blocks(fs.index, fs.nodes[n]);
    forall i | 0 <= i < |blocks| ensures blocks[i] in fs.disk {
      BlocksOnDisk(fs, n, i);
    }
    EntriesSame(fs, g, blocks);
    JoinSame(fs, g, blocks);
  }

  /** A block added to inode n changes the reading of no other inode. */
  lemma AddedKeeps(fs: Fs, g: Fs, n: nat, size: nat, bytes: seq<byte>, files: map<nat, seq<byte>>)
    requires Good(fs) && n in fs.nodes && Added(fs, g, n, size, bytes)
    ensures Keeps(fs, g, n, files)
  {
    hide Blocks, Entries, Bytes, Mapped, Reached;
    DiskUsed(fs);
    forall m | m in fs.nodes && m != n ensures SameView(fs, g, m) {
      ViewSame(fs, g, m);
    }
  }

  lemma DiskUsed(fs: Fs)
    requires Good(fs)
    ensures forall b :: b in fs.disk ==> b in fs.use
  {
    hide Mapped, Reached;
  }

  // ---- add_entry ----

  lemma BufferGood(fs: Fs, entry: seq<byte>)
    requires Good(fs) && |entry| == 256
    ensures Good(fs.(entry := entry))
  {
    hide Reached, Lookup, Slot;
    forall m | m in fs.nodes ensures Mapped(fs.(entry := entry), m, fs.nodes[m]) {
      MoreUse(fs, fs.(entry := entry), m, fs.nodes[m]);
    }
  }

  lemma GoodBounds(fs: Fs)
    requires Good(fs)
    ensures fs.next <= fs.ninos <= IMAGE_BLOCKS && |fs.entry| == 256
    ensures ROOT in fs.nodes
    ensures forall n :: n in fs.nodes ==> n < fs.next && n in fs.use
  {
    hide Mapped, Reached;
  }

  /** Counting a link changes no reading. */
  lemma LinkKeeps(fs: Fs, n: nat, cur: nat, files: map<nat, seq<byte>>)
    requires Good(fs) && n in fs.nodes
    ensures Keeps(fs, AddLink(fs, n), cur, files)
    ensures forall m :: m in fs.nodes ==> SameView(fs, AddLink(fs, n), m)
  {
    hide Good, Entries, Bytes, Lookup;
    var g := AddLink(fs, n);
    SameNode(fs.index, fs.nodes[n], g.nodes[n]);
    assert Blocks(g.index, g.nodes[n]) == Blocks(fs.index, fs.nodes[n]);
    forall m | m in fs.nodes ensures SameView(fs, g, m) {
      ViewSame(fs, g, m);
    }
  }

  /** add_entry appends one entry to the directory and changes no other reading. */
  lemma EntryAdded(fs: Fs, cur: nat, ino: nat, name: seq<byte>, files: map<nat, seq<byte>>)
    requires Good(fs) && IsName(name) && AddEntry(fs, cur, ino, name).Some?
    ensures var g := AddEntry(fs, cur, ino, name).value;
            && Good(g) && Keeps(fs, g, cur, files) && g.known == fs.known
            && Entries(g, g.nodes[cur]) == Entries(fs, fs.nodes[cur]) + [Entry(ino, Cut(name))]
  {
    hide Good, Entries, Bytes, AddBlock, EntryBlock, CopyName, Blocks, Le32;
    var entry := CopyName(fs.entry, name);
    var fs1 := fs.(entry := entry);
    var block := EntryBlock(ino, entry);
    BufferGood(fs, entry);
    GoodBounds(fs);
    AddBlockGood(fs1, cur, ENTRY_SIZE, block);
    var f := AddBlock(fs1, cur, ENTRY_SIZE, block).value;
    AddedKeeps(fs1, f, cur, ENTRY_SIZE, block, files);
    BufferKeeps(fs, fs1, cur, files);
    KeepsTrans(fs, fs1, f, cur, files);
    LinkKeeps(f, ino, cur, files);
    AddLinkGood(f, ino);
    KeepsTrans(fs, f, AddLink(f, ino), cur, files);
    EntryReadsBack(ino, fs.entry, name);
    EntryAppended(fs, f, cur, block);
  }

  lemma BufferKeeps(fs: Fs, f: Fs, cur: nat, files: map<nat, seq<byte>>)
    requires Good(fs) && f == fs.(entry := f.entry)
    ensures Keeps(fs, f, cur, files)
  {
    hide Good, Entries, Bytes, Blocks;
    forall m | m in fs.nodes ensures SameView(fs, f, m) {
      ViewSame(fs, f, m);
    }
  }

  lemma EntryAppended(fs: Fs, f: Fs, cur: nat, block: seq<byte>)
    requires Good(fs) && cur in fs.nodes && cur in f.nodes
    requires fs.next !in fs.use && f.disk == fs.disk[fs.next := block]
    requires Blocks(f.index, f.nodes[cur]) == Blocks(fs.index, fs.nodes[cur]) + [fs.next]
    ensures Entries(f, f.nodes[cur]) == Entries(fs, fs.nodes[cur]) + [Entry(ReadIno(block), ReadName(block))]
  {
    hide Good, Blocks, ReadIno, ReadName, Lookup;
    DiskUsed(fs);
    var blocks := Blocks(fs.index, fs.nodes[cur]);
    assert |blocks| == fs.nodes[cur].blocks by { BlocksLength(fs.index, fs.nodes[cur]); }
    forall i | 0 <= i < |blocks| ensures blocks[i] in fs.disk {
      BlocksOnDisk(fs, cur, i);
    }
    EntriesSame(fs, f, blocks);
    assert EntriesOf(f, blocks + [fs.next]) == EntriesOf(f, blocks) + [EntryAt(f, fs.next)];
  }

  lemma BlocksLength(index: Index, node: Inode)
    ensures |Blocks(index, node)| == node.blocks
  {
  }

  // ---- files and links ----

  /** All blocks of the inode are full. */
  ghost predicate Full(fs: Fs, n: nat) {
    n in fs.nodes && fs.nodes[n].size == BLOCK_SIZE * fs.nodes[n].blocks
  }

  lemma {:induction false} JoinLength(fs: Fs, blocks: seq<nat>)
    requires forall i :: 0 <= i < |blocks| ==> |Content(fs, blocks[i])| == BLOCK_SIZE
    ensures |Join(fs, blocks)| == BLOCK_SIZE * |blocks|
  {
    if blocks != [] {
      JoinLength(fs, blocks[..|blocks| - 1]);
    }
  }

  lemma BytesAppended(fs: Fs, f: Fs, n: nat, chunk: seq<byte>)
    requires Good(fs) && Full(fs, n) && |chunk| <= BLOCK_SIZE && Added(fs, f, n, |chunk|, Pad(chunk))
    ensures Bytes(f, f.nodes[n]) == Bytes(fs, fs.nodes[n]) + chunk
    ensures |chunk| == BLOCK_SIZE ==> Full(f, n)
  {
    hide Good, Blocks, Lookup, Pad, Content;
    DiskUsed(fs);
    var blocks := Blocks(fs.index, fs.nodes[n]);
    BlocksLength(fs.index, fs.nodes[n]);
    BlocksLength(f.index, f.nodes[n]);
    forall i | 0 <= i < |blocks| ensures blocks[i] in fs.disk && |Content(fs, blocks[i])| == BLOCK_SIZE {
      BlocksOnDisk(fs, n, i);
    }
    JoinLength(fs, blocks);
    JoinSame(fs, f, blocks);
    assert (blocks + [fs.next])[..|blocks|] == blocks;
    assert Content(f, fs.next) == Pad(chunk) by { ContentAt(f, fs.next); }
  }

  lemma ContentAt(fs: Fs, b: nat)
    requires b in fs.disk
    ensures Content(fs, b) == fs.disk[b]
  {
  }

  /** open_file copies every byte of the file, in order. */
  lemma {:induction false} BytesAdded(fs: Fs, n: nat, bytes: seq<byte>, files: map<nat, seq<byte>>)
    requires Good(fs) && Full(fs, n) && AddBytes(fs, n, bytes).Some?
    ensures var g := AddBytes(fs, n, bytes).value;
            && Good(g) && Keeps(fs, g, n, files) && g.known == fs.known
            && n in g.nodes && Bytes(g, g.nodes[n]) == Bytes(fs, fs.nodes[n]) + bytes
    decreases |bytes|
  {
    hide Good, Blocks, Bytes, Entries, Pad, AddBlock;
    if bytes == [] {
      BufferKeeps(fs, fs, n, files);
    } else {
      var chunk := Chunk(bytes);
      AddBlockGood(fs, n, |chunk|, Pad(chunk));
      var f := AddBlock(fs, n, |chunk|, Pad(chunk)).value;
      AddedKeeps(fs, f, n, |chunk|, Pad(chunk), files);
      BytesAppended(fs, f, n, chunk);
      var rest := bytes[|chunk|..];
      assert bytes == chunk + rest;
      if rest == [] {
        assert AddBytes(f, n, rest).value == f;
      } else {
        BytesAdded(f, n, rest, files);
        var g := AddBytes(f, n, rest).value;
        KeepsTrans(fs, f, g, n, files);
      }
    }
  }

  lemma NodeAdded(fs: Fs, id: nat, kind: Kind, cur: nat, files: map<nat, seq<byte>>)
    requires Good(fs) && AddNode(fs, id, kind).Some? && (id in files ==> id !in fs.known)
    ensures var f := AddNode(fs, id, kind).value;
            && Good(f) && Keeps(fs, f, cur, files) && fs.next !in fs.nodes && f.known == fs.known[id := fs.next]
            && f.next == fs.next + 1
            && Full(f, fs.next) && f.nodes[fs.next].kind == kind && |f.nodes[fs.next].direct| == DIRECT
            && Entries(f, f.nodes[fs.next]) == [] && Bytes(f, f.nodes[fs.next]) == []
  {
    hide Good, Lookup;
    AddNodeGood(fs, id, kind);
    var f := AddNode(fs, id, kind).value;
    forall m | m in fs.nodes ensures SameView(fs, f, m) {
      ViewSame(fs, f, m);
    }
    BlocksLength(f.index, Blank(kind));
  }

  ghost predicate FileShown(fs: Fs, n: nat, bytes: seq<byte>) {
    n in fs.nodes && fs.nodes[n].kind.File? && Bytes(fs, fs.nodes[n]) == bytes
  }

  /** Every host file met so far has its own image inode, with its bytes. */
  ghost predicate FilesShown(fs: Fs, files: map<nat, seq<byte>>) {
    && (forall id :: id in files && id in fs.known ==> FileShown(fs, fs.known[id], files[id]))
    && (forall id, id' :: id in files && id' in files && id in fs.known && id' in fs.known && id != id'
          ==> fs.known[id] != fs.known[id'])
  }

  lemma FilesKept(fs: Fs, g: Fs, cur: nat, files: map<nat, seq<byte>>)
    requires FilesShown(fs, files) && Keeps(fs, g, cur, files)
    requires cur !in fs.nodes || fs.nodes[cur].kind.Dir?
    requires forall id :: id in files && id in g.known ==> id in fs.known
    ensures FilesShown(g, files)
  {
    hide Entries, Bytes;
  }

  lemma FileAdded(fs: Fs, id: nat, bytes: seq<byte>, files: map<nat, seq<byte>>)
    requires Good(fs) && FilesShown(fs, files) && id in files && files[id] == bytes && AddFile(fs, id, bytes).Some?
    ensures var (g, ino) := AddFile(fs, id, bytes).value;
            && Good(g) && Keeps(fs, g, fs.next, files) && FilesShown(g, files)
            && id in g.known && g.known[id] == ino && FileShown(g, ino, bytes)
  {
    hide Good, Bytes, Entries, AddBytes, AddNode;
    if id in fs.known {
      BufferKeeps(fs, fs, fs.next, files);
    } else {
      NodeAdded(fs, id, File, fs.next, files);
      var f := AddNode(fs, id, File).value;
      BytesAdded(f, fs.next, bytes, files);
      KeepsTrans(fs, f, AddBytes(f, fs.next, bytes).value, fs.next, files);
    }
  }

  lemma TargetAdded(fs: Fs, id: nat, target: seq<byte>, files: map<nat, seq<byte>>)
    requires Good(fs) && FilesShown(fs, files) && id !in files && AddTarget(fs, id, target).Some?
    ensures var (g, ino) := AddTarget(fs, id, target).value;
            && Good(g) && Keeps(fs, g, fs.next, files) && FilesShown(g, files)
            && ino in g.nodes && g.nodes[ino].kind.Link? && Bytes(g, g.nodes[ino]) == target
  {
    hide Good, Bytes, Entries, AddBlock, AddNode, Blocks, Pad, FilesShown;
    NodeAdded(fs, id, Link, fs.next, files);
    var f := AddNode(fs, id, Link).value;
    AddBlockGood(f, fs.next, |target|, Pad(target));
    var g := AddBlock(f, fs.next, |target|, Pad(target)).value;
    AddedKeeps(f, g, fs.next, |target|, Pad(target), files);
    BytesAppended(f, g, fs.next, target);
    KeepsTrans(fs, f, g, fs.next, files);
    FilesKept(fs, g, fs.next, files);
  }
}
