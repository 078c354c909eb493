/** Link counts: what add_entry and the copy of a whole tree make of inode.nlinks, a 16-bit counter
  * (lab8/tools/mksfs.c).
  */
module SfsLinks {
  import opened SfsBlocks
  import opened SfsNodes
  import opened SfsEntries
  import opened SfsTree
  import opened SfsSteps
  import opened SfsImage

  /** The entry number i of directory d. */
  ghost predicate IsEntry(fs: Fs, d: nat, i: nat) {
    d in fs.nodes && fs.nodes[d].kind.Dir? && i < |Entries(fs, fs.nodes[d])|
  }

  ghost function InoAt(fs: Fs, d: nat, i: nat): nat
    requires IsEntry(fs, d, i)
  {
    Entries(fs, fs.nodes[d])[i].ino
  }

  /** All places where an inode is named, "." and ".." included. */
  ghost function NamesOf(fs: Fs, n: nat): set<(nat, nat)> {
    set d: nat, i: nat |
      d in fs.nodes && 0 <= i < |Entries(fs, fs.nodes[d])| && IsEntry(fs, d, i) && InoAt(fs, d, i) == n :: (d, i)
  }

  /** Every inode counts the entries that name it, as far as 16 bits go, and no entry names a missing
    * inode.
    */
  ghost predicate LinksCounted(fs: Fs) {
    && (forall n :: n in fs.nodes ==> fs.nodes[n].nlinks == |NamesOf(fs, n)| % LINKS)
    && (forall d: nat, i: nat :: IsEntry(fs, d, i) ==> InoAt(fs, d, i) in fs.nodes)
  }

  /** No entry is added: old directories read as before, new inodes have no entries and no links. */
  ghost predicate NoEntry(fs: Fs, g: Fs) {
    && (forall n :: n in fs.nodes ==>
      n in g.nodes && g.nodes[n].kind == fs.nodes[n].kind && g.nodes[n].nlinks == fs.nodes[n].nlinks)
    && (forall n :: n in fs.nodes && fs.nodes[n].kind.Dir? ==> Entries(g, g.nodes[n]) == Entries(fs, fs.nodes[n]))
    && (forall n :: n in g.nodes && n !in fs.nodes ==>
      g.nodes[n].nlinks == 0 && (g.nodes[n].kind.Dir? ==> Entries(g, g.nodes[n]) == []))
  }

  lemma NoEntryEntries(fs: Fs, g: Fs, d: nat, i: nat)
    requires NoEntry(fs, g)
    ensures IsEntry(g, d, i) <==> IsEntry(fs, d, i)
    ensures IsEntry(g, d, i) ==> InoAt(g, d, i) == InoAt(fs, d, i)
  {
    hide Entries;
  }

  lemma NoEntryNames(fs: Fs, g: Fs, n: nat)
    requires NoEntry(fs, g)
    ensures NamesOf(g, n) == NamesOf(fs, n)
  {
    hide NoEntry, Entries;
    forall d: nat, i: nat ensures (d, i) in NamesOf(g, n) <==> (d, i) in NamesOf(fs, n) {
      NoEntryEntries(fs, g, d, i);
    }
  }

  /** An inode that is not there is named nowhere. */
  lemma Unnamed(fs: Fs, n: nat)
    requires LinksCounted(fs) && n !in fs.nodes
    ensures NamesOf(fs, n) == {}
  {
    hide Entries;
  }

  lemma NoEntryCounts(fs: Fs, g: Fs)
    requires LinksCounted(fs) && NoEntry(fs, g)
    ensures LinksCounted(g)
  {
    hide Entries, IsEntry, InoAt, NamesOf;
    forall d: nat, i: nat ensures IsEntry(g, d, i) ==> InoAt(g, d, i) in g.nodes {
      NoEntryEntries(fs, g, d, i);
    }
    forall n | n in g.nodes ensures g.nodes[n].nlinks == |NamesOf(g, n)| % LINKS {
      NoEntryNames(fs, g, n);
      if n !in fs.nodes {
        Unnamed(fs, n);
      }
    }
  }

  lemma NoEntryTrans(fs: Fs, f: Fs, g: Fs)
    requires NoEntry(fs, f) && NoEntry(f, g)
    ensures NoEntry(fs, g)
  {
    hide Entries;
  }

  /** One entry for inode `ino` is added at the end of directory cur, and counted. */
  ghost predicate OneEntry(fs: Fs, g: Fs, cur: nat, ino: nat) {
    && cur in fs.nodes && fs.nodes[cur].kind.Dir? && ino in fs.nodes && g.nodes.Keys == fs.nodes.Keys
    && (forall n :: n in fs.nodes ==> g.nodes[n].kind == fs.nodes[n].kind)
    && (forall n :: n in fs.nodes ==>
          g.nodes[n].nlinks == if n == ino then (fs.nodes[n].nlinks + 1) % LINKS else fs.nodes[n].nlinks)
    && (forall n :: n in fs.nodes && n != cur ==> Entries(g, g.nodes[n]) == Entries(fs, fs.nodes[n]))
    && var before, after := Entries(fs, fs.nodes[cur]), Entries(g, g.nodes[cur]);
    |after| == |before| + 1 && after[..|before|] == before && after[|before|].ino == ino
  }

  /** The entries after the step: those before it and the new one. */
  lemma NewEntry(fs: Fs, g: Fs, cur: nat, ino: nat, d: nat, i: nat)
    requires OneEntry(fs, g, cur, ino)
    ensures var last := d == cur && i == |Entries(fs, fs.nodes[cur])|;
            && (IsEntry(g, d, i) <==> IsEntry(fs, d, i) || last)
            && (last ==> !IsEntry(fs, d, i))
            && (IsEntry(g, d, i) ==> InoAt(g, d, i) == if last then ino else InoAt(fs, d, i))
  {
    hide Entries;
    if d == cur && d in fs.nodes && i < |Entries(fs, fs.nodes[cur])| {
      var k := |Entries(fs, fs.nodes[cur])|;
      assert Entries(g, g.nodes[cur])[..k][i] == Entries(fs, fs.nodes[cur])[i];
    }
  }

  /** Only inode `ino` has one name more. */
  lemma OneName(fs: Fs, g: Fs, cur: nat, ino: nat, n: nat)
    requires OneEntry(fs, g, cur, ino)
    ensures |NamesOf(g, n)| == |NamesOf(fs, n)| + (if n == ino then 1 else 0)
  {
    hide Entries, OneEntry;
    NewEntryThere(fs, g, cur, ino);
    var last := (cur, |Entries(fs, fs.nodes[cur])|);
    NewEntry(fs, g, cur, ino, last.0, last.1);
    forall d: nat, i: nat
      ensures (d, i) in NamesOf(g, n) <==> (d, i) in NamesOf(fs, n) || (n == ino && (d, i) == last)
    {
      NewEntry(fs, g, cur, ino, d, i);
    }
    assert NamesOf(g, n) == NamesOf(fs, n) + (if n == ino then {last} else {});
  }

  lemma NewEntryThere(fs: Fs, g: Fs, cur: nat, ino: nat)
    requires OneEntry(fs, g, cur, ino)
    ensures cur in fs.nodes && ino in fs.nodes && g.nodes.Keys == fs.nodes.Keys
  {
  }

  lemma OneMore(k: nat)
    ensures (k % LINKS + 1) % LINKS == (k + 1) % LINKS
  {
  }

  lemma OneEntryCounts(fs: Fs, g: Fs, cur: nat, ino: nat)
    requires LinksCounted(fs) && OneEntry(fs, g, cur, ino)
    ensures LinksCounted(g)
  {
    hide Entries, IsEntry, InoAt, NamesOf;
    forall d: nat, i: nat ensures IsEntry(g, d, i) ==> InoAt(g, d, i) in g.nodes {
      NewEntry(fs, g, cur, ino, d, i);
    }
    forall n | n in g.nodes ensures g.nodes[n].nlinks == |NamesOf(g, n)| % LINKS {
      OneName(fs, g, cur, ino, n);
      OneMore(|NamesOf(fs, n)|);
    }
  }

  // ---- the steps ----

  lemma EntryParts(fs: Fs, cur: nat, ino: nat, name: seq<byte>)
    requires AddEntry(fs, cur, ino, name).Some?
    ensures cur in fs.nodes && fs.nodes[cur].kind.Dir? && |fs.nodes[cur].direct| == DIRECT
    ensures |fs.entry| == 256 && |name| <= NAME_MAX
    ensures var entry := CopyName(fs.entry, name);
            var f := AddBlock(fs.(entry := entry), cur, ENTRY_SIZE, EntryBlock(ino, entry));
            f.Some? && ino in f.value.nodes && AddEntry(fs, cur, ino, name).value == AddLink(f.value, ino)
  {
    hide AddBlock, EntryBlock, CopyName, AddLink;
  }

  lemma EntryIsOne(fs: Fs, cur: nat, ino: nat, name: seq<byte>)
    requires Good(fs) && IsName(name) && AddEntry(fs, cur, ino, name).Some?
    ensures var g := AddEntry(fs, cur, ino, name).value; Good(g) && OneEntry(fs, g, cur, ino)
  {
    hide Good, Entries, Keeps, AddEntry, AddBlock, EntryBlock, CopyName, Blocks, Cut;
    EntryParts(fs, cur, ino, name);
    EntryAdded(fs, cur, ino, name, map[]);
    var entry := CopyName(fs.entry, name);
    BufferGood(fs, entry);
    AddBlockGood(fs.(entry := entry), cur, ENTRY_SIZE, EntryBlock(ino, entry));
    KeepsEntries(fs, AddEntry(fs, cur, ino, name).value, cur);
  }

  lemma KeepsEntries(fs: Fs, g: Fs, cur: nat)
    requires Keeps(fs, g, cur, map[])
    ensures forall n :: n in fs.nodes && n != cur ==> n in g.nodes && Entries(g, g.nodes[n]) == Entries(fs, fs.nodes[n])
  {
    hide Entries, Bytes;
  }

  lemma BlockIsNone(fs: Fs, n: nat, size: nat, bytes: seq<byte>)
    requires Good(fs) && n in fs.nodes && !fs.nodes[n].kind.Dir? && |bytes| == BLOCK_SIZE
      && |fs.nodes[n].direct| == DIRECT
    requires AddBlock(fs, n, size, bytes).Some?
    ensures var g := AddBlock(fs, n, size, bytes).value;
            Good(g) && NoEntry(fs, g) && n in g.nodes && g.nodes[n].kind == fs.nodes[n].kind
  {
    hide Good, Entries, Bytes, AddBlock, Blocks;
    AddBlockGood(fs, n, size, bytes);
    AddedKeeps(fs, AddBlock(fs, n, size, bytes).value, n, size, bytes, map[]);
  }

  lemma {:induction false} BytesAreNone(fs: Fs, n: nat, bytes: seq<byte>)
    requires Good(fs) && n in fs.nodes && !fs.nodes[n].kind.Dir? && AddBytes(fs, n, bytes).Some?
    ensures var g := AddBytes(fs, n, bytes).value; Good(g) && NoEntry(fs, g)
    decreases |bytes|
  {
    hide Good, Entries, AddBlock, Pad, NoEntry;
    if bytes == [] {
      NoEntrySame(fs);
    } else {
      var chunk := Chunk(bytes);
      BlockIsNone(fs, n, |chunk|, Pad(chunk));
      var f := AddBlock(fs, n, |chunk|, Pad(chunk)).value;
      BytesAreNone(f, n, bytes[|chunk|..]);
      NoEntryTrans(fs, f, AddBytes(f, n, bytes[|chunk|..]).value);
    }
  }

  lemma NoEntrySame(fs: Fs)
    ensures NoEntry(fs, fs)
  {
  }

  lemma NodeIsNone(fs: Fs, id: nat, kind: Kind)
    requires Good(fs) && AddNode(fs, id, kind).Some?
    ensures var f := AddNode(fs, id, kind).value;
            Good(f) && NoEntry(fs, f) && fs.next in f.nodes && f.nodes[fs.next].kind == kind
              && |f.nodes[fs.next].direct| == DIRECT
  {
    hide Good, Entries, Bytes, Blocks;
    AddNodeGood(fs, id, kind);
    NodeAdded(fs, id, kind, fs.next, map[]);
  }

  lemma FileIsNone(fs: Fs, id: nat, bytes: seq<byte>)
    requires Good(fs) && AddFile(fs, id, bytes).Some?
    ensures var (g, ino) := AddFile(fs, id, bytes).value; Good(g) && NoEntry(fs, g)
  {
    hide Good, NoEntry, AddNode, AddBytes;
    if id in fs.known {
      NoEntrySame(fs);
    } else {
      NodeIsNone(fs, id, File);
      var f := AddNode(fs, id, File).value;
      BytesAreNone(f, fs.next, bytes);
      NoEntryTrans(fs, f, AddBytes(f, fs.next, bytes).value);
    }
  }

  lemma TargetIsNone(fs: Fs, id: nat, target: seq<byte>)
    requires Good(fs) && AddTarget(fs, id, target).Some?
    ensures var (g, ino) := AddTarget(fs, id, target).value; Good(g) && NoEntry(fs, g)
  {
    hide Good, NoEntry, AddNode, AddBlock, Pad;
    NodeIsNone(fs, id, Link);
    var f := AddNode(fs, id, Link).value;
    BlockIsNone(f, fs.next, |target|, Pad(target));
    NoEntryTrans(fs, f, AddBlock(f, fs.next, |target|, Pad(target)).value);
  }

  // ---- whole trees ----

  ghost predicate Ok(fs: Fs) {
    Good(fs) && LinksCounted(fs)
  }

  lemma EntryOk(fs: Fs, f: Fs, cur: nat, ino: nat, name: seq<byte>)
    requires Ok(fs) && Good(f) && (NoEntry(fs, f) || LinksCounted(f)) && IsName(name)
      && AddEntry(f, cur, ino, name).Some?
    ensures Ok(AddEntry(f, cur, ino, name).value)
  {
    hide Good, NoEntry, LinksCounted, OneEntry, AddEntry;
    if NoEntry(fs, f) {
      NoEntryCounts(fs, f);
    }
    EntryIsOne(f, cur, ino, name);
    OneEntryCounts(f, AddEntry(f, cur, ino, name).value, cur, ino);
  }

  lemma {:induction false} TreeOk(fs: Fs, cur: nat, name: seq<byte>, tree: Tree)
    requires Ok(fs) && IsName(name) && (tree.Folder? ==> CNames(tree.items)) && AddTree(fs, cur, name, tree).Some?
    ensures Ok(AddTree(fs, cur, name, tree).value)
    decreases tree, 1
  {
    hide Good, NoEntry, LinksCounted, AddEntry, AddFile, AddTarget, AddNode;
    match tree
    case Special =>
    case Plain(id, bytes) =>
      FileIsNone(fs, id, bytes);
      EntryOk(fs, AddFile(fs, id, bytes).value.0, cur, AddFile(fs, id, bytes).value.1, name);
    case Symlink(id, target) =>
      TargetIsNone(fs, id, target);
      EntryOk(fs, AddTarget(fs, id, target).value.0, cur, AddTarget(fs, id, target).value.1, name);
    case Folder(id, items) =>
      NodeIsNone(fs, id, Dir);
      var f := AddNode(fs, id, Dir).value;
      NoEntryCounts(fs, f);
      DirOk(f, fs.next, cur, items);
      EntryOk(f, OpenDir(f, fs.next, cur, items).value, cur, fs.next, name);
  }

  lemma {:induction false} DirOk(fs: Fs, cur: nat, parent: nat, items: Items)
    requires Ok(fs) && CNames(items) && OpenDir(fs, cur, parent, items).Some?
    ensures Ok(OpenDir(fs, cur, parent, items).value)
    decreases items, 2
  {
    hide Good, NoEntry, LinksCounted, AddEntry, Walk;
    EntryOk(fs, fs, cur, cur, [DOT]);
    var f := AddEntry(fs, cur, cur, [DOT]).value;
    EntryOk(f, f, cur, parent, [DOT, DOT]);
    WalkOk(AddEntry(f, cur, parent, [DOT, DOT]).value, cur, items);
  }

  lemma {:induction false} WalkOk(fs: Fs, cur: nat, items: Items)
    requires Ok(fs) && CNames(items) && Walk(fs, cur, items).Some?
    ensures Ok(Walk(fs, cur, items).value)
    decreases items, 1
  {
    hide Ok, AddTree;
    match items
    case Nil =>
    case Item(name, tree, rest) =>
      if Hidden(name) {
        WalkOk(fs, cur, rest);
      } else {
        TreeOk(fs, cur, name, tree);
        WalkOk(AddTree(fs, cur, name, tree).value, cur, rest);
      }
  }

  /** In every finished image the link count of every inode is the number of directory entries that name
    * it, "." and ".." included, in 16 bits: so it is that number exactly when there are fewer than 65536
    * of them. Every entry names an inode that is there.
    */
  lemma LinksAreCounted(size: nat, items: Items)
    requires CNames(items) && Build(size, items).Some?
    ensures var g := Build(size, items).value;
            && LinksCounted(g)
            && forall n :: n in g.nodes ==> (g.nodes[n].nlinks == |NamesOf(g, n)| <==> |NamesOf(g, n)| < LINKS)
  {
    hide Good, Entries, OpenDir, NamesOf;
    CreateGood(size);
    var fs := Create(size).value;
    forall n ensures NamesOf(fs, n) == {} {
      NoNames(fs, n);
    }
    DirOk(fs, ROOT, ROOT, items);
  }

  lemma NoNames(fs: Fs, n: nat)
    requires forall d :: d in fs.nodes ==> Entries(fs, fs.nodes[d]) == []
    ensures NamesOf(fs, n) == {}
  {
    hide Entries;
  }
}
