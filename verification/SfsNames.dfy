/** Which link counts come out right, told from the host tree alone: a file of the host is entered once for
  * each of its visible names, a link once, and a directory at most as often as it has entries itself
  * (lab8/tools/mksfs.c).
  */
module SfsNames {
  import opened SfsBlocks
  import opened SfsNodes
  import opened SfsEntries
  import opened SfsTree
  import opened SfsSteps
  import opened SfsRoundTrip
  import opened SfsImage
  import opened SfsLinks

  /** The visible names of host file `id` below. */
  function Times(tree: Tree, id: nat): nat {
    match tree
    case Plain(i, _) => if i == id then 1 else 0
    case Folder(_, items) => TimesItems(items, id)
    case _ => 0
  }

  function TimesItems(items: Items, id: nat): nat {
    match items
    case Nil => 0
    case Item(name, tree, rest) => (if Hidden(name) then 0 else Times(tree, id)) + TimesItems(rest, id)
  }

  /** The entries that name the inode of host file `id`. */
  ghost function FileNames(fs: Fs, id: nat): nat {
    if id in fs.known then |NamesOf(fs, fs.known[id])| else 0
  }

  /** How many more entries a directory has than names. */
  ghost function Slack(fs: Fs, n: nat): int {
    if n in fs.nodes && fs.nodes[n].kind.Dir? then |Entries(fs, fs.nodes[n])| - |NamesOf(fs, n)| else 0
  }

  ghost predicate OfHost(fs: Fs, files: map<nat, seq<byte>>, n: nat) {
    exists id :: id in files && id in fs.known && fs.known[id] == n
  }

  /** Links are counted, a link inode has one name at most, and every file inode is that of a host file. */
  ghost predicate Linked(fs: Fs, files: map<nat, seq<byte>>) {
    && LinksCounted(fs)
    && (forall n :: n in fs.nodes && fs.nodes[n].kind.Link? ==> |NamesOf(fs, n)| <= 1)
    && (forall n :: n in fs.nodes && fs.nodes[n].kind.File? ==> OfHost(fs, files, n))
  }

  function One(n: nat, m: nat): int {
    if n == m then 1 else 0
  }

  /** From fs to g every host file got the names it has in `items`, and no directory lost slack, except that
    * `up` won one and `down` lost one.
    */
  ghost predicate Gains(fs: Fs, g: Fs, files: map<nat, seq<byte>>, items: Items, up: nat, down: nat) {
    && Linked(g, files)
    && (forall id :: id in files ==> FileNames(g, id) == FileNames(fs, id) + TimesItems(items, id))
    && (forall n :: Slack(g, n) >= Slack(fs, n) + One(n, up) - One(n, down))
  }

  lemma GainsTrans(fs: Fs, f: Fs, g: Fs, files: map<nat, seq<byte>>, a: nat, b: nat, c: nat, s: Items, t: Items,
                   u: Items)
    requires Gains(fs, f, files, s, a, b) && Gains(f, g, files, t, b, c)
    requires forall id :: id in files ==> TimesItems(u, id) == TimesItems(s, id) + TimesItems(t, id)
    ensures Gains(fs, g, files, u, a, c)
  {
    hide Linked, FileNames, Slack, TimesItems;
    forall n ensures Slack(g, n) >= Slack(fs, n) + One(n, a) - One(n, c) {
      assert Slack(f, n) >= Slack(fs, n) + One(n, a) - One(n, b);
    }
  }

  // ---- steps without an entry ----

  /** Host files keep their inodes, and new file inodes are those of host files. */
  ghost predicate SameFiles(fs: Fs, g: Fs, files: map<nat, seq<byte>>) {
    && (forall id :: id in files && id in fs.known ==> id in g.known && g.known[id] == fs.known[id])
    && (forall id :: id in files && id in g.known && id !in fs.known ==> g.known[id] !in fs.nodes)
    && (forall n :: n in g.nodes && n !in fs.nodes && g.nodes[n].kind.File? ==> OfHost(g, files, n))
  }

  lemma SameSlack(fs: Fs, g: Fs, n: nat)
    requires LinksCounted(fs) && NoEntry(fs, g)
    ensures Slack(g, n) == Slack(fs, n)
  {
    hide Entries, NamesOf, LinksCounted;
    NoEntryNames(fs, g, n);
    if n !in fs.nodes {
      Unnamed(fs, n);
    }
  }

  lemma SameFileNames(fs: Fs, g: Fs, files: map<nat, seq<byte>>, id: nat)
    requires LinksCounted(fs) && NoEntry(fs, g) && SameFiles(fs, g, files) && id in files
    ensures FileNames(g, id) == FileNames(fs, id)
  {
    hide Entries, NamesOf, LinksCounted, NoEntry, OfHost;
    if id in g.known {
      NoEntryNames(fs, g, g.known[id]);
      if id !in fs.known {
        Unnamed(fs, g.known[id]);
      }
    }
  }

  lemma StillLinked(fs: Fs, g: Fs, files: map<nat, seq<byte>>)
    requires Linked(fs, files) && NoEntry(fs, g) && SameFiles(fs, g, files)
    ensures Linked(g, files)
  {
    hide Entries, NamesOf, LinksCounted;
    NoEntryCounts(fs, g);
    forall n | n in g.nodes && g.nodes[n].kind.Link? ensures |NamesOf(g, n)| <= 1 {
      NoEntryNames(fs, g, n);
      if n !in fs.nodes {
        Unnamed(fs, n);
      }
    }
  }

  lemma NothingGained(fs: Fs, g: Fs, files: map<nat, seq<byte>>, n: nat)
    requires Linked(fs, files) && NoEntry(fs, g) && SameFiles(fs, g, files)
    ensures Gains(fs, g, files, Nil, n, n)
  {
    hide NoEntry, SameFiles, Slack, FileNames, LinksCounted, NamesOf;
    StillLinked(fs, g, files);
    forall id | id in files ensures FileNames(g, id) == FileNames(fs, id) {
      SameFileNames(fs, g, files, id);
    }
    forall m ensures Slack(g, m) == Slack(fs, m) {
      SameSlack(fs, g, m);
    }
  }

  // ---- an entry ----

  lemma EntryLinked(fs: Fs, g: Fs, cur: nat, ino: nat, files: map<nat, seq<byte>>)
    requires Linked(fs, files) && OneEntry(fs, g, cur, ino) && g.known == fs.known
    requires fs.nodes[ino].kind.Link? ==> NamesOf(fs, ino) == {}
    ensures Linked(g, files)
  {
    hide Entries, NamesOf, LinksCounted;
    OneEntryCounts(fs, g, cur, ino);
    forall n | n in g.nodes && g.nodes[n].kind.Link? ensures |NamesOf(g, n)| <= 1 {
      OneName(fs, g, cur, ino, n);
    }
    forall n | n in g.nodes && g.nodes[n].kind.File? ensures OfHost(g, files, n) {
      assert OfHost(fs, files, n);
    }
  }

  lemma EntrySlack(fs: Fs, g: Fs, cur: nat, ino: nat, n: nat)
    requires OneEntry(fs, g, cur, ino)
    ensures Slack(g, n) >= Slack(fs, n) + One(n, cur) - One(n, ino)
  {
    hide Entries, NamesOf;
    OneName(fs, g, cur, ino, n);
  }

  /** Entering an inode gives its host file one name, its directory one entry, and itself one name. */
  lemma EntryGains(fs: Fs, cur: nat, ino: nat, name: seq<byte>, files: map<nat, seq<byte>>, items: Items)
    requires Ready(fs, cur, files) && Linked(fs, files) && IsName(name) && AddEntry(fs, cur, ino, name).Some?
    requires ino in fs.nodes && (fs.nodes[ino].kind.Link? ==> NamesOf(fs, ino) == {})
    requires forall id :: id in files ==> TimesItems(items, id) == if id in fs.known then One(fs.known[id], ino) else 0
    ensures var g := AddEntry(fs, cur, ino, name).value;
            Ready(g, cur, files) && Keeps(fs, g, cur, files) && Gains(fs, g, files, items, cur, ino)
  {
    hide Good, Entries, NamesOf, Linked, AddEntry, FilesShown, Keeps, Slack, OneEntry, Cut;
    var g := AddEntry(fs, cur, ino, name).value;
    EntryStep(fs, cur, ino, name, files);
    EntryAdded(fs, cur, ino, name, files);
    EntryIsOne(fs, cur, ino, name);
    EntryLinked(fs, g, cur, ino, files);
    forall id | id in files && id in fs.known
      ensures |NamesOf(g, fs.known[id])| == |NamesOf(fs, fs.known[id])| + One(fs.known[id], ino)
    {
      OneName(fs, g, cur, ino, fs.known[id]);
    }
    forall n ensures Slack(g, n) >= Slack(fs, n) + One(n, cur) - One(n, ino) {
      EntrySlack(fs, g, cur, ino, n);
    }
  }

  /** A directory is the inode of no host file. */
  lemma NoFile(fs: Fs, files: map<nat, seq<byte>>, n: nat)
    requires FilesShown(fs, files) && n in fs.nodes && !fs.nodes[n].kind.File?
    ensures forall id :: id in files && id in fs.known ==> fs.known[id] != n
  {
    hide Bytes;
  }

  // ---- whole trees ----

  lemma {:induction false} BytesKeys(fs: Fs, n: nat, bytes: seq<byte>)
    requires Good(fs) && AddBytes(fs, n, bytes).Some?
    ensures AddBytes(fs, n, bytes).value.nodes.Keys == fs.nodes.Keys
    ensures AddBytes(fs, n, bytes).value.known == fs.known
    decreases |bytes|
  {
    hide Good, AddBlock, Pad, Blocks;
    if bytes != [] {
      var chunk := Chunk(bytes);
      AddBlockGood(fs, n, |chunk|, Pad(chunk));
      BytesKeys(AddBlock(fs, n, |chunk|, Pad(chunk)).value, n, bytes[|chunk|..]);
    }
  }

  lemma NodeKeys(fs: Fs, id: nat, kind: Kind)
    requires AddNode(fs, id, kind).Some?
    ensures AddNode(fs, id, kind).value.nodes.Keys == fs.nodes.Keys + {fs.next}
    ensures AddNode(fs, id, kind).value.known == fs.known[id := fs.next]
  {
  }

  lemma FileMade(fs: Fs, id: nat, bytes: seq<byte>)
    requires Good(fs) && id !in fs.known && AddFile(fs, id, bytes).Some?
    ensures var g := AddFile(fs, id, bytes).value.0;
            g.nodes.Keys == fs.nodes.Keys + {fs.next} && g.known == fs.known[id := fs.next] && fs.next !in fs.nodes
  {
    hide Good, AddBytes, AddNode;
    GoodNext(fs);
    AddNodeGood(fs, id, File);
    NodeKeys(fs, id, File);
    BytesKeys(AddNode(fs, id, File).value, fs.next, bytes);
  }

  /** Making the inode of a host file enters it nowhere. */
  lemma FileGains(fs: Fs, id: nat, bytes: seq<byte>, files: map<nat, seq<byte>>, n: nat)
    requires Good(fs) && Linked(fs, files) && id in files && AddFile(fs, id, bytes).Some?
    ensures Gains(fs, AddFile(fs, id, bytes).value.0, files, Nil, n, n)
  {
    hide Good, Linked, NoEntry, Gains, AddFile;
    var g := AddFile(fs, id, bytes).value.0;
    FileIsNone(fs, id, bytes);
    if id in fs.known {
      KnownFile(fs, id, bytes);
    } else {
      FileMade(fs, id, bytes);
      assert OfHost(g, files, fs.next);
    }
    NothingGained(fs, g, files, n);
  }

  lemma KnownFile(fs: Fs, id: nat, bytes: seq<byte>)
    requires id in fs.known
    ensures AddFile(fs, id, bytes).value.0 == fs
  {
  }

  lemma TargetGains(fs: Fs, id: nat, target: seq<byte>, files: map<nat, seq<byte>>, n: nat)
    requires Good(fs) && FilesShown(fs, files) && Linked(fs, files) && id !in files && AddTarget(fs, id, target).Some?
    ensures var (g, ino) := AddTarget(fs, id, target).value;
            Gains(fs, g, files, Nil, n, n) && NamesOf(g, ino) == {}
  {
    hide Good, Linked, FilesShown, NoEntry, Gains, AddBlock, AddNode, Pad, Blocks, NamesOf;
    var (g, ino) := AddTarget(fs, id, target).value;
    TargetIsNone(fs, id, target);
    NodeAdded(fs, id, Link, n, files);
    NodeKeys(fs, id, Link);
    var f := AddNode(fs, id, Link).value;
    AddBlockGood(f, fs.next, |target|, Pad(target));
    NothingGained(fs, g, files, n);
    NoEntryNames(fs, g, ino);
    LinkedCounts(fs, files);
    Unnamed(fs, ino);
  }

  lemma LinkedCounts(fs: Fs, files: map<nat, seq<byte>>)
    requires Linked(fs, files)
    ensures LinksCounted(fs)
  {
  }

  lemma NodeGains(fs: Fs, id: nat, files: map<nat, seq<byte>>, n: nat)
    requires Good(fs) && FilesShown(fs, files) && Linked(fs, files) && id !in files && AddNode(fs, id, Dir).Some?
    ensures Gains(fs, AddNode(fs, id, Dir).value, files, Nil, n, n)
  {
    hide Good, Linked, FilesShown, NoEntry, Gains, AddNode, Entries, Bytes;
    NodeIsNone(fs, id, Dir);
    NodeAdded(fs, id, Dir, n, files);
    NodeKeys(fs, id, Dir);
    NothingGained(fs, AddNode(fs, id, Dir).value, files, n);
  }

  lemma GainsLinked(fs: Fs, g: Fs, files: map<nat, seq<byte>>, items: Items, up: nat, down: nat)
    requires Gains(fs, g, files, items, up, down)
    ensures Linked(g, files)
  {
  }

  lemma Unchanged(fs: Fs, files: map<nat, seq<byte>>, items: Items, n: nat)
    requires Linked(fs, files) && forall id :: id in files ==> TimesItems(items, id) == 0
    ensures Gains(fs, fs, files, items, n, n)
  {
    hide Linked, NamesOf, Entries, TimesItems;
  }

  /** A new inode leaves the directory that is being copied as it was. */
  lemma Onwards(fs: Fs, f: Fs, cur: nat, files: map<nat, seq<byte>>)
    requires Ready(fs, cur, files) && Good(f) && FilesShown(f, files) && Keeps(fs, f, fs.next, files)
    ensures Ready(f, cur, files)
  {
    hide Good, FilesShown, Entries, Bytes;
  }

  lemma FileInode(fs: Fs, files: map<nat, seq<byte>>, id: nat)
    requires FilesShown(fs, files) && id in files && id in fs.known
    ensures var ino := fs.known[id];
            && ino in fs.nodes && fs.nodes[ino].kind.File?
            && forall id' :: id' in files && id' in fs.known && fs.known[id'] == ino ==> id' == id
  {
    hide Bytes;
  }

  /** An inode that is no directory has no slack to lose. */
  lemma NoSlackLost(fs: Fs, g: Fs, files: map<nat, seq<byte>>, items: Items, up: nat, ino: nat)
    requires Gains(fs, g, files, items, up, ino) && Keeps(fs, g, up, files)
    requires ino in g.nodes && !g.nodes[ino].kind.Dir?
    ensures Gains(fs, g, files, items, up, up)
  {
    hide Linked, NamesOf, Entries, Bytes, FileNames;
  }

  /** A new inode of no directory, entered once. */
  lemma EnteredOnce(fs: Fs, f: Fs, cur: nat, ino: nat, name: seq<byte>, files: map<nat, seq<byte>>, items: Items)
    requires Ready(fs, cur, files) && Keeps(fs, f, cur, files) && Ready(f, cur, files)
      && Gains(fs, f, files, Nil, cur, cur)
    requires IsName(name) && AddEntry(f, cur, ino, name).Some?
    requires ino in f.nodes && !f.nodes[ino].kind.Dir? && (f.nodes[ino].kind.Link? ==> NamesOf(f, ino) == {})
    requires forall id :: id in files ==> TimesItems(items, id) == if id in f.known then One(f.known[id], ino) else 0
    ensures Gains(fs, AddEntry(f, cur, ino, name).value, files, items, cur, cur)
  {
    hide Good, Linked, FilesShown, Gains, AddEntry, NamesOf, Entries, Bytes, IsName, TimesItems;
    var g := AddEntry(f, cur, ino, name).value;
    GainsLinked(fs, f, files, Nil, cur, cur);
    EntryGains(f, cur, ino, name, files, items);
    assert TimesItems(Nil, 0) == 0 && forall id :: TimesItems(Nil, id) == 0 by { NoTimes(); }
    GainsTrans(fs, f, g, files, cur, cur, ino, Nil, items, items);
    KeepsTrans(fs, f, g, cur, files);
    NoSlackLost(fs, g, files, items, cur, ino);
  }

  lemma NoTimes()
    ensures forall id :: TimesItems(Nil, id) == 0
  {
  }

  lemma TimesOfOne(name: seq<byte>, tree: Tree, id: nat)
    requires !Hidden(name)
    ensures TimesItems(Item(name, tree, Nil), id) == Times(tree, id)
  {
  }

  lemma PlainGains(fs: Fs, cur: nat, name: seq<byte>, id: nat, bytes: seq<byte>, files: map<nat, seq<byte>>)
    requires Ready(fs, cur, files) && Linked(fs, files) && id in files && files[id] == bytes
    requires IsName(name) && !Hidden(name) && AddTree(fs, cur, name, Plain(id, bytes)).Some?
    ensures Gains(fs, AddTree(fs, cur, name, Plain(id, bytes)).value, files, Item(name, Plain(id, bytes), Nil), cur,
      cur)
  {
    hide Good, Linked, FilesShown, Keeps, Gains, AddEntry, AddFile, NamesOf, Bytes, Entries, IsName, TimesItems;
    FileAdded(fs, id, bytes, files);
    FileGains(fs, id, bytes, files, cur);
    var (f, ino) := AddFile(fs, id, bytes).value;
    Onwards(fs, f, cur, files);
    FileInode(f, files, id);
    GoodNext(fs);
    KeepsAll(fs, f, fs.next, cur, files);
    forall i ensures TimesItems(Item(name, Plain(id, bytes), Nil), i) == Times(Plain(id, bytes), i) {
      TimesOfOne(name, Plain(id, bytes), i);
    }
    EnteredOnce(fs, f, cur, ino, name, files, Item(name, Plain(id, bytes), Nil));
  }

  lemma LinkGains(fs: Fs, cur: nat, name: seq<byte>, id: nat, target: seq<byte>, files: map<nat, seq<byte>>)
    requires Ready(fs, cur, files) && Linked(fs, files) && id !in files
    requires IsName(name) && !Hidden(name) && AddTree(fs, cur, name, Symlink(id, target)).Some?
    ensures Gains(fs, AddTree(fs, cur, name, Symlink(id, target)).value, files, Item(name, Symlink(id, target), Nil),
      cur, cur)
  {
    hide Good, Linked, FilesShown, Keeps, Gains, AddEntry, AddTarget, NamesOf, Bytes, Entries, IsName, TimesItems;
    TargetAdded(fs, id, target, files);
    TargetGains(fs, id, target, files, cur);
    var (f, ino) := AddTarget(fs, id, target).value;
    Onwards(fs, f, cur, files);
    NoFile(f, files, ino);
    GoodNext(fs);
    KeepsAll(fs, f, fs.next, cur, files);
    forall i ensures TimesItems(Item(name, Symlink(id, target), Nil), i) == Times(Symlink(id, target), i) {
      TimesOfOne(name, Symlink(id, target), i);
    }
    EnteredOnce(fs, f, cur, ino, name, files, Item(name, Symlink(id, target), Nil));
  }

  /** A visible entry of the host adds to each host file the names it has there. */
  lemma {:induction false} TreeGains(fs: Fs, cur: nat, name: seq<byte>, tree: Tree, files: map<nat, seq<byte>>)
    requires Ready(fs, cur, files) && Linked(fs, files) && Agrees(tree, files)
    requires IsName(name) && !Hidden(name) && AddTree(fs, cur, name, tree).Some?
    ensures Gains(fs, AddTree(fs, cur, name, tree).value, files, Item(name, tree, Nil), cur, cur)
    decreases tree, 1
  {
    hide Ready, Linked, Keeps, Gains, AddEntry, AddFile, AddTarget, AddNode, OpenDir, IsName, TimesItems;
    forall id ensures TimesItems(Item(name, tree, Nil), id) == Times(tree, id) {
      TimesOfOne(name, tree, id);
    }
    match tree
    case Special => Unchanged(fs, files, Item(name, tree, Nil), cur);
    case Plain(id, bytes) => PlainGains(fs, cur, name, id, bytes, files);
    case Symlink(id, target) => LinkGains(fs, cur, name, id, target, files);
    case Folder(id, items) =>
      FolderGains(fs, cur, id, items, files);
      FolderEntered(fs, cur, name, id, items, files);
  }

  lemma SameEnds(fs: Fs, g: Fs, files: map<nat, seq<byte>>, items: Items, a: nat, b: nat)
    requires Gains(fs, g, files, items, a, a)
    ensures Gains(fs, g, files, items, b, b)
  {
    hide Linked, FileNames, Slack, TimesItems;
  }

  /** A new folder with its items in it, before it is entered in its parent `cur`. */
  lemma {:induction false} FolderGains(fs: Fs, cur: nat, id: nat, items: Items, files: map<nat, seq<byte>>)
    requires Ready(fs, cur, files) && Linked(fs, files) && id !in files && AgreesItems(items, files)
    requires AddNode(fs, id, Dir).Some? && OpenDir(AddNode(fs, id, Dir).value, fs.next, cur, items).Some?
    ensures Gains(fs, OpenDir(AddNode(fs, id, Dir).value, fs.next, cur, items).value, files, items, fs.next, cur)
    decreases items, 3
  {
    hide Good, Linked, FilesShown, Keeps, Gains, AddNode, OpenDir, Entries, Bytes, TimesItems;
    NodeGains(fs, id, files, fs.next);
    var f := AddNode(fs, id, Dir).value;
    GainsLinked(fs, f, files, Nil, fs.next, fs.next);
    NodeAdded(fs, id, Dir, fs.next, files);
    GoodNext(fs);
    FilesKept(fs, f, fs.next, files);
    KeptDir(fs, f, cur, fs.next, files);
    DirGains(f, fs.next, cur, items, files);
    NoTimes();
    GainsTrans(fs, f, OpenDir(f, fs.next, cur, items).value, files, fs.next, fs.next, cur, Nil, items, items);
  }

  lemma KeptDir(fs: Fs, f: Fs, n: nat, cur: nat, files: map<nat, seq<byte>>)
    requires Keeps(fs, f, cur, files) && n in fs.nodes && fs.nodes[n].kind.Dir?
    ensures n in f.nodes && f.nodes[n].kind.Dir?
  {
    hide Entries, Bytes;
  }

  lemma FolderEntered(fs: Fs, cur: nat, name: seq<byte>, id: nat, items: Items, files: map<nat, seq<byte>>)
    requires Ready(fs, cur, files) && Linked(fs, files) && Agrees(Folder(id, items), files)
    requires IsName(name) && !Hidden(name) && AddTree(fs, cur, name, Folder(id, items)).Some?
    requires Gains(fs, OpenDir(AddNode(fs, id, Dir).value, fs.next, cur, items).value, files, items, fs.next, cur)
    ensures Gains(fs, AddTree(fs, cur, name, Folder(id, items)).value, files, Item(name, Folder(id, items), Nil), cur,
      cur)
  {
    hide Good, Linked, FilesShown, Keeps, Gains, AddEntry, AddNode, OpenDir, Entries, Bytes, IsName, TimesItems,
         AgreesItems;
    var g := OpenDir(AddNode(fs, id, Dir).value, fs.next, cur, items).value;
    var h := AddTree(fs, cur, name, Folder(id, items)).value;
    var one := Item(name, Folder(id, items), Nil);
    FolderStep(fs, cur, id, items, files);
    Onwards(fs, g, cur, files);
    ShownDir(g, fs.next, cur, id, items);
    GainsLinked(fs, g, files, items, fs.next, cur);
    NoFile(g, files, fs.next);
    NoTimes();
    EntryGains(g, cur, fs.next, name, files, Nil);
    forall i ensures TimesItems(one, i) == TimesItems(items, i) {
      TimesOfOne(name, Folder(id, items), i);
    }
    GainsTrans(fs, g, h, files, fs.next, cur, fs.next, items, Nil, one);
    SameEnds(fs, h, files, one, fs.next, cur);
  }

  lemma ShownDir(fs: Fs, ino: nat, parent: nat, id: nat, items: Items)
    requires Shows(fs, ino, parent, ino, Folder(id, items))
    ensures ino in fs.nodes && fs.nodes[ino].kind.Dir?
  {
    hide Entries, ShowsItems;
  }

  /** open_dir: "." gives the directory an entry and a name, ".." an entry, and its parent a name. */
  lemma {:induction false} DirGains(fs: Fs, cur: nat, parent: nat, items: Items, files: map<nat, seq<byte>>)
    requires Ready(fs, cur, files) && Linked(fs, files) && AgreesItems(items, files)
    requires parent in fs.nodes && fs.nodes[parent].kind.Dir? && OpenDir(fs, cur, parent, items).Some?
    ensures Gains(fs, OpenDir(fs, cur, parent, items).value, files, items, cur, parent)
    decreases items, 2
  {
    hide Good, Linked, FilesShown, Keeps, Gains, AddEntry, Walk, Entries, Bytes, TimesItems;
    NoTimes();
    NoFile(fs, files, cur);
    EntryGains(fs, cur, cur, [DOT], files, Nil);
    var f := AddEntry(fs, cur, cur, [DOT]).value;
    GainsLinked(fs, f, files, Nil, cur, cur);
    KeptDir(fs, f, parent, cur, files);
    NoFile(f, files, parent);
    EntryGains(f, cur, parent, [DOT, DOT], files, Nil);
    var g := AddEntry(f, cur, parent, [DOT, DOT]).value;
    GainsLinked(f, g, files, Nil, cur, parent);
    GainsTrans(fs, f, g, files, cur, cur, parent, Nil, Nil, Nil);
    WalkGains(g, cur, items, files);
    SameEnds(g, Walk(g, cur, items).value, files, items, cur, parent);
    GainsTrans(fs, g, Walk(g, cur, items).value, files, cur, parent, parent, Nil, items, items);
  }

  lemma {:induction false} WalkGains(fs: Fs, cur: nat, items: Items, files: map<nat, seq<byte>>)
    requires Ready(fs, cur, files) && Linked(fs, files) && AgreesItems(items, files) && Walk(fs, cur, items).Some?
    ensures Gains(fs, Walk(fs, cur, items).value, files, items, cur, cur)
    decreases items, 1
  {
    hide Ready, Linked, Keeps, Gains, AddTree, Entries, TimesItems;
    match items
    case Nil =>
      NoTimes();
      Unchanged(fs, files, Nil, cur);
    case Item(name, tree, rest) =>
      TimesStep(name, tree, rest);
      if Hidden(name) {
        WalkGains(fs, cur, rest, files);
        Unchanged(fs, files, Nil, cur);
        GainsTrans(fs, fs, Walk(fs, cur, rest).value, files, cur, cur, cur, Nil, rest, items);
      } else {
        TreeGains(fs, cur, name, tree, files);
        var f := AddTree(fs, cur, name, tree).value;
        GainsLinked(fs, f, files, Item(name, tree, Nil), cur, cur);
        ReadyAfter(fs, cur, name, tree, files);
        WalkGains(f, cur, rest, files);
        GainsTrans(fs, f, Walk(f, cur, rest).value, files, cur, cur, cur, Item(name, tree, Nil), rest, items);
      }
  }

  lemma TimesStep(name: seq<byte>, tree: Tree, rest: Items)
    ensures forall id :: TimesItems(Nil, id) == 0
    ensures forall id :: TimesItems(Item(name, tree, rest), id)
                         == (if Hidden(name) then 0 else TimesItems(Item(name, tree, Nil), id)) + TimesItems(rest, id)
  {
  }

  lemma ReadyAfter(fs: Fs, cur: nat, name: seq<byte>, tree: Tree, files: map<nat, seq<byte>>)
    requires Ready(fs, cur, files) && Agrees(tree, files) && IsName(name) && AddTree(fs, cur, name, tree).Some?
    ensures Ready(AddTree(fs, cur, name, tree).value, cur, files)
  {
    hide Ready, Keeps, AddTree, Entries, Agrees, IsName, Shows;
    TreeStep(fs, cur, name, tree, files);
  }

  // ---- the finished image ----

  lemma StartGains(size: nat, files: map<nat, seq<byte>>)
    requires Create(size).Some? && 0 !in files
    ensures var fs := Create(size).value;
            && Ready(fs, ROOT, files) && Linked(fs, files)
            && (forall id :: id in files ==> FileNames(fs, id) == 0) && (forall n :: Slack(fs, n) == 0)
  {
    hide Good, Entries, NamesOf;
    CreateGood(size);
    var fs := Create(size).value;
    forall n ensures NamesOf(fs, n) == {} {
      NoNames(fs, n);
    }
    assert forall d: nat, i: nat :: !IsEntry(fs, d, i);
  }

  /** A directory has as many entries as blocks, so it never has 65536 of them. */
  lemma FewEntries(fs: Fs, n: nat)
    requires Good(fs) && n in fs.nodes
    ensures |Entries(fs, fs.nodes[n])| <= MAX_BLOCKS < LINKS
  {
    assert Mapped(fs, n, fs.nodes[n]);
    BlocksLength(fs.index, fs.nodes[n]);
  }

  /** The finished image of one host file system: every host file has as many entries as visible names, and
    * any other inode fewer than 65536.
    */
  lemma NamesAreHosts(size: nat, items: Items, files: map<nat, seq<byte>>)
    requires Build(size, items).Some? && AgreesItems(items, files) && 0 !in files
    ensures var g := Build(size, items).value;
            && LinksCounted(g)
            && (forall id :: id in files ==> FileNames(g, id) == TimesItems(items, id))
            && (forall id :: id in files && id in g.known ==> g.known[id] in g.nodes)
            && (forall n :: n in g.nodes ==>
                  if g.nodes[n].kind.File? then OfHost(g, files, n) else |NamesOf(g, n)| < LINKS)
  {
    hide Good, Entries, NamesOf, OpenDir, Gains, Create, LinksCounted, OfHost, FileNames, TimesItems;
    StartGains(size, files);
    var fs := Create(size).value;
    RootThere(size);
    DirGains(fs, ROOT, ROOT, items, files);
    var g := Build(size, items).value;
    BuiltFiles(size, items, files);
    GainsAll(fs, g, files, items, ROOT);
    forall n | n in g.nodes && g.nodes[n].kind.Dir? ensures |NamesOf(g, n)| < LINKS {
      FewEntries(g, n);
      assert Slack(g, n) >= Slack(fs, n) == 0;
    }
  }

  lemma BuiltFiles(size: nat, items: Items, files: map<nat, seq<byte>>)
    requires Build(size, items).Some? && AgreesItems(items, files) && 0 !in files
    ensures var g := Build(size, items).value;
            && Good(g) && FilesShown(g, files)
            && forall id :: id in files && id in g.known ==> g.known[id] in g.nodes
  {
    hide Good, Entries, OpenDir, Bytes;
    CreateGood(size);
    DirStep(Create(size).value, ROOT, ROOT, items, 0, files);
  }

  lemma RootThere(size: nat)
    requires Create(size).Some?
    ensures var fs := Create(size).value; ROOT in fs.nodes && fs.nodes[ROOT].kind.Dir?
  {
  }

  lemma GainsAll(fs: Fs, g: Fs, files: map<nat, seq<byte>>, items: Items, n: nat)
    requires Gains(fs, g, files, items, n, n)
    ensures Linked(g, files)
    ensures forall id :: id in files ==> FileNames(g, id) == FileNames(fs, id) + TimesItems(items, id)
    ensures forall m :: Slack(g, m) >= Slack(fs, m)
  {
    hide Linked, FileNames, Slack, TimesItems;
  }

  /** All link counts of the image are right exactly when no host file has 65536 visible names or more; a
    * host file's count is the number of its names, modulo 65536.
    */
  lemma LinkCountsRight(size: nat, items: Items, files: map<nat, seq<byte>>)
    requires Build(size, items).Some? && AgreesItems(items, files) && 0 !in files
    ensures var g := Build(size, items).value;
            && (forall id :: id in files && id in g.known ==>
                  g.known[id] in g.nodes && g.nodes[g.known[id]].nlinks == TimesItems(items, id) % LINKS)
            && ((forall n :: n in g.nodes ==> g.nodes[n].nlinks == |NamesOf(g, n)|)
                <==> forall id :: id in files ==> TimesItems(items, id) < LINKS)
  {
    hide Good, Entries, NamesOf, OpenDir, Create, TimesItems;
    NamesAreHosts(size, items, files);
    var g := Build(size, items).value;
    forall id | id in files && TimesItems(items, id) >= LINKS
      ensures id in g.known && g.nodes[g.known[id]].nlinks != |NamesOf(g, g.known[id])|
    {
      assert FileNames(g, id) == TimesItems(items, id);
    }
  }
}
