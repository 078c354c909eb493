/** The image round trip: what was copied in is what a reader of the image gets back. */
module SfsRoundTrip {
  import opened SfsBlocks
  import opened SfsNodes
  import opened SfsEntries
  import opened SfsTree
  import opened SfsSteps

  /** One host filesystem: a number in `files` is a plain file with those bytes wherever it occurs,
    * and names are C strings. Hidden entries are free.
    */
  ghost predicate Agrees(tree: Tree, files: map<nat, seq<byte>>)
    decreases tree
  {
    match tree
    case Plain(id, bytes) => id in files && files[id] == bytes
    case Symlink(id, _) => id !in files
    case Folder(id, items) => id !in files && AgreesItems(items, files)
    case Special => true
  }

  ghost predicate AgreesItems(items: Items, files: map<nat, seq<byte>>)
    decreases items
  {
    match items
    case Nil => true
    case Item(name, tree, rest) =>
      && (!Hidden(name) ==> (forall i :: 0 <= i < |name| ==> name[i] != 0) && Agrees(tree, files))
      && AgreesItems(rest, files)
  }

  /** Inode `ino`, entered in directory `parent`, holds the host tree; directories have numbers from lo up. */
  ghost predicate Shows(fs: Fs, lo: nat, parent: nat, ino: nat, tree: Tree)
    decreases tree
  {
    ino in fs.nodes &&
    match tree
    case Plain(id, bytes) => fs.nodes[ino].kind.File? && Bytes(fs, fs.nodes[ino]) == bytes && id in fs.known
      && fs.known[id] == ino
    case Symlink(_, target) => fs.nodes[ino].kind.Link? && Bytes(fs, fs.nodes[ino]) == target
    case Folder(_, items) =>
      var entries := Entries(fs, fs.nodes[ino]);
      && lo <= ino && fs.nodes[ino].kind.Dir?
      && |entries| >= 2 && entries[0] == Entry(ino, [DOT]) && entries[1] == Entry(parent, [DOT, DOT])
      && ShowsItems(fs, lo, ino, entries[2..], items)
    case Special => false
  }

  ghost predicate Dropped(name: seq<byte>, tree: Tree) {
    Hidden(name) || tree.Special?
  }

  ghost predicate ShowsItems(fs: Fs, lo: nat, dir: nat, entries: seq<Entry>, items: Items)
    decreases items
  {
    match items
    case Nil => entries == []
    case Item(name, tree, rest) =>
      if Dropped(name, tree) then ShowsItems(fs, lo, dir, entries, rest)
      else entries != [] && entries[0].name == Cut(name)
           && Shows(fs, lo, dir, entries[0].ino, tree) && ShowsItems(fs, lo, dir, entries[1..], rest)
  }

  lemma {:induction false} ShowsKept(fs: Fs, g: Fs, cur: nat, files: map<nat, seq<byte>>, lo: nat, lo': nat,
                                     parent: nat, ino: nat, tree: Tree)
    requires Keeps(fs, g, cur, files) && cur in fs.nodes && fs.nodes[cur].kind.Dir? && cur < lo && lo' <= lo
    requires Agrees(tree, files) && Shows(fs, lo, parent, ino, tree)
    ensures Shows(g, lo', parent, ino, tree)
    decreases tree
  {
    hide Entries, Bytes;
    match tree
    case Folder(id, items) => ItemsKept(fs, g, cur, files, lo, lo', ino, Entries(fs, fs.nodes[ino])[2..], items);
    case _ =>
  }

  lemma {:induction false} ItemsKept(fs: Fs, g: Fs, cur: nat, files: map<nat, seq<byte>>, lo: nat, lo': nat, dir: nat,
                                     entries: seq<Entry>, items: Items)
    requires Keeps(fs, g, cur, files) && cur in fs.nodes && fs.nodes[cur].kind.Dir? && cur < lo && lo' <= lo
    requires AgreesItems(items, files) && ShowsItems(fs, lo, dir, entries, items)
    ensures ShowsItems(g, lo', dir, entries, items)
    decreases items
  {
    hide Keeps, Cut, Hidden;
    match items
    case Nil =>
    case Item(name, tree, rest) =>
      if Dropped(name, tree) {
        ItemsKept(fs, g, cur, files, lo, lo', dir, entries, rest);
      } else {
        ShowsKept(fs, g, cur, files, lo, lo', dir, entries[0].ino, tree);
        ItemsKept(fs, g, cur, files, lo, lo', dir, entries[1..], rest);
      }
  }

  /** Everything a copying step needs and keeps. */
  ghost predicate Ready(fs: Fs, cur: nat, files: map<nat, seq<byte>>) {
    Good(fs) && FilesShown(fs, files) && cur in fs.nodes && fs.nodes[cur].kind.Dir?
  }

  /** Adding an entry keeps the step going and what was shown. */
  lemma EntryStep(fs: Fs, cur: nat, ino: nat, name: seq<byte>, files: map<nat, seq<byte>>)
    requires Ready(fs, cur, files) && IsName(name) && AddEntry(fs, cur, ino, name).Some?
    ensures var g := AddEntry(fs, cur, ino, name).value;
            && Ready(g, cur, files) && Keeps(fs, g, cur, files)
            && Entries(g, g.nodes[cur]) == Entries(fs, fs.nodes[cur]) + [Entry(ino, Cut(name))]
  {
    hide Good, Entries, Bytes, AddEntry, FilesShown, Cut;
    EntryAdded(fs, cur, ino, name, files);
    FilesKept(fs, AddEntry(fs, cur, ino, name).value, cur, files);
  }

  /** Copying one host entry adds at most one directory entry, which shows the host tree. */
  ghost predicate TreeCopied(fs: Fs, g: Fs, cur: nat, name: seq<byte>, tree: Tree, files: map<nat, seq<byte>>)
    requires cur in fs.nodes
  {
    && Ready(g, cur, files) && Keeps(fs, g, cur, files)
    && var before, after := Entries(fs, fs.nodes[cur]), Entries(g, g.nodes[cur]);
    if tree.Special? then after == before
    else |after| == |before| + 1 && after[..|before|] == before && after[|before|].name == Cut(name)
         && Shows(g, fs.next, cur, after[|before|].ino, tree)
  }

  ghost predicate ItemsCopied(fs: Fs, g: Fs, lo: nat, cur: nat, items: Items, files: map<nat, seq<byte>>)
    requires cur in fs.nodes
  {
    && Ready(g, cur, files) && Keeps(fs, g, cur, files)
    && var before, after := Entries(fs, fs.nodes[cur]), Entries(g, g.nodes[cur]);
    |after| >= |before| && after[..|before|] == before && ShowsItems(g, lo, cur, after[|before|..], items)
  }

  /** The step common to every kind: an inode that shows the tree is entered in the directory. */
  lemma EntryOf(fs: Fs, f: Fs, cur: nat, ino: nat, name: seq<byte>, tree: Tree, files: map<nat, seq<byte>>)
    requires Ready(fs, cur, files) && Keeps(fs, f, cur, files) && Good(f) && FilesShown(f, files)
    requires cur in f.nodes && Entries(f, f.nodes[cur]) == Entries(fs, fs.nodes[cur])
    requires Agrees(tree, files) && !tree.Special? && Shows(f, fs.next, cur, ino, tree)
    requires IsName(name) && AddEntry(f, cur, ino, name).Some?
    ensures TreeCopied(fs, AddEntry(f, cur, ino, name).value, cur, name, tree, files)
  {
    hide Good, Entries, Bytes, AddEntry, FilesShown, Cut, Shows, Agrees;
    GoodBounds(fs);
    EntryStep(f, cur, ino, name, files);
    var g := AddEntry(f, cur, ino, name).value;
    KeepsTrans(fs, f, g, cur, files);
    ShowsKept(f, g, cur, files, fs.next, fs.next, cur, ino, tree);
  }

  lemma {:induction false} TreeStep(fs: Fs, cur: nat, name: seq<byte>, tree: Tree, files: map<nat, seq<byte>>)
    requires Ready(fs, cur, files) && Agrees(tree, files) && IsName(name) && AddTree(fs, cur, name, tree).Some?
    ensures TreeCopied(fs, AddTree(fs, cur, name, tree).value, cur, name, tree, files)
    decreases tree, 1
  {
    hide Good, Entries, Bytes, AddEntry, FilesShown, Cut, AddFile, AddTarget, Keeps;
    GoodNext(fs);
    match tree
    case Special => BufferKeeps(fs, fs, cur, files);
    case Plain(id, bytes) =>
      FileAdded(fs, id, bytes, files);
      var (f, ino) := AddFile(fs, id, bytes).value;
      KeepsAll(fs, f, fs.next, cur, files);
      EntryOf(fs, f, cur, ino, name, tree, files);
    case Symlink(id, target) =>
      TargetAdded(fs, id, target, files);
      var (f, ino) := AddTarget(fs, id, target).value;
      KeepsAll(fs, f, fs.next, cur, files);
      EntryOf(fs, f, cur, ino, name, tree, files);
    case Folder(id, items) =>
      FolderStep(fs, cur, id, items, files);
      var f := AddNode(fs, id, Dir).value;
      var g := OpenDir(f, fs.next, cur, items).value;
      KeepsAll(fs, g, fs.next, cur, files);
      EntryOf(fs, g, cur, fs.next, name, tree, files);
  }

  lemma GoodNext(fs: Fs)
    requires Good(fs)
    ensures fs.next !in fs.nodes
  {
    GoodBounds(fs);
  }

  lemma {:induction false} FolderStep(fs: Fs, cur: nat, id: nat, items: Items, files: map<nat, seq<byte>>)
    requires Ready(fs, cur, files) && id !in files && AgreesItems(items, files) && AddNode(fs, id, Dir).Some?
    requires OpenDir(AddNode(fs, id, Dir).value, fs.next, cur, items).Some?
    ensures var g := OpenDir(AddNode(fs, id, Dir).value, fs.next, cur, items).value;
            && Good(g) && FilesShown(g, files) && Keeps(fs, g, fs.next, files)
            && Shows(g, fs.next, cur, fs.next, Folder(id, items))
    decreases items, 3
  {
    hide Good, Entries, Bytes, AddNode, FilesShown, Keeps, OpenDir;
    NodeAdded(fs, id, Dir, fs.next, files);
    var f := AddNode(fs, id, Dir).value;
    FilesKept(fs, f, fs.next, files);
    DirStep(f, fs.next, cur, items, fs.next, files);
    KeepsTrans(fs, f, OpenDir(f, fs.next, cur, items).value, fs.next, files);
  }

  /** open_dir on a directory without entries: it then shows the items, after "." and "..". */
  lemma {:induction false} DirStep(fs: Fs, cur: nat, parent: nat, items: Items, lo: nat, files: map<nat, seq<byte>>)
    requires Ready(fs, cur, files) && Entries(fs, fs.nodes[cur]) == [] && AgreesItems(items, files)
    requires OpenDir(fs, cur, parent, items).Some? && lo <= cur
    ensures var g := OpenDir(fs, cur, parent, items).value;
            && Ready(g, cur, files) && Keeps(fs, g, cur, files)
            && var entries := Entries(g, g.nodes[cur]);
            && |entries| >= 2 && entries[0] == Entry(cur, [DOT]) && entries[1] == Entry(parent, [DOT, DOT])
            && ShowsItems(g, lo, cur, entries[2..], items)
    decreases items, 2
  {
    hide Good, Entries, Bytes, AddEntry, FilesShown, Keeps, Walk;
    EntryStep(fs, cur, cur, [DOT], files);
    var f := AddEntry(fs, cur, cur, [DOT]).value;
    EntryStep(f, cur, parent, [DOT, DOT], files);
    var g := AddEntry(f, cur, parent, [DOT, DOT]).value;
    KeepsTrans(fs, f, g, cur, files);
    GoodBounds(g);
    WalkStep(g, cur, items, lo, files);
    KeepsTrans(fs, g, Walk(g, cur, items).value, cur, files);
    var before, after := Entries(g, g.nodes[cur]),
      Entries(Walk(g, cur, items).value, Walk(g, cur, items).value.nodes[cur]);
    assert before == [Entry(cur, [DOT]), Entry(parent, [DOT, DOT])];
    assert after[0] == before[0] && after[1] == before[1];
  }

  lemma {:induction false} WalkStep(fs: Fs, cur: nat, items: Items, lo: nat, files: map<nat, seq<byte>>)
    requires Ready(fs, cur, files) && AgreesItems(items, files) && Walk(fs, cur, items).Some? && lo <= fs.next
    ensures ItemsCopied(fs, Walk(fs, cur, items).value, lo, cur, items, files)
    decreases items, 1
  {
    hide Good, Entries, Bytes, AddTree, FilesShown, Keeps;
    match items
    case Nil => BufferKeeps(fs, fs, cur, files);
    case Item(name, tree, rest) =>
      if Hidden(name) {
        WalkStep(fs, cur, rest, lo, files);
      } else {
        TreeStep(fs, cur, name, tree, files);
        var f := AddTree(fs, cur, name, tree).value;
        KeepsNext(fs, f, cur, files);
        WalkStep(f, cur, rest, lo, files);
        ItemJoined(fs, f, Walk(f, cur, rest).value, cur, name, tree, rest, lo, files);
      }
  }

  lemma KeepsNext(fs: Fs, g: Fs, cur: nat, files: map<nat, seq<byte>>)
    requires Keeps(fs, g, cur, files)
    ensures fs.next <= g.next
  {
  }

  lemma ItemJoined(fs: Fs, f: Fs, g: Fs, cur: nat, name: seq<byte>, tree: Tree, rest: Items, lo: nat,
                   files: map<nat, seq<byte>>)
    requires Ready(fs, cur, files) && Ready(f, cur, files) && Agrees(tree, files) && !Hidden(name) && lo <= fs.next
    requires TreeCopied(fs, f, cur, name, tree, files) && ItemsCopied(f, g, lo, cur, rest, files)
    ensures ItemsCopied(fs, g, lo, cur, Item(name, tree, rest), files)
  {
    hide Good, Entries, Bytes, FilesShown, Keeps, Cut, Shows, Hidden, Agrees;
    KeepsTrans(fs, f, g, cur, files);
    GoodBounds(fs);
    var before, between, after := Entries(fs, fs.nodes[cur]), Entries(f, f.nodes[cur]), Entries(g, g.nodes[cur]);
    if !tree.Special? {
      var ino := between[|before|].ino;
      ShowsKept(f, g, cur, files, fs.next, lo, cur, ino, tree);
      assert after[..|before|] == after[..|between|][..|before|];
      assert after[|before|] == after[..|between|][|before|];
      assert after[|before|..][1..] == after[|between|..];
    }
  }
}
