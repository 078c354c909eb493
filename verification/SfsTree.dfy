/** Copying a host directory tree into the image, as a function of the builder's state
  * (lab8/tools/mksfs.c: add_entry, add_file, add_link, add_dir, open_dir, open_file, open_link).
  */
module SfsTree {
  import opened Options
  import opened SfsBlocks
  import opened SfsNodes
  import opened SfsEntries

  const DOT: byte := 46
  const ENTRY_SIZE: nat := 256

  /** A host tree. `id` is the host inode number; files with one number are one file. `Special` is
    * anything that is neither a file, a link nor a directory.
    */
  datatype Tree = Plain(id: nat, bytes: seq<byte>) | Symlink(id: nat, bytes: seq<byte>) | Folder(id: nat,
    items: Items) | Special

  datatype Items = Nil | Item(name: seq<byte>, tree: Tree, rest: Items)

  /** A failed assert or a call of bug ends the program: the result is then None. */
  function AddEntry(fs: Fs, cur: nat, ino: nat, name: seq<byte>): Option<Fs> {
    if cur in fs.nodes && ino in fs.nodes && fs.nodes[cur].kind.Dir? && |fs.nodes[cur].direct| == DIRECT
       && |fs.entry| == 256 && |name| <= NAME_MAX
    then
      var entry := CopyName(fs.entry, name);
      match AddBlock(fs.(entry := entry), cur, ENTRY_SIZE, EntryBlock(ino, entry))
      case None => None
      case Some(g) => if ino in g.nodes then Some(AddLink(g, ino)) else None
    else None
  }

  function Chunk(bytes: seq<byte>): (r: seq<byte>)
    ensures |r| <= BLOCK_SIZE && |r| <= |bytes| && r == bytes[..|r|]
    ensures bytes != [] ==> r != []
    ensures |r| < BLOCK_SIZE ==> r == bytes
  {
    if |bytes| <= BLOCK_SIZE then bytes else bytes[..BLOCK_SIZE]
  }

  function AddBytes(fs: Fs, n: nat, bytes: seq<byte>): Option<Fs>
    decreases |bytes|
  {
    if bytes == [] then Some(fs)
    else if n !in fs.nodes || |fs.nodes[n].direct| != DIRECT then None
    else
      match AddBlock(fs, n, |Chunk(bytes)|, Pad(Chunk(bytes)))
      case None => None
      case Some(g) => AddBytes(g, n, bytes[|Chunk(bytes)|..])
  }

  /** The image inode for a host file, made and filled the first time the file is met. */
  function AddFile(fs: Fs, id: nat, bytes: seq<byte>): Option<(Fs, nat)> {
    if id in fs.known then Some((fs, fs.known[id])) else
    match AddNode(fs, id, File)
    case None => None
    case Some(f) =>
      match AddBytes(f, fs.next, bytes)
      case None => None
      case Some(g) => Some((g, fs.next))
  }

  function AddTarget(fs: Fs, id: nat, target: seq<byte>): Option<(Fs, nat)> {
    match AddNode(fs, id, Link)
    case None => None
    case Some(f) =>
      if |target| >= BLOCK_SIZE || fs.next !in f.nodes || |f.nodes[fs.next].direct| != DIRECT then None else
      match AddBlock(f, fs.next, |target|, Pad(target))
      case None => None
      case Some(g) => Some((g, fs.next))
  }

  predicate Hidden(name: seq<byte>) {
    |name| > 0 && name[0] == DOT
  }

  /** Every name that is not hidden is a C string. */
  ghost predicate CNames(items: Items) {
    match items
    case Nil => true
    case Item(name, tree, rest) =>
      && (!Hidden(name) ==> (forall i :: 0 <= i < |name| ==> name[i] != 0) && (tree.Folder? ==> CNames(tree.items)))
      && CNames(rest)
  }

  function AddTree(fs: Fs, cur: nat, name: seq<byte>, tree: Tree): Option<Fs>
    decreases tree, 0
  {
    match tree
    case Special => Some(fs)
    case Plain(id, bytes) => (
      match AddFile(fs, id, bytes)
      case None => None
      case Some((f, ino)) => AddEntry(f, cur, ino, name))
    case Symlink(id, target) => (
      match AddTarget(fs, id, target)
      case None => None
      case Some((f, ino)) => AddEntry(f, cur, ino, name))
    case Folder(id, items) =>
      if id in fs.known then None else
      match AddNode(fs, id, Dir)
      case None => None
      case Some(f) =>
        match OpenDir(f, fs.next, cur, items)
        case None => None
        case Some(g) => AddEntry(g, cur, fs.next, name)
  }

  function OpenDir(fs: Fs, cur: nat, parent: nat, items: Items): Option<Fs>
    decreases items, 1
  {
    match AddEntry(fs, cur, cur, [DOT])
    case None => None
    case Some(f) =>
      match AddEntry(f, cur, parent, [DOT, DOT])
      case None => None
      case Some(g) => Walk(g, cur, items)
  }

  /** The readdir loop of open_dir: hidden names are skipped, names over 255 bytes stop the program. */
  function Walk(fs: Fs, cur: nat, items: Items): Option<Fs>
    decreases items, 0
  {
    match items
    case Nil => Some(fs)
    case Item(name, tree, rest) =>
      if Hidden(name) then Walk(fs, cur, rest)
      else if |name| > NAME_MAX then None
      else
        match AddTree(fs, cur, name, tree)
        case None => None
        case Some(g) => Walk(g, cur, rest)
  }

  // ---- reading ----

  function Content(fs: Fs, b: nat): seq<byte> {
    if b in fs.disk then fs.disk[b] else []
  }

  function Join(fs: Fs, blocks: seq<nat>): seq<byte> {
    if blocks == [] then [] else Join(fs, blocks[..|blocks| - 1]) + Content(fs, blocks[|blocks| - 1])
  }

  /** The bytes of a file or link: its blocks in order, cut to its size. */
  function Bytes(fs: Fs, node: Inode): seq<byte> {
    var all := Join(fs, Blocks(fs.index, node));
    if node.size <= |all| then all[..node.size] else all
  }

  datatype Entry = Entry(ino: nat, name: seq<byte>)

  function EntryAt(fs: Fs, b: nat): Entry {
    Entry(ReadIno(Content(fs, b)), ReadName(Content(fs, b)))
  }

  function EntriesOf(fs: Fs, blocks: seq<nat>): (s: seq<Entry>)
    ensures |s| == |blocks|
  {
    seq(|blocks|, i requires 0 <= i < |blocks| => EntryAt(fs, blocks[i]))
  }

  function Entries(fs: Fs, node: Inode): seq<Entry> {
    EntriesOf(fs, Blocks(fs.index, node))
  }

  function ReadTree(fs: Fs, ino: nat, depth: nat): Option<Tree>
    decreases depth, 0, 0
  {
    if ino !in fs.nodes then None else
    match fs.nodes[ino].kind
    case File => Some(Plain(ino, Bytes(fs, fs.nodes[ino])))
    case Link => Some(Symlink(ino, Bytes(fs, fs.nodes[ino])))
    case Dir =>
      if depth == 0 then None else
      match ReadItems(fs, Entries(fs, fs.nodes[ino]), depth - 1)
      case None => None
      case Some(items) => Some(Folder(ino, items))
  }

  function ReadItems(fs: Fs, entries: seq<Entry>, depth: nat): Option<Items>
    decreases depth, 1, |entries|
  {
    if entries == [] then Some(Nil)
    else if Hidden(entries[0].name) then ReadItems(fs, entries[1..], depth)
    else
      match ReadTree(fs, entries[0].ino, depth)
      case None => None
      case Some(tree) =>
        match ReadItems(fs, entries[1..], depth)
        case None => None
        case Some(rest) => Some(Item(entries[0].name, tree, rest))
  }
}
