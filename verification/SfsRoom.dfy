/** When the image can be built, computed from the host tree before anything is written: the limits on names,
  * links, files and directories, and the exact number of blocks (lab8/tools/mksfs.c).
  */
module SfsRoom {
  import opened Options
  import opened SfsBlocks
  import opened SfsNodes
  import opened SfsEntries
  import opened SfsTree
  import opened SfsSteps
  import opened SfsRoundTrip
  import opened SfsImage

  /** The blocks that an inode with k data blocks takes, pointer blocks included. */
  function Room(k: nat): nat {
    k + (if k > 12 then 1 else 0) + (if k > 1036 then 1 + (k - 1036 + 1023) / 1024 else 0)
  }

  function FileBlocks(size: nat): nat {
    (size + 4095) / 4096
  }

  /** The host entries that get an entry in the image. */
  function Shown(items: Items): nat {
    match items
    case Nil => 0
    case Item(name, tree, rest) => (if Hidden(name) || tree.Special? then 0 else 1) + Shown(rest)
  }

  /** Blocks taken, and the host inode numbers met. */
  datatype Tally = Tally(cost: nat, known: set<nat>)

  function Plus(t: Option<Tally>, u: Option<Tally>): Option<Tally> {
    if t.Some? && u.Some? then Some(Tally(t.value.cost + u.value.cost, u.value.known)) else None
  }

  /** What a host entry takes beside its directory entry; None if it goes over a limit. */
  function TreeTally(known: set<nat>, tree: Tree): Option<Tally>
    decreases tree, 0
  {
    match tree
    case Special => Some(Tally(0, known))
    case Plain(id, bytes) =>
      if id in known then Some(Tally(0, known))
      else if FileBlocks(|bytes|) > 32768 then None
      else Some(Tally(1 + Room(FileBlocks(|bytes|)), known + {id}))
    case Symlink(id, target) => if |target| >= 4096 then None else Some(Tally(2, known + {id}))
    case Folder(id, items) =>
      if id in known then None else Plus(Some(Tally(1, known + {id})), DirTally(known + {id}, items))
  }

  function DirTally(known: set<nat>, items: Items): Option<Tally>
    decreases items, 1
  {
    if 2 + Shown(items) > 32768 then None
    else
      match ItemsTally(known, items)
      case None => None
      case Some(t) => Some(Tally(Room(2 + Shown(items)) + t.cost, t.known))
  }

  function ItemsTally(known: set<nat>, items: Items): Option<Tally>
    decreases items, 0
  {
    match items
    case Nil => Some(Tally(0, known))
    case Item(name, tree, rest) =>
      if Hidden(name) then ItemsTally(known, rest)
      else if |name| > 255 then None
      else
        match TreeTally(known, tree)
        case None => None
        case Some(t) => Plus(Some(t), ItemsTally(t.known, rest))
  }

  // ---- arithmetic ----

  lemma RoomStep(k: nat)
    ensures Room(k + 1) == Room(k) + 1 + NewPointers(k)
  {
    if k > SINGLE {
      var q, r := (k - SINGLE) / ENTRIES, (k - SINGLE) % ENTRIES;
      assert k - SINGLE == q * ENTRIES + r;
      assert k - SINGLE + ENTRIES == (q + 1) * ENTRIES + r;
      assert (k - SINGLE + ENTRIES) / ENTRIES == q + 1;
      if r == 0 {
        assert k - SINGLE + ENTRIES - 1 == q * ENTRIES + (ENTRIES - 1);
      } else {
        assert k - SINGLE + ENTRIES - 1 == (q + 1) * ENTRIES + (r - 1);
      }
    }
  }

  lemma {:induction false} RoomGrows(j: nat, k: nat)
    requires j <= k
    ensures Room(j) <= Room(k)
    decreases k
  {
    if j < k {
      RoomGrows(j, k - 1);
      RoomStep(k - 1);
    }
  }

  // ---- one step ----

  /** Every field of an inode fits the bytes it has on disk, and every word of a pointer block is a word. */
  ghost predicate Narrow(fs: Fs) {
    NarrowIndex(fs.index) && forall n :: n in fs.nodes ==> NarrowNode(fs.nodes[n])
  }

  ghost predicate NarrowIndex(index: Index) {
    forall b, k :: b in index && 0 <= k < |index[b]| ==> index[b][k] < COUNTS
  }

  ghost predicate NarrowNode(node: Inode) {
    && |node.direct| == DIRECT && node.size <= BLOCK_SIZE * node.blocks && node.nlinks < LINKS
    && node.indirect < COUNTS && node.dbIndirect < COUNTS
    && forall i :: 0 <= i < DIRECT ==> node.direct[i] < COUNTS
  }

  /** The blocks of a file follow its inode in order, with only its own pointer blocks between them, and all but the
    * last are full.
    */
  ghost predicate Laid(fs: Fs, n: nat) {
    && n in fs.nodes
    && (fs.nodes[n].blocks > DIRECT ==> fs.nodes[n].indirect == n + 2 + Room(DIRECT))
    && var blocks := Blocks(fs.index, fs.nodes[n]);
    |blocks| == FileBlocks(fs.nodes[n].size) && forall i :: 0 <= i < |blocks| ==> blocks[i] == n + 1 + Room(i)
  }

  /** Every file inode but cur that was laid out so, or was not there, is so afterwards. */
  ghost predicate KeepsLaid(fs: Fs, g: Fs, cur: nat) {
    forall m :: m in g.nodes && g.nodes[m].kind.File? && m != cur && (m in fs.nodes ==> Laid(fs, m)) ==> Laid(g, m)
  }

  /** Inode cur gained `entries` blocks and no other inode changed, at the cost of the tally and their room. */
  ghost predicate After(fs: Fs, g: Fs, cur: nat, t: Tally, entries: nat)
    requires cur in fs.nodes
  {
    && Good(g) && g.ninos == fs.ninos && g.known.Keys == t.known
    && g.next == fs.next + t.cost + Room(fs.nodes[cur].blocks + entries) - Room(fs.nodes[cur].blocks)
    && (forall m :: m in fs.nodes ==>
          && m in g.nodes && g.nodes[m].kind == fs.nodes[m].kind
          && g.nodes[m].blocks == fs.nodes[m].blocks + (if m == cur then entries else 0))
    && (Narrow(fs) ==> Narrow(g)) && KeepsLaid(fs, g, cur)
  }

  ghost predicate Fits(fs: Fs, cur: nat, t: Option<Tally>, entries: nat)
    requires cur in fs.nodes
  {
    && t.Some? && fs.nodes[cur].blocks + entries <= MAX_BLOCKS
    && fs.next + t.value.cost + Room(fs.nodes[cur].blocks + entries) - Room(fs.nodes[cur].blocks) <= fs.ninos
  }

  /** The step succeeds exactly when it fits. */
  ghost predicate Outcome(fs: Fs, r: Option<Fs>, cur: nat, t: Option<Tally>, entries: nat)
    requires cur in fs.nodes
  {
    && (r.Some? <==> Fits(fs, cur, t, entries))
    && (r.Some? ==> After(fs, r.value, cur, t.value, entries))
  }

  /** One step after another; the second is only made if the first came to an end. */
  lemma Chained(fs: Fs, r: Option<Fs>, s: Option<Fs>, cur: nat, t: Option<Tally>, u: Option<Tally>, j: nat, k: nat)
    requires Good(fs) && cur in fs.nodes && Outcome(fs, r, cur, t, j) && (r.None? ==> s.None?)
    requires r.Some? ==> cur in r.value.nodes && Outcome(r.value, s, cur, u, k)
    ensures Outcome(fs, s, cur, Plus(t, u), j + k)
  {
    hide Good, Room, Narrow, Laid;
    var e := fs.nodes[cur].blocks;
    RoomGrows(e, e + j);
    RoomGrows(e + j, e + j + k);
  }

  /** An inode that is as it was, with the same blocks. */
  lemma LaidSame(fs: Fs, g: Fs, m: nat)
    requires Laid(fs, m) && m in g.nodes && g.nodes[m] == fs.nodes[m].(nlinks := g.nodes[m].nlinks)
    requires Blocks(g.index, g.nodes[m]) == Blocks(fs.index, fs.nodes[m])
    ensures Laid(g, m)
  {
    hide Blocks;
  }

  lemma BlankLaid(fs: Fs, n: nat, kind: Kind)
    requires n in fs.nodes && fs.nodes[n] == Blank(kind)
    ensures Laid(fs, n)
  {
  }

  lemma NodeLaid(fs: Fs, id: nat, kind: Kind, cur: nat)
    requires AddNode(fs, id, kind).Some? && fs.next !in fs.nodes
    ensures KeepsLaid(fs, AddNode(fs, id, kind).value, cur)
  {
    hide Laid;
    var g := AddNode(fs, id, kind).value;
    forall m | m in g.nodes && (m in fs.nodes ==> Laid(fs, m)) ensures Laid(g, m) {
      if m == fs.next {
        BlankLaid(g, m, kind);
      } else {
        LaidSame(fs, g, m);
      }
    }
  }

  lemma BlockLaid(fs: Fs, g: Fs, n: nat, size: nat, bytes: seq<byte>)
    requires n in fs.nodes && Added(fs, g, n, size, bytes)
    ensures KeepsLaid(fs, g, n)
  {
    hide Good, Laid, Blocks;
    forall m | m in g.nodes && m != n && Laid(fs, m) ensures Laid(g, m) {
      LaidSame(fs, g, m);
    }
  }

  lemma LinkLaid(fs: Fs, n: nat, cur: nat)
    requires n in fs.nodes
    ensures KeepsLaid(fs, AddLink(fs, n), cur)
  {
    hide Laid, Lookup;
    var g := AddLink(fs, n);
    forall m | m in g.nodes && Laid(fs, m) ensures Laid(g, m) {
      SameNode(fs.index, fs.nodes[n], g.nodes[n]);
      assert Blocks(g.index, g.nodes[m]) == Blocks(fs.index, fs.nodes[m]);
      LaidSame(fs, g, m);
    }
  }

  lemma SlotNarrow(index: Index, b: nat, i: nat, v: nat)
    requires NarrowIndex(index) && v < COUNTS
    ensures NarrowIndex(SetSlot(index, b, i, v))
  {
  }

  lemma PointersNarrow(fs: Fs, b: nat, u: Use)
    requires NarrowIndex(fs.index) && b < COUNTS && fs.ninos <= COUNTS && Pointers(fs, b, u).Some?
    ensures var (f, l) := Pointers(fs, b, u).value;
            NarrowIndex(f.index) && l < COUNTS && f.nodes == fs.nodes && f.ninos == fs.ninos
  {
  }

  lemma SlotSmall(index: Index, b: nat, i: nat)
    requires NarrowIndex(index)
    ensures Slot(index, b, i) < COUNTS
  {
  }

  lemma PlaceNarrow(fs: Fs, n: nat, b: nat)
    requires Narrow(fs) && n in fs.nodes && Place(fs, n, b).Some? && b < COUNTS && fs.ninos <= COUNTS
    ensures Narrow(Place(fs, n, b).value) && Place(fs, n, b).value.nodes.Keys == fs.nodes.Keys
    ensures Place(fs, n, b).value.nodes[n].size == fs.nodes[n].size
    ensures Place(fs, n, b).value.nodes[n].blocks == fs.nodes[n].blocks
  {
    hide NarrowIndex, SetSlot, Pointers, Slot;
    var node := fs.nodes[n];
    if DIRECT <= node.blocks < SINGLE {
      PointersNarrow(fs, node.indirect, Single(n));
      var (f, l1) := Pointers(fs, node.indirect, Single(n)).value;
      SlotNarrow(f.index, l1, node.blocks - DIRECT, b);
    } else if SINGLE <= node.blocks {
      var q := node.blocks - SINGLE;
      PointersNarrow(fs, node.dbIndirect, Double(n));
      var (f, l2) := Pointers(fs, node.dbIndirect, Double(n)).value;
      SlotSmall(f.index, l2, q / ENTRIES);
      PointersNarrow(f, Slot(f.index, l2, q / ENTRIES), Leaf(n, q / ENTRIES));
      var (g, l1) := Pointers(f, Slot(f.index, l2, q / ENTRIES), Leaf(n, q / ENTRIES)).value;
      SlotNarrow(g.index, l2, q / ENTRIES, l1);
      SlotNarrow(SetSlot(g.index, l2, q / ENTRIES, l1), l1, q % ENTRIES, b);
    }
  }

  lemma BlockNarrow(fs: Fs, n: nat, size: nat, bytes: seq<byte>)
    requires Narrow(fs) && n in fs.nodes && |fs.nodes[n].direct| == DIRECT && fs.ninos <= COUNTS && size <= BLOCK_SIZE
    requires AddBlock(fs, n, size, bytes).Some?
    ensures Narrow(AddBlock(fs, n, size, bytes).value)
  {
    hide Place;
    var f := Take(fs, Data(n, fs.nodes[n].blocks)).value.(disk := fs.disk[fs.next := bytes]);
    PlaceNarrow(f, n, fs.next);
  }

  lemma LinkNarrow(fs: Fs, n: nat)
    requires Narrow(fs) && n in fs.nodes
    ensures Narrow(AddLink(fs, n))
  {
  }

  lemma NodeNarrow(fs: Fs, id: nat, kind: Kind)
    requires Narrow(fs) && AddNode(fs, id, kind).Some?
    ensures Narrow(AddNode(fs, id, kind).value)
  {
  }

  lemma NodeFits(fs: Fs, cur: nat, id: nat, kind: Kind)
    requires Good(fs) && cur in fs.nodes
    ensures Outcome(fs, AddNode(fs, id, kind), cur, Some(Tally(1, fs.known.Keys + {id})), 0)
    ensures AddNode(fs, id, kind).Some? ==>
      var f := AddNode(fs, id, kind).value;
      fs.next !in fs.nodes && fs.next in f.nodes && f.nodes[fs.next] == Blank(kind)
  {
    hide Good, Room, Narrow, KeepsLaid;
    NodeRoom(fs, cur);
    if AddNode(fs, id, kind).Some? {
      AddNodeGood(fs, id, kind);
      NodeLaid(fs, id, kind, cur);
      if Narrow(fs) {
        NodeNarrow(fs, id, kind);
      }
    }
  }

  lemma NodeRoom(fs: Fs, n: nat)
    requires Good(fs) && n in fs.nodes
    ensures fs.nodes[n].blocks <= MAX_BLOCKS && fs.next <= fs.ninos
  {
    assert Mapped(fs, n, fs.nodes[n]);
  }

  lemma BlockFits(fs: Fs, n: nat, size: nat, bytes: seq<byte>)
    requires Good(fs) && n in fs.nodes && |fs.nodes[n].direct| == DIRECT && |bytes| == BLOCK_SIZE && size <= BLOCK_SIZE
    ensures Outcome(fs, AddBlock(fs, n, size, bytes), n, Some(Tally(0, fs.known.Keys)), 1)
  {
    hide Good, AddBlock, Blocks, Room, NewPointers, Narrow, KeepsLaid;
    RoomStep(fs.nodes[n].blocks);
    AddBlockFits(fs, n, size, bytes);
    if AddBlock(fs, n, size, bytes).Some? {
      var g := AddBlock(fs, n, size, bytes).value;
      AddBlockGood(fs, n, size, bytes);
      BlocksLength(fs.index, fs.nodes[n]);
      BlocksLength(g.index, g.nodes[n]);
      BlockLaid(fs, g, n, size, bytes);
      GoodBounds(fs);
      if Narrow(fs) {
        BlockNarrow(fs, n, size, bytes);
      }
    }
  }

  lemma BufferNarrow(fs: Fs, entry: seq<byte>)
    ensures Narrow(fs.(entry := entry)) <==> Narrow(fs)
  {
  }

  lemma LaidThrough(fs: Fs, entry: seq<byte>, f: Fs, g: Fs, cur: nat)
    requires KeepsLaid(fs.(entry := entry), f, cur) && KeepsLaid(f, g, cur)
    requires f.nodes.Keys == g.nodes.Keys && forall m :: m in f.nodes ==> f.nodes[m].kind == g.nodes[m].kind
    ensures KeepsLaid(fs, g, cur)
  {
    forall m | m in fs.nodes && Laid(fs, m) ensures Laid(fs.(entry := entry), m) {
      LaidSame(fs, fs.(entry := entry), m);
    }
    hide Laid;
  }

  /** A directory entry takes one block of its directory, and counting the link takes none. */
  lemma EntryFits(fs: Fs, cur: nat, ino: nat, name: seq<byte>)
    requires Good(fs) && cur in fs.nodes && ino in fs.nodes && fs.nodes[cur].kind.Dir? && |name| <= NAME_MAX
    ensures Outcome(fs, AddEntry(fs, cur, ino, name), cur, Some(Tally(0, fs.known.Keys)), 1)
  {
    hide Good, AddBlock, EntryBlock, CopyName, Room, Narrow, KeepsLaid;
    GoodDirect(fs, cur);
    GoodBounds(fs);
    var entry := CopyName(fs.entry, name);
    BufferGood(fs, entry);
    BlockFits(fs.(entry := entry), cur, ENTRY_SIZE, EntryBlock(ino, entry));
    var f := AddBlock(fs.(entry := entry), cur, ENTRY_SIZE, EntryBlock(ino, entry));
    if f.Some? {
      AddLinkGood(f.value, ino);
      BufferNarrow(fs, entry);
      LinkLaid(f.value, ino, cur);
      LaidThrough(fs, entry, f.value, AddLink(f.value, ino), cur);
      if Narrow(f.value) {
        LinkNarrow(f.value, ino);
      }
    }
  }

  lemma {:induction false} BytesFit(fs: Fs, n: nat, bytes: seq<byte>)
    requires Good(fs) && n in fs.nodes
    ensures Outcome(fs, AddBytes(fs, n, bytes), n, Some(Tally(0, fs.known.Keys)), FileBlocks(|bytes|))
    decreases |bytes|
  {
    hide Good, AddBlock, Pad, Outcome, Fits, After;
    GoodDirect(fs, n);
    if bytes == [] {
      Idle(fs, n);
    } else {
      var chunk := Chunk(bytes);
      BlockFits(fs, n, |chunk|, Pad(chunk));
      var r := AddBlock(fs, n, |chunk|, Pad(chunk));
      FileBlocksStep(|bytes|, |chunk|);
      if r.Some? {
        OutcomeGood(fs, r.value, n, Some(Tally(0, fs.known.Keys)), 1);
        BytesFit(r.value, n, bytes[|chunk|..]);
      }
      Chained(fs, r, AddBytes(fs, n, bytes), n, Some(Tally(0, fs.known.Keys)), Some(Tally(0, fs.known.Keys)),
              1, FileBlocks(|bytes| - |chunk|));
    }
  }

  lemma FileBlocksStep(size: nat, chunk: nat)
    requires 0 < size && chunk == if size <= BLOCK_SIZE then size else BLOCK_SIZE
    ensures FileBlocks(size) == 1 + FileBlocks(size - chunk)
  {
  }

  lemma Idle(fs: Fs, n: nat)
    requires Good(fs) && n in fs.nodes
    ensures Outcome(fs, Some(fs), n, Some(Tally(0, fs.known.Keys)), 0)
  {
    hide Good, Room, Narrow, Laid;
    NodeRoom(fs, n);
  }

  lemma OutcomeGood(fs: Fs, g: Fs, cur: nat, t: Option<Tally>, entries: nat)
    requires cur in fs.nodes && Outcome(fs, Some(g), cur, t, entries)
    ensures t.Some? && Good(g) && g.known.Keys == t.value.known && g.ninos == fs.ninos
    ensures forall m :: m in fs.nodes ==> m in g.nodes && g.nodes[m].kind == fs.nodes[m].kind
    ensures g.nodes[cur].blocks == fs.nodes[cur].blocks + entries
  {
    hide Good, Room;
  }

  // ---- whole trees ----

  /** A step that fills a new inode, seen from an inode that was there before. */
  lemma Filled(fs: Fs, r: Option<Fs>, s: Option<Fs>, cur: nat, n: nat, t: Option<Tally>, u: Option<Tally>, k: nat)
    requires Good(fs) && cur in fs.nodes && n !in fs.nodes && Outcome(fs, r, cur, t, 0) && (r.None? ==> s.None?)
    requires r.Some? ==> n in r.value.nodes && r.value.nodes[n].blocks == 0 && Outcome(r.value, s, n, u, k)
    requires s.Some? && n in s.value.nodes && s.value.nodes[n].kind.File? ==> Laid(s.value, n)
    ensures Outcome(fs, s, cur,
                    if u.Some? && k > MAX_BLOCKS then None
                    else Plus(t, Plus(u, if u.Some? then Some(Tally(Room(k), u.value.known)) else None)), 0)
  {
    hide Good, Narrow, Laid;
    NodeRoom(fs, cur);
  }

  lemma NewFileFits(fs: Fs, cur: nat, id: nat, bytes: seq<byte>)
    requires Good(fs) && cur in fs.nodes
    ensures Outcome(fs, FileOf(fs, id, bytes), cur, TreeTally(fs.known.Keys, Plain(id, bytes)), 0)
    ensures FileOf(fs, id, bytes).Some? ==> AddFile(fs, id, bytes).value.1 in FileOf(fs, id, bytes).value.nodes
  {
    hide Good, AddNode, AddBytes, Outcome, Room;
    if id in fs.known {
      Idle(fs, cur);
      KnownThere(fs, id);
    } else {
      NodeFits(fs, cur, id, File);
      var r, s := AddNode(fs, id, File), FileOf(fs, id, bytes);
      var known := fs.known.Keys + {id};
      if r.Some? {
        OutcomeGood(fs, r.value, cur, Some(Tally(1, known)), 0);
        BytesFit(r.value, fs.next, bytes);
        if s.Some? {
          OutcomeGood(r.value, s.value, fs.next, Some(Tally(0, known)), FileBlocks(|bytes|));
          NewFileLaid(fs, id, bytes);
        }
      }
      GoodNext(fs);
      Filled(fs, r, s, cur, fs.next, Some(Tally(1, known)), Some(Tally(0, known)), FileBlocks(|bytes|));
    }
  }

  /** open_file lays a new file out in order. */
  lemma {:induction false} BytesLaid(fs: Fs, n: nat, bytes: seq<byte>)
    requires Good(fs) && Laid(fs, n) && AddBytes(fs, n, bytes).Some?
    requires fs.nodes[n].size == BLOCK_SIZE * fs.nodes[n].blocks && fs.next == n + 1 + Room(fs.nodes[n].blocks)
    ensures Laid(AddBytes(fs, n, bytes).value, n)
    decreases |bytes|
  {
    hide Good, AddBlock, Pad, Blocks, Room, NewPointers;
    if bytes != [] {
      var chunk := Chunk(bytes);
      var f := AddBlock(fs, n, |chunk|, Pad(chunk)).value;
      AddBlockFits(fs, n, |chunk|, Pad(chunk));
      AddBlockGood(fs, n, |chunk|, Pad(chunk));
      RoomStep(fs.nodes[n].blocks);
      BlocksLength(fs.index, fs.nodes[n]);
      BlocksLength(f.index, f.nodes[n]);
      IndirectAt(fs, n, |chunk|, Pad(chunk));
      LaidOneMore(fs, f, n, |chunk|);
      var rest := bytes[|chunk|..];
      if rest != [] {
        BytesLaid(f, n, rest);
      }
    }
  }

  /** The indirect block is taken right after the block that needs it. */
  lemma IndirectAt(fs: Fs, n: nat, size: nat, bytes: seq<byte>)
    requires Good(fs) && n in fs.nodes && |fs.nodes[n].direct| == DIRECT && AddBlock(fs, n, size, bytes).Some?
    ensures var g := AddBlock(fs, n, size, bytes).value;
            && n in g.nodes && g.nodes[n].blocks == fs.nodes[n].blocks + 1
            && (fs.nodes[n].blocks >= DIRECT ==>
                  g.nodes[n].indirect == if fs.nodes[n].blocks == DIRECT then fs.next + 1 else fs.nodes[n].indirect)
  {
    hide Good, Lookup, SetSlot, Slot, Pointers;
    NoIndirect(fs, n);
    var f := Take(fs, Data(n, fs.nodes[n].blocks)).value.(disk := fs.disk[fs.next := bytes]);
    PointerNumber(f, fs.nodes[n].indirect, Single(n));
    SameNodes(f, fs.nodes[n].dbIndirect, Double(n));
    if Pointers(f, fs.nodes[n].dbIndirect, Double(n)).Some? {
      var (h, l2) := Pointers(f, fs.nodes[n].dbIndirect, Double(n)).value;
      var q := if fs.nodes[n].blocks >= SINGLE then (fs.nodes[n].blocks - SINGLE) / ENTRIES else 0;
      SameNodes(h, Slot(h.index, l2, q), Leaf(n, q));
    }
  }

  lemma NoIndirect(fs: Fs, n: nat)
    requires Good(fs) && n in fs.nodes
    ensures fs.nodes[n].blocks <= DIRECT ==> fs.nodes[n].indirect == 0
    ensures fs.nodes[n].blocks > DIRECT ==> fs.nodes[n].indirect != 0
  {
    ZeroUnused(fs);
    assert Mapped(fs, n, fs.nodes[n]);
  }

  lemma PointerNumber(f: Fs, b: nat, u: Use)
    ensures Pointers(f, b, u).Some? ==> Pointers(f, b, u).value.1 == if b == 0 then f.next else b
    ensures Pointers(f, b, u).Some? ==> Pointers(f, b, u).value.0.nodes == f.nodes
  {
  }

  lemma SameNodes(f: Fs, b: nat, u: Use)
    ensures Pointers(f, b, u).Some? ==> Pointers(f, b, u).value.0.nodes == f.nodes
  {
  }

  lemma LaidOneMore(fs: Fs, f: Fs, n: nat, size: nat)
    requires Laid(fs, n) && n in f.nodes && f.nodes[n].size == fs.nodes[n].size + size && 0 < size <= BLOCK_SIZE
    requires fs.nodes[n].size == BLOCK_SIZE * fs.nodes[n].blocks && fs.next == n + 1 + Room(fs.nodes[n].blocks)
    requires |Blocks(fs.index, fs.nodes[n])| == fs.nodes[n].blocks
    requires Blocks(f.index, f.nodes[n]) == Blocks(fs.index, fs.nodes[n]) + [fs.next]
    requires f.nodes[n].blocks == fs.nodes[n].blocks + 1
    requires fs.nodes[n].blocks >= DIRECT ==>
      f.nodes[n].indirect == if fs.nodes[n].blocks == DIRECT then fs.next + 1 else fs.nodes[n].indirect
    ensures Laid(f, n)
  {
    hide Blocks, Room;
  }

  lemma NewFileLaid(fs: Fs, id: nat, bytes: seq<byte>)
    requires Good(fs) && id !in fs.known && AddFile(fs, id, bytes).Some?
    ensures Laid(AddFile(fs, id, bytes).value.0, fs.next)
  {
    hide Good, Laid, AddBytes;
    var f := AddNode(fs, id, File).value;
    AddNodeGood(fs, id, File);
    BlankLaid(f, fs.next, File);
    assert Room(0) == 0;
    BytesLaid(f, fs.next, bytes);
  }

  /** The state after making the inode of a host file. */
  function FileOf(fs: Fs, id: nat, bytes: seq<byte>): Option<Fs> {
    match AddFile(fs, id, bytes)
    case None => None
    case Some((f, _)) => Some(f)
  }

  function TargetOf(fs: Fs, id: nat, target: seq<byte>): Option<Fs> {
    match AddTarget(fs, id, target)
    case None => None
    case Some((f, _)) => Some(f)
  }

  lemma TargetFits(fs: Fs, cur: nat, id: nat, target: seq<byte>)
    requires Good(fs) && cur in fs.nodes
    ensures Outcome(fs, TargetOf(fs, id, target), cur, TreeTally(fs.known.Keys, Symlink(id, target)), 0)
    ensures TargetOf(fs, id, target).Some? ==> fs.next in TargetOf(fs, id, target).value.nodes
  {
    hide Good, AddNode, AddBlock, Pad, Outcome;
    NodeFits(fs, cur, id, Link);
    GoodNext(fs);
    var r, s := AddNode(fs, id, Link), TargetOf(fs, id, target);
    var known := fs.known.Keys + {id};
    if |target| >= BLOCK_SIZE {
      Refused(fs, cur, 0);
    } else {
      if r.Some? {
        OutcomeGood(fs, r.value, cur, Some(Tally(1, known)), 0);
        BlockFits(r.value, fs.next, |target|, Pad(target));
        if s.Some? {
          OutcomeGood(r.value, s.value, fs.next, Some(Tally(0, known)), 1);
        }
      }
      Filled(fs, r, s, cur, fs.next, Some(Tally(1, known)), Some(Tally(0, known)), 1);
    }
  }

  lemma Refused(fs: Fs, cur: nat, entries: nat)
    requires cur in fs.nodes
    ensures Outcome(fs, None, cur, None, entries)
  {
  }

  /** A new inode, or none, and then an entry for it. */
  lemma Entered(fs: Fs, r: Option<Fs>, s: Option<Fs>, cur: nat, t: Option<Tally>, ino: nat, name: seq<byte>)
    requires Good(fs) && cur in fs.nodes && fs.nodes[cur].kind.Dir? && |name| <= NAME_MAX && Outcome(fs, r, cur, t, 0)
    requires s == if r.Some? then AddEntry(r.value, cur, ino, name) else None
    requires r.Some? ==> ino in r.value.nodes
    ensures Outcome(fs, s, cur, t, 1)
  {
    hide Good, AddEntry, Outcome;
    if r.Some? {
      OutcomeGood(fs, r.value, cur, t, 0);
      EntryFits(r.value, cur, ino, name);
      Chained(fs, r, s, cur, t, Some(Tally(0, r.value.known.Keys)), 0, 1);
      assert Plus(t, Some(Tally(0, r.value.known.Keys))) == t;
    } else {
      Chained(fs, r, s, cur, t, Some(Tally(0, if t.Some? then t.value.known else {})), 0, 1);
      assert Plus(t, Some(Tally(0, if t.Some? then t.value.known else {}))) == t;
    }
  }

  lemma KnownThere(fs: Fs, id: nat)
    requires Good(fs) && id in fs.known
    ensures fs.known[id] in fs.nodes
  {
    hide Mapped, Reached;
  }

  /** The state after making a folder with its items, before it is entered. */
  function FolderOf(fs: Fs, cur: nat, id: nat, items: Items): Option<Fs> {
    if id in fs.known then None else
    match AddNode(fs, id, Dir)
    case None => None
    case Some(f) => OpenDir(f, fs.next, cur, items)
  }

  lemma {:induction false} TreeFits(fs: Fs, cur: nat, name: seq<byte>, tree: Tree)
    requires Good(fs) && cur in fs.nodes && fs.nodes[cur].kind.Dir? && |name| <= NAME_MAX
    ensures Outcome(fs, AddTree(fs, cur, name, tree), cur, TreeTally(fs.known.Keys, tree),
      if tree.Special? then 0 else 1)
    decreases tree, 4
  {
    hide Good, Outcome, AddEntry, AddFile, AddTarget, AddNode, OpenDir, TreeTally;
    var t, s := TreeTally(fs.known.Keys, tree), AddTree(fs, cur, name, tree);
    match tree
    case Special =>
      Idle(fs, cur);
      SpecialTally(fs.known.Keys);
    case Plain(id, bytes) =>
      NewFileFits(fs, cur, id, bytes);
      Entered(fs, FileOf(fs, id, bytes), s, cur, t,
        if AddFile(fs, id, bytes).Some? then AddFile(fs, id, bytes).value.1 else 0, name);
    case Symlink(id, target) =>
      TargetFits(fs, cur, id, target);
      TargetNext(fs, id, target);
      Entered(fs, TargetOf(fs, id, target), s, cur, t, fs.next, name);
    case Folder(id, items) =>
      FolderFits(fs, cur, id, items);
      Entered(fs, FolderOf(fs, cur, id, items), s, cur, t, fs.next, name);
  }

  lemma TargetNext(fs: Fs, id: nat, target: seq<byte>)
    ensures AddTarget(fs, id, target).Some? ==> AddTarget(fs, id, target).value.1 == fs.next
  {
  }

  lemma SpecialTally(known: set<nat>)
    ensures TreeTally(known, Special) == Some(Tally(0, known))
  {
  }

  lemma {:induction false} FolderFits(fs: Fs, cur: nat, id: nat, items: Items)
    requires Good(fs) && cur in fs.nodes && fs.nodes[cur].kind.Dir?
    ensures Outcome(fs, FolderOf(fs, cur, id, items), cur, TreeTally(fs.known.Keys, Folder(id, items)), 0)
    ensures FolderOf(fs, cur, id, items).Some? ==> fs.next in FolderOf(fs, cur, id, items).value.nodes
    decreases items, 3
  {
    hide Good, AddNode, OpenDir, Outcome, ItemsTally, Room;
    if id in fs.known {
      Refused(fs, cur, 0);
    } else {
      NodeFits(fs, cur, id, Dir);
      GoodNext(fs);
      var r, s := AddNode(fs, id, Dir), FolderOf(fs, cur, id, items);
      var known := fs.known.Keys + {id};
      var u, k := ItemsTally(known, items), 2 + Shown(items);
      if r.Some? {
        OutcomeGood(fs, r.value, cur, Some(Tally(1, known)), 0);
        DirFits(r.value, fs.next, cur, items);
        if s.Some? {
          OutcomeGood(r.value, s.value, fs.next, u, k);
        }
      }
      Filled(fs, r, s, cur, fs.next, Some(Tally(1, known)), u, k);
      FolderTally(fs.known.Keys, id, items);
    }
  }

  lemma FolderTally(known: set<nat>, id: nat, items: Items)
    requires id !in known
    ensures var u, k := ItemsTally(known + {id}, items), 2 + Shown(items);
            TreeTally(known, Folder(id, items))
            == if u.Some? && k > MAX_BLOCKS then None
               else Plus(Some(Tally(1, known + {id})),
                 Plus(u, if u.Some? then Some(Tally(Room(k), u.value.known)) else None))
  {
    hide ItemsTally, Room, Shown;
  }

  /** open_dir on an empty directory takes a block for each visible entry and two for the dots. */
  lemma {:induction false} DirFits(fs: Fs, cur: nat, parent: nat, items: Items)
    requires Good(fs) && cur in fs.nodes && fs.nodes[cur].kind.Dir? && parent in fs.nodes
    ensures Outcome(fs, OpenDir(fs, cur, parent, items), cur, ItemsTally(fs.known.Keys, items), 2 + Shown(items))
    decreases items, 2
  {
    hide Good, AddEntry, Walk, Outcome, ItemsTally;
    var t, none := ItemsTally(fs.known.Keys, items), Some(Tally(0, fs.known.Keys));
    var s := OpenDir(fs, cur, parent, items);
    EntryFits(fs, cur, cur, [DOT]);
    var r := AddEntry(fs, cur, cur, [DOT]);
    if r.Some? {
      OutcomeGood(fs, r.value, cur, none, 1);
      EntryFits(r.value, cur, parent, [DOT, DOT]);
      var q := AddEntry(r.value, cur, parent, [DOT, DOT]);
      if q.Some? {
        OutcomeGood(r.value, q.value, cur, none, 1);
        WalkFits(q.value, cur, items);
      }
      Chained(r.value, q, s, cur, none, t, 1, Shown(items));
    }
    Chained(fs, r, s, cur, none, Plus(none, t), 1, 1 + Shown(items));
    assert Plus(none, Plus(none, t)) == t;
  }

  lemma {:induction false} WalkFits(fs: Fs, cur: nat, items: Items)
    requires Good(fs) && cur in fs.nodes && fs.nodes[cur].kind.Dir?
    ensures Outcome(fs, Walk(fs, cur, items), cur, ItemsTally(fs.known.Keys, items), Shown(items))
    decreases items, 1
  {
    hide Good, Outcome, AddTree, TreeTally;
    match items
    case Nil => Idle(fs, cur);
    case Item(name, tree, rest) =>
      if Hidden(name) {
        WalkFits(fs, cur, rest);
      } else if |name| > NAME_MAX {
        Refused(fs, cur, Shown(items));
      } else {
        TreeFits(fs, cur, name, tree);
        var t, r := TreeTally(fs.known.Keys, tree), AddTree(fs, cur, name, tree);
        var e := if tree.Special? then 0 else 1;
        if r.Some? {
          OutcomeGood(fs, r.value, cur, t, e);
          WalkFits(r.value, cur, rest);
        }
        Chained(fs, r, Walk(fs, cur, items), cur, t, if t.Some? then ItemsTally(t.value.known, rest) else None, e,
          Shown(rest));
      }
  }

  // ---- the image ----

  /** The image is built exactly when its file has room for more than superblock and bitmap, the host tree
    * is within the limits, and its blocks fit; it then takes those blocks and no more.
    */
  lemma BuildFits(size: nat, items: Items)
    ensures var ninos, t := ImageBlocks(size), DirTally({0}, items);
            && (Build(size, items).Some?
                <==> FirstFree(ninos) < ninos && t.Some? && FirstFree(ninos) + t.value.cost <= ninos)
            && (Build(size, items).Some? ==>
                  Build(size, items).value.ninos == ninos
                  && Build(size, items).value.next == FirstFree(ninos) + t.value.cost)
  {
    hide Good, OpenDir, ItemsTally, Entries, Narrow;
    if Create(size).Some? {
      CreateGood(size);
      var fs := Create(size).value;
      assert fs.known.Keys == {0};
      DirFits(fs, ROOT, ROOT, items);
    }
  }

  /** The invariant of a built image, whatever the names; and that its numbers fit their fields. */
  lemma BuildNarrow(size: nat, items: Items)
    requires Build(size, items).Some?
    ensures Good(Build(size, items).value) && Narrow(Build(size, items).value)
  {
    hide Good, OpenDir, ItemsTally, Entries, Narrow, KeepsLaid;
    CreateGood(size);
    var fs := Create(size).value;
    CreateNarrow(size);
    DirFits(fs, ROOT, ROOT, items);
  }

  /** In a built image every file is laid out in order. */
  lemma BuildLaid(size: nat, items: Items, n: nat)
    requires Build(size, items).Some?
    ensures var g := Build(size, items).value; n in g.nodes && g.nodes[n].kind.File? ==> Laid(g, n)
  {
    hide Good, OpenDir, ItemsTally, Entries, Narrow, Laid;
    CreateGood(size);
    var fs := Create(size).value;
    DirFits(fs, ROOT, ROOT, items);
  }

  lemma CreateNarrow(size: nat)
    requires Create(size).Some?
    ensures Narrow(Create(size).value)
  {
  }
}
