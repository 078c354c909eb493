/** Host trees that are copied without complaint and do not come back whole: one empty file with 65536 names in
  * three folders, whose link count is 0, and a file with a name of 253 bytes (lab8/tools/mksfs.c).
  */
module SfsLimits {
  import opened Options
  import opened SfsBlocks
  import opened SfsEntries
  import opened SfsTree
  import opened SfsRoundTrip
  import opened SfsImage
  import opened SfsLinks
  import opened SfsNames
  import opened SfsRoom
  import opened SfsSteps
  import opened SfsBytes
  import opened SfsReads

  const FILE: nat := 1
  const IMAGE_SIZE: nat := 80000 * BLOCK_SIZE

  /** The k-th of 32768 names of three visible characters. */
  function Letters(k: nat): (name: seq<byte>)
    requires k < 32768
    ensures IsName(name) && !Hidden(name)
  {
    [64 + k / 1024, 64 + k / 32 % 32, 64 + k % 32]
  }

  lemma LettersDiffer(j: nat, k: nat)
    requires j < 32768 && k < 32768 && Letters(j) == Letters(k)
    ensures j == k
  {
    LettersTell(j);
    LettersTell(k);
  }

  lemma LettersTell(k: nat)
    requires k < 32768
    ensures var s := Letters(k); k == 1024 * (s[0] as int - 64) + 32 * (s[1] as int - 64) + (s[2] as int - 64)
  {
  }

  ghost predicate Holds(items: Items, name: seq<byte>) {
    items.Item? && (items.name == name || Holds(items.rest, name))
  }

  /** As on a host filesystem, no folder holds a name twice. */
  ghost predicate OneEach(items: Items) {
    match items
    case Nil => true
    case Item(name, tree, rest) =>
      !Holds(rest, name) && (tree.Folder? ==> OneEach(tree.items)) && OneEach(rest)
  }

  lemma {:induction false} NamesOneEach(n: nat, k: nat)
    requires n <= k < 32768
    ensures !Holds(Names(n), Letters(k)) && OneEach(Names(n))
  {
    hide Letters;
    if n > 0 {
      NamesOneEach(n - 1, k);
      NamesOneEach(n - 1, n - 1);
      if Letters(n - 1) == Letters(k) {
        LettersDiffer(n - 1, k);
      }
    }
  }

  lemma ThreeOneEach()
    ensures OneEach(ThreeFolders())
  {
    hide Names;
    NamesOneEach(30000, 30000);
    NamesOneEach(5536, 5536);
    var c := Item([67], Folder(4, Names(5536)), Nil);
    assert OneEach(c);
    var b := Item([66], Folder(3, Names(30000)), c);
    assert Holds(c, [65]) == Holds(c, [66]) == false;
    assert [65][0] != [66][0];
    assert !Holds(b, [65]) && OneEach(b);
  }

  /** A folder's items: n names of the empty file. */
  function Names(n: nat): Items
    requires n <= 32768
  {
    if n == 0 then Nil else Item(Letters(n - 1), Plain(FILE, []), Names(n - 1))
  }

  function ThreeFolders(): Items {
    Item([65], Folder(2, Names(30000)), Item([66], Folder(3, Names(30000)), Item([67], Folder(4, Names(5536)), Nil)))
  }

  lemma {:induction false} NamesCounted(n: nat, known: set<nat>)
    requires n <= 32768
    ensures Shown(Names(n)) == n && TimesItems(Names(n), FILE) == n && AgreesItems(Names(n), map[FILE := []])
    ensures ItemsTally(known, Names(n))
            == Some(Tally(if n == 0 || FILE in known then 0 else 1, if n == 0 then known else known + {FILE}))
  {
    hide Room, Letters;
    if n > 0 {
      assert FileBlocks(0) == 0 && Room(0) == 0 by { NoRoom(); }
      NamesCounted(n - 1, known + {FILE});
      assert FILE in known ==> known + {FILE} == known;
      assert known + {FILE} + {FILE} == known + {FILE};
    }
  }

  lemma NoRoom()
    ensures Room(0) == 0
  {
  }

  /** A directory of one host filesystem. */
  ghost predicate RealHost(items: Items) {
    OneEach(items) && AgreesItems(items, map[FILE := []])
  }

  /** The image is built; the file has `names` entries, and its inode counts `links`. */
  ghost predicate CountsAs(size: nat, items: Items, names: nat, links: nat) {
    && Build(size, items).Some?
    && var g := Build(size, items).value;
    && FILE in g.known && g.known[FILE] in g.nodes
    && |NamesOf(g, g.known[FILE])| == names && g.nodes[g.known[FILE]].nlinks == links
  }

  /** The image of the three folders is built, and the file's inode counts no link at all, which sfs_load_inode
    * asserts of no inode.
    */
  lemma CountWraps()
    ensures RealHost(ThreeFolders()) && CountsAs(IMAGE_SIZE, ThreeFolders(), 65536, 0)
  {
    hide Build, Names, AgreesItems, ItemsTally, TimesItems, Shown, Room, NamesOf, OneEach, ThreeFolders;
    ThreeOneEach();
    ThreeTimes();
    BuildFits(IMAGE_SIZE, ThreeFolders());
    ThreeRooms();
    NamesAreHosts(IMAGE_SIZE, ThreeFolders(), map[FILE := []]);
    LinkCountsRight(IMAGE_SIZE, ThreeFolders(), map[FILE := []]);
  }

  lemma FolderTimes(name: byte, id: nat, n: nat, rest: Items)
    requires name != 0 && name != DOT && id != FILE && n <= 32768 && AgreesItems(rest, map[FILE := []])
    ensures var items := Item([name], Folder(id, Names(n)), rest);
            TimesItems(items, FILE) == n + TimesItems(rest, FILE) && AgreesItems(items, map[FILE := []])
  {
    hide Names;
    NamesCounted(n, {});
  }

  lemma ThreeTimes()
    ensures TimesItems(ThreeFolders(), FILE) == 65536 && AgreesItems(ThreeFolders(), map[FILE := []])
  {
    hide Names;
    var c := Item([67], Folder(4, Names(5536)), Nil);
    var b := Item([66], Folder(3, Names(30000)), c);
    FolderTimes(67, 4, 5536, Nil);
    hide AgreesItems, TimesItems;
    FolderTimes(66, 3, 30000, c);
    FolderTimes(65, 2, 30000, b);
    NoTimes();
  }

  lemma FolderRoom(known: set<nat>, id: nat, n: nat)
    requires id !in known && id != FILE && 0 < n <= 32766
    ensures TreeTally(known, Folder(id, Names(n)))
            == Some(Tally(1 + Room(2 + n) + (if FILE in known then 0 else 1), known + {id} + {FILE}))
  {
    hide Names, Room, ItemsTally, Shown, TreeTally, DirTally;
    NamesCounted(n, known + {id});
    FolderTally(known, id, Names(n));
  }

  lemma ThreeRooms()
    ensures DirTally({0}, ThreeFolders()).Some? && DirTally({0}, ThreeFolders()).value.cost == 65620
  {
    hide Names, TreeTally;
    FolderRoom({0}, 2, 30000);
    var k := {0} + {2} + {FILE};
    FolderRoom(k, 3, 30000);
    FolderRoom(k + {3} + {FILE}, 4, 5536);
    var c := Item([67], Folder(4, Names(5536)), Nil);
    assert ItemsTally(k + {3} + {FILE}, c).value.cost == 1 + Room(5538);
    var b := Item([66], Folder(3, Names(30000)), c);
    assert ItemsTally(k, b).value.cost == 1 + Room(30002) + 1 + Room(5538);
    assert Shown(c) == 1 && Shown(b) == 2 && Shown(ThreeFolders()) == 3;
  }

  // ---- a long name ----

  function LongName(): (name: seq<byte>)
    ensures |name| == 253 && IsName(name) && !Hidden(name)
  {
    seq(253, _ => 97)
  }

  function OneFile(): Items {
    Item(LongName(), Plain(FILE, []), Nil)
  }

  /** The image is built, and its reader finds the file under another name: the first 252 bytes. */
  lemma LongNameCut(img: Image)
    requires Build(IMAGE_SIZE, OneFile()).Some? ==> Closed(Build(IMAGE_SIZE, OneFile()).value, img)
    ensures Build(IMAGE_SIZE, OneFile()).Some?
    ensures var read := ReadTree(Mount(img), ROOT, 1);
            && read.Some? && read.value.Folder? && read.value.items.Item?
            && read.value.items.name == LongName()[..252] && !SameNames(OneFile(), read.value.items)
  {
    hide Build, LongName, Room, Closed, Mount, ReadTree, Shown, ItemsTally, TreeTally;
    OneFileFits();
    BuildFits(IMAGE_SIZE, OneFile());
    ImageRoundTrip(IMAGE_SIZE, OneFile(), map[FILE := []], img, 1);
    var known := Build(IMAGE_SIZE, OneFile()).value.known;
    NamesSurvive(OneFile(), ReadTree(Mount(img), ROOT, 1).value.items, known);
  }

  lemma OneFileFits()
    ensures DirTally({0}, OneFile()).Some? && DirTally({0}, OneFile()).value.cost == 4
  {
    hide LongName;
    assert Shown(OneFile()) == 1;
    assert FileBlocks(0) == 0;
    assert ItemsTally({0}, Nil).Some? && TreeTally({0}, Plain(FILE, [])) == Some(Tally(1, {0} + {FILE}));
  }

  // ---- a large image file ----

  const LARGE: nat := 0x1000_0000_0000

  /** A file of 2^44 bytes counts as one of no blocks: not even an empty directory goes into it. With 100 blocks
    * more it makes an image of 100 blocks.
    */
  lemma LargeFileWraps(items: Items)
    ensures Build(LARGE, items).None? && ImageBlocks(LARGE + 100 * BLOCK_SIZE) == 100
    ensures Build(LARGE + 100 * BLOCK_SIZE, Nil).Some? && Build(LARGE + 100 * BLOCK_SIZE, Nil).value.ninos == 100
  {
    hide Build, DirTally, Good;
    assert ImageBlocks(LARGE) == 0;
    BuildFits(LARGE, items);
    EmptyFits();
    BuildFits(LARGE + 100 * BLOCK_SIZE, Nil);
  }

  lemma EmptyFits()
    ensures DirTally({0}, Nil).Some? && DirTally({0}, Nil).value.cost == 2
  {
  }

  // ---- a file of fourteen blocks ----

  const FOURTEEN: nat := 14 * BLOCK_SIZE

  function ZeroFile(): Items {
    Item([90], Plain(FILE, Fill(FOURTEEN)), Nil)
  }

  /** The image is built and the builder has every byte of the file, but the kernel, asked for all of it at once,
    * gives something else.
    */
  lemma WholeReadFails(img: Image, disk: seq<seq<byte>>)
    requires Build(IMAGE_SIZE, ZeroFile()).Some? ==>
      Closed(Build(IMAGE_SIZE, ZeroFile()).value, img) && OnDisk(img, disk)
    ensures Build(IMAGE_SIZE, ZeroFile()).Some? && forall b :: 0 <= b < |disk| ==> |disk[b]| == BLOCK_SIZE
    ensures var g := Build(IMAGE_SIZE, ZeroFile()).value;
            && FILE in g.known && FileShown(g, g.known[FILE], Fill(FOURTEEN))
            && KernelRead(MountBytes(disk), g.nodes[g.known[FILE]], 0, FOURTEEN) != Got(Fill(FOURTEEN))
  {
    hide Build, Closed, MountBytes, OnDisk, KernelRead, Bytes, NamesOf, Fill, Good, Laid;
    ZeroFits();
    BuildFits(IMAGE_SIZE, ZeroFile());
    var g, files := Build(IMAGE_SIZE, ZeroFile()).value, map[FILE := Fill(FOURTEEN)];
    NamesAreHosts(IMAGE_SIZE, ZeroFile(), files);
    assert FileNames(g, FILE) == 1;
    BuiltFiles(IMAGE_SIZE, ZeroFile(), files);
    ImageReads(IMAGE_SIZE, ZeroFile(), img, disk);
    var n := g.known[FILE];
    BuildLaid(IMAGE_SIZE, ZeroFile(), n);
    BytesCount(g, n);
    AllZero(FOURTEEN);
    ZerosMisread(IMAGE_SIZE, ZeroFile(), img, disk, n);
  }

  lemma AllZero(k: nat)
    ensures forall x :: 0 <= x < k ==> Fill(k)[x] == 0
  {
  }

  lemma ZeroFits()
    ensures TimesItems(ZeroFile(), FILE) == 1 && AgreesItems(ZeroFile(), map[FILE := Fill(FOURTEEN)])
    ensures DirTally({0}, ZeroFile()).Some? && DirTally({0}, ZeroFile()).value.cost == 19
  {
    hide Fill;
    assert Shown(ZeroFile()) == 1 && FileBlocks(FOURTEEN) == 14 && Room(14) == 15 && Room(3) == 3;
    assert ItemsTally({0}, Nil).Some? && TreeTally({0}, Plain(FILE, Fill(FOURTEEN))) == Some(Tally(16, {0} + {FILE}));
  }
}
