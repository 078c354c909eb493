/** The image as bytes: how inodes, pointer blocks, bitmap and superblock lie in their blocks (lab8/tools/mksfs.c,
  * lab8/kern/fs/sfs/sfs.h), and the round trip through those bytes. Numbers are little-endian.
  */
module SfsBytes {
  import opened Logarithms
  import opened SfsBlocks
  import opened SfsNodes
  import opened SfsEntries
  import opened SfsTree
  import opened SfsRoundTrip
  import opened SfsImage
  import opened SfsRoom

  const MAGIC: nat := 0x2f8d_be2a
  const INODE_WORDS: nat := 17
  const INFO: string := "simple file system"

  // ---- words ----

  function WordBytes(words: seq<nat>): (s: seq<byte>)
    ensures |s| == 4 * |words|
  {
    seq(4 * |words|, i requires 0 <= i < 4 * |words| => Le32(words[i / 4])[i % 4])
  }

  function WordAt(s: seq<byte>, k: nat): nat
    requires 4 * k + 4 <= |s|
  {
    FromLe32(s[4 * k..4 * k + 4])
  }

  lemma WordBack(words: seq<nat>, rest: seq<byte>, k: nat)
    requires k < |words| && words[k] < COUNTS
    ensures WordAt(WordBytes(words) + rest, k) == words[k]
  {
    hide Le32, FromLe32;
    var s := WordBytes(words) + rest;
    assert s[4 * k..4 * k + 4] == Le32(words[k]) by {
      forall j | 0 <= j < 4 ensures s[4 * k + j] == Le32(words[k])[j] {
        assert (4 * k + j) / 4 == k && (4 * k + j) % 4 == j;
      }
    }
    LittleEndian(words[k]);
  }

  // ---- inodes ----

  function Code(kind: Kind): nat {
    match kind
    case File => 1
    case Dir => 2
    case Link => 3
  }

  function KindOf(code: nat): Kind {
    if code == 2 then Dir else if code == 3 then Link else File
  }

  /** struct inode: size, type and nlinks in one word, blocks, twelve direct pointers, two indirect ones. */
  function InodeWords(node: Inode): (s: seq<nat>)
    ensures |s| == 5 + |node.direct|
  {
    [node.size, Code(node.kind) + LINKS * node.nlinks, node.blocks] + node.direct + [node.indirect, node.dbIndirect]
  }

  /** type and nlinks, two bytes each, lie as the word made of them does. */
  lemma HalfWords(code: nat, nlinks: nat)
    requires code < LINKS && nlinks < LINKS
    ensures Le32(code + LINKS * nlinks) == [code % 256, code / 256, nlinks % 256, nlinks / 256]
  {
    var v := code + LINKS * nlinks;
    assert v % 256 == code % 256 && v / 256 == code / 256 + 256 * nlinks;
    assert v / 65536 == nlinks && v / 16777216 == nlinks / 256;
    assert v / 256 % 256 == code / 256;
  }

  function DecodeInode(s: seq<byte>): Inode
    requires |s| >= 4 * INODE_WORDS
  {
    Inode(KindOf(WordAt(s, 1) % LINKS), WordAt(s, 0), WordAt(s, 1) / LINKS, WordAt(s, 2),
          seq(DIRECT, i requires 0 <= i < DIRECT => WordAt(s, 3 + i)), WordAt(s, 15), WordAt(s, 16))
  }

  lemma InodeBack(node: Inode, rest: seq<byte>)
    requires NarrowNode(node) && node.blocks <= MAX_BLOCKS
    ensures |InodeWords(node)| == INODE_WORDS && DecodeInode(WordBytes(InodeWords(node)) + rest) == node
  {
    hide WordAt, WordBytes;
    var words := InodeWords(node);
    forall k | 0 <= k < INODE_WORDS ensures WordAt(WordBytes(words) + rest, k) == words[k] {
      WordBack(words, rest, k);
    }
    assert DecodeInode(WordBytes(words) + rest).direct == node.direct;
  }

  // ---- bitmap ----

  /** The number whose bits these are, the lowest first. */
  function Value(bits: seq<bool>): nat {
    if bits == [] then 0 else (if bits[0] then 1 else 0) + 2 * Value(bits[1..])
  }

  /** v & (1 << k) */
  predicate BitSet(v: nat, k: nat) {
    if k == 0 then v % 2 == 1 else BitSet(v / 2, k - 1)
  }

  lemma {:induction false} ValueBound(bits: seq<bool>)
    ensures Value(bits) < Pow2(|bits|)
  {
    if bits != [] {
      ValueBound(bits[1..]);
    }
  }

  lemma Halved(low: nat, rest: nat)
    requires low < 2
    ensures (low + 2 * rest) / 2 == rest && (low + 2 * rest) % 2 == low
  {
  }

  lemma {:induction false} ValueBit(bits: seq<bool>, k: nat)
    requires k < |bits|
    ensures BitSet(Value(bits), k) <==> bits[k]
  {
    Halved(if bits[0] then 1 else 0, Value(bits[1..]));
    if k > 0 {
      ValueBit(bits[1..], k - 1);
    }
  }

  /** A number above another: the bits of each are where they were, the upper ones m places up. */
  lemma {:induction false} BitAbove(low: nat, high: nat, m: nat, k: nat)
    requires low < Pow2(m)
    ensures BitSet(low + Pow2(m) * high, k) <==> if k < m then BitSet(low, k) else BitSet(high, k - m)
  {
    if m > 0 {
      var rest := Pow2(m - 1) * high;
      assert Pow2(m) * high == 2 * rest;
      assert (low + 2 * rest) / 2 == low / 2 + rest && (low + 2 * rest) % 2 == low % 2;
      if k > 0 {
        BitAbove(low / 2, high, m - 1, k - 1);
      }
    }
  }

  lemma Powers()
    ensures Pow2(8) == 256
  {
    assert Pow2(4) == 16;
  }

  /** The setting of bits j / 32, j % 32 in an array of words, eight bits to a byte. */
  function BitBytes(bits: seq<bool>): (s: seq<byte>)
    requires |bits| % 8 == 0
    ensures |s| == |bits| / 8
  {
    seq(|bits| / 8, i requires 0 <= i < |bits| / 8 => ByteOf(bits[8 * i..8 * i + 8]))
  }

  function ByteOf(bits: seq<bool>): byte
    requires |bits| == 8
  {
    ValueBound(bits);
    Powers();
    Value(bits)
  }

  /** bitmap_test: the bit j % 32 of word j / 32. */
  predicate BitAt(s: seq<byte>, j: nat)
    requires |s| % 4 == 0 && j < 8 * |s|
  {
    BitSet(WordAt(s, j / 32), j % 32)
  }

  lemma WordBit(s: seq<byte>, q: nat, r: nat)
    requires |s| == 4 && q < 4 && r < 8
    ensures BitSet(FromLe32(s), 8 * q + r) <==> BitSet(s[q], r)
  {
    hide BitSet, Pow2;
    Powers();
    var k := 8 * q + r;
    var h3: nat := s[3];
    var h2: nat := s[2] + 256 * h3;
    var h1: nat := s[1] + 256 * h2;
    assert FromLe32(s) == s[0] + 256 * h1;
    BitAbove(s[0], h1, 8, k);
    if q >= 1 {
      BitAbove(s[1], h2, 8, k - 8);
    }
    if q >= 2 {
      BitAbove(s[2], h3, 8, k - 16);
    }
  }

  lemma BitOfWord(bits: seq<bool>, w: nat, q: nat, r: nat)
    requires |bits| % 8 == 0 && 32 * w + 32 <= |bits| && q < 4 && r < 8
    ensures BitSet(WordAt(BitBytes(bits), w), 8 * q + r) <==> bits[32 * w + 8 * q + r]
  {
    hide BitSet, FromLe32, ByteOf, BitBytes;
    var word := BitBytes(bits)[4 * w..4 * w + 4];
    WordBit(word, q, r);
    ByteThere(bits, 4 * w + q);
    ByteBit(bits[8 * (4 * w + q)..8 * (4 * w + q) + 8], r);
  }

  /** What the kernel's bitmap_test reads is the bit that was set. */
  lemma BitBack(bits: seq<bool>, j: nat)
    requires |bits| % 32 == 0 && j < |bits|
    ensures BitAt(BitBytes(bits), j) <==> bits[j]
  {
    hide BitSet, WordAt, BitBytes;
    var w, k := j / 32, j % 32;
    var q, r := k / 8, k % 8;
    assert k == 8 * q + r && j == 32 * w + k;
    BitOfWord(bits, w, q, r);
  }

  lemma ByteThere(bits: seq<bool>, i: nat)
    requires |bits| % 8 == 0 && 8 * i + 8 <= |bits|
    ensures BitBytes(bits)[i] == ByteOf(bits[8 * i..8 * i + 8])
  {
    hide ByteOf;
  }

  lemma ByteBit(bits: seq<bool>, k: nat)
    requires |bits| == 8 && k < 8
    ensures BitSet(ByteOf(bits), k) <==> bits[k]
  {
    ValueBit(bits, k);
  }

  // ---- the whole image ----

  /** The superblock's text; what follows its terminator in the 32 bytes is whatever was in memory. */
  ghost predicate InfoAt(s: seq<byte>)
    requires |s| == BLOCK_SIZE
  {
    && (forall i :: 0 <= i < |INFO| ==> s[12 + i] == INFO[i] as int) && s[12 + |INFO|] == 0
    && forall i :: 44 <= i < BLOCK_SIZE ==> s[i] == 0
  }

  /** The bytes that write_block puts on disk for a block; one never written holds anything. */
  ghost predicate Stored(block: Block, s: seq<byte>) {
    && |s| == BLOCK_SIZE
    && match block
       case Super(blocks, unused) => unused >= 0 && s[..12] == WordBytes([MAGIC, blocks, unused]) && InfoAt(s)
       case Bits(bits) => |bits| == MAP_BITS && s == BitBytes(bits)
       case Raw(bytes) => s == bytes
       case Words(words) => s == WordBytes(words)
       case Record(node) => |node.direct| == DIRECT && s == Pad(WordBytes(InodeWords(node)))
       case Unwritten => true
  }

  /** The image file may be longer than the image. */
  ghost predicate OnDisk(img: Image, disk: seq<seq<byte>>) {
    && |img| <= |disk| && (forall b :: 0 <= b < |disk| ==> |disk[b]| == BLOCK_SIZE)
    && forall b :: 0 <= b < |img| ==> Stored(img[b], disk[b])
  }

  function DecodeWords(s: seq<byte>): seq<nat>
    requires |s| == BLOCK_SIZE
  {
    seq(ENTRIES, k requires 0 <= k < ENTRIES => WordAt(s, k))
  }

  /** A reader of the bytes alone: any block can be taken for an inode, for a pointer block, or for data. */
  function MountBytes(disk: seq<seq<byte>>): Fs
    requires forall b :: 0 <= b < |disk| ==> |disk[b]| == BLOCK_SIZE
  {
    Fs(0, 0, 0, map b: nat | b < |disk| :: disk[b], map b: nat | b < |disk| :: DecodeInode(disk[b]),
       map b: nat | b < |disk| :: DecodeWords(disk[b]), map[], map[], [])
  }

  lemma RecordBack(node: Inode, s: seq<byte>)
    requires Stored(Record(node), s) && NarrowNode(node) && node.blocks <= MAX_BLOCKS
    ensures DecodeInode(s) == node
  {
    hide DecodeInode, WordBytes, InodeWords;
    InodeBack(node, Fill(BLOCK_SIZE - 4 * INODE_WORDS));
  }

  lemma WordsBack(words: seq<nat>, s: seq<byte>)
    requires Stored(Words(words), s) && |words| == ENTRIES && forall k :: 0 <= k < ENTRIES ==> words[k] < COUNTS
    ensures DecodeWords(s) == words
  {
    hide WordAt, WordBytes;
    assert WordBytes(words) + [] == s;
    forall k | 0 <= k < ENTRIES ensures WordAt(s, k) == words[k] {
      WordBack(words, [], k);
    }
  }

  /** What each block of the builder decodes to is what the builder put there. */
  lemma BlockBack(fs: Fs, img: Image, disk: seq<seq<byte>>, b: nat)
    requires Good(fs) && Narrow(fs) && Closed(fs, img) && OnDisk(img, disk)
    ensures b in fs.nodes ==> b < |disk| && DecodeInode(disk[b]) == fs.nodes[b]
    ensures b in fs.index ==> b < |disk| && DecodeWords(disk[b]) == fs.index[b]
    ensures b in fs.disk ==> b < |disk| && disk[b] == fs.disk[b]
  {
    hide Good, Written, Stored, DecodeInode, DecodeWords;
    WrittenHere(fs, b);
    if b in fs.nodes {
      GoodSorted(fs, b);
      NodeBound(fs, b);
      RecordBack(fs.nodes[b], disk[b]);
    } else if b in fs.index {
      IndexBound(fs, b);
      WordsBack(fs.index[b], disk[b]);
    } else if b in fs.disk {
      RawBack(fs.disk[b], disk[b]);
    }
  }

  lemma RawBack(bytes: seq<byte>, s: seq<byte>)
    requires Stored(Raw(bytes), s)
    ensures s == bytes
  {
  }

  lemma WrittenHere(fs: Fs, b: nat)
    requires Good(fs)
    ensures b in fs.nodes ==> b < fs.ninos && Written(fs, b) == Record(fs.nodes[b])
    ensures b in fs.index ==> b < fs.ninos && Written(fs, b) == Words(fs.index[b]) && b !in fs.nodes
    ensures b in fs.disk ==> b < fs.ninos && Written(fs, b) == Raw(fs.disk[b]) && b !in fs.nodes && b !in fs.index
  {
    hide Good;
    UsesApart(fs);
  }

  lemma NodeBound(fs: Fs, n: nat)
    requires Good(fs) && Narrow(fs) && n in fs.nodes
    ensures NarrowNode(fs.nodes[n]) && fs.nodes[n].blocks <= MAX_BLOCKS
  {
    assert Mapped(fs, n, fs.nodes[n]);
  }

  lemma IndexBound(fs: Fs, b: nat)
    requires Good(fs) && Narrow(fs) && b in fs.index
    ensures |fs.index[b]| == ENTRIES && forall k :: 0 <= k < ENTRIES ==> fs.index[b][k] < COUNTS
  {
    hide Mapped, Reached;
  }

  lemma BytesExtend(fs: Fs, img: Image, disk: seq<seq<byte>>)
    requires Good(fs) && Narrow(fs) && Closed(fs, img) && OnDisk(img, disk)
    ensures forall b :: 0 <= b < |disk| ==> |disk[b]| == BLOCK_SIZE
    ensures Extends(fs, MountBytes(disk))
  {
    hide Good, Narrow, Closed, DecodeInode, DecodeWords, Stored;
    forall b: nat
      ensures b in fs.nodes ==> b < |disk| && DecodeInode(disk[b]) == fs.nodes[b]
      ensures b in fs.index ==> b < |disk| && DecodeWords(disk[b]) == fs.index[b]
      ensures b in fs.disk ==> b < |disk| && disk[b] == fs.disk[b]
    {
      BlockBack(fs, img, disk, b);
    }
  }

  /** The round trip through the bytes: reading them from block 1 gives the host directory back. */
  lemma ByteRoundTrip(size: nat, items: Items, files: map<nat, seq<byte>>, img: Image, disk: seq<seq<byte>>, depth: nat)
    requires Build(size, items).Some? && Closed(Build(size, items).value, img) && OnDisk(img, disk)
    requires AgreesItems(items, files) && 0 !in files && depth > HeightItems(items)
    ensures var known := Build(size, items).value.known;
            && ReadTree(MountBytes(disk), ROOT, depth).Some?
            && Matches(Folder(0, items), ReadTree(MountBytes(disk), ROOT, depth).value, known)
            && forall id, id' ::
              id in files && id' in files && id in known && id' in known && known[id] == known[id'] ==> id == id'
  {
    hide Good, Narrow, Build, Closed, OnDisk, MountBytes, ReadTree, Extends;
    BuildNarrow(size, items);
    BytesExtend(Build(size, items).value, img, disk);
    ReaderGets(size, items, files, MountBytes(disk), depth);
  }

  // ---- mounting ----

  /** Bit j of the bitmap, which starts at block 2. */
  predicate FreeAt(disk: seq<seq<byte>>, j: nat)
    requires 2 + j / MAP_BITS < |disk| && |disk[2 + j / MAP_BITS]| == BLOCK_SIZE
  {
    BitAt(disk[2 + j / MAP_BITS], j % MAP_BITS)
  }

  /** The loop of sfs_do_mount that counts the bits. */
  function FreeBits(disk: seq<seq<byte>>, n: nat): nat
    requires n <= MAP_BITS * (|disk| - 2) && forall b :: 0 <= b < |disk| ==> |disk[b]| == BLOCK_SIZE
  {
    if n == 0 then 0 else FreeBits(disk, n - 1) + (if FreeAt(disk, n - 1) then 1 else 0)
  }

  lemma FreeBack(fs: Fs, img: Image, disk: seq<seq<byte>>, j: nat)
    requires Good(fs) && Closed(fs, img) && OnDisk(img, disk) && j < MAP_BITS * (FirstFree(fs.ninos) - 2)
    ensures 2 + j / MAP_BITS < FirstFree(fs.ninos) <= fs.ninos && (FreeAt(disk, j) <==> fs.next <= j < fs.ninos)
  {
    hide Mapped, Reached, Sorted, BitBytes, BitAt, BitmapBlock;
    var b := 2 + j / MAP_BITS;
    var bits := BitmapBlock(fs.ninos, fs.next, j / MAP_BITS);
    assert img[b] == Bits(bits);
    BitBack(bits, j % MAP_BITS);
    BitmapMarksFree(fs.ninos, fs.next, j);
  }

  lemma {:induction false} FreeCounted(fs: Fs, img: Image, disk: seq<seq<byte>>, n: nat)
    requires Good(fs) && Closed(fs, img) && OnDisk(img, disk) && n <= MAP_BITS * (FirstFree(fs.ninos) - 2)
    ensures FirstFree(fs.ninos) <= fs.ninos <= |disk| && FreeBits(disk, n) == Clip(n, fs.next, fs.ninos) - fs.next
  {
    hide Good, Closed, OnDisk, FreeAt, FirstFree;
    MountBounds(fs, img, disk);
    if n > 0 {
      FreeCounted(fs, img, disk, n - 1);
      FreeBack(fs, img, disk, n - 1);
    }
  }

  lemma MountBounds(fs: Fs, img: Image, disk: seq<seq<byte>>)
    requires Good(fs) && Closed(fs, img) && OnDisk(img, disk)
    ensures 3 <= FirstFree(fs.ninos) <= fs.next <= fs.ninos <= |disk| && fs.unused == fs.ninos - fs.next
    ensures fs.ninos <= MAP_BITS * (FirstFree(fs.ninos) - 2) && fs.ninos <= IMAGE_BLOCKS
    ensures forall b :: 0 <= b < |disk| ==> |disk[b]| == BLOCK_SIZE
  {
    hide Mapped, Reached, Sorted, Written, Stored;
  }

  /** sfs_do_mount accepts the image: the magic number is right, the device holds all its blocks, and the bits set
    * are as many as the superblock says, which is asserted there.
    */
  lemma MountAccepts(size: nat, items: Items, img: Image, disk: seq<seq<byte>>)
    requires Build(size, items).Some? && Closed(Build(size, items).value, img) && OnDisk(img, disk)
    ensures |disk| > 2 && (forall b :: 0 <= b < |disk| ==> |disk[b]| == BLOCK_SIZE)
    ensures WordAt(disk[0], 0) == MAGIC
    ensures var blocks := WordAt(disk[0], 1);
            var n := (blocks + MAP_BITS - 1) / MAP_BITS * MAP_BITS;
            blocks <= |disk| && n <= MAP_BITS * (|disk| - 2) && FreeBits(disk, n) == WordAt(disk[0], 2)
  {
    hide Good, Narrow, Build, OnDisk, WordAt, FreeBits;
    BuildNarrow(size, items);
    var fs := Build(size, items).value;
    MountBounds(fs, img, disk);
    SuperBack(fs, img, disk);
    FreeCounted(fs, img, disk, MAP_BITS * (FirstFree(fs.ninos) - 2));
  }

  lemma SuperBack(fs: Fs, img: Image, disk: seq<seq<byte>>)
    requires Good(fs) && Closed(fs, img) && OnDisk(img, disk)
    ensures |disk| > 0 && |disk[0]| == BLOCK_SIZE
    ensures WordAt(disk[0], 0) == MAGIC && WordAt(disk[0], 1) == fs.ninos && WordAt(disk[0], 2) == fs.unused
  {
    hide Good, WordAt, WordBytes, InfoAt;
    MountBounds(fs, img, disk);
    var words := [MAGIC, fs.ninos, fs.unused];
    assert img[0] == Super(fs.ninos, fs.unused);
    assert disk[0] == WordBytes(words) + disk[0][12..];
    WordBack(words, disk[0][12..], 0);
    WordBack(words, disk[0][12..], 1);
    WordBack(words, disk[0][12..], 2);
  }
}
