/** The kernel's read of a part of a file (lab8/kern/fs/sfs/sfs_inode.c: sfs_io_nolock, sfs_bmap_load_nolock), on an
  * image that the builder made. Whole blocks in the middle are read at once, by consecutive block numbers from that
  * of the first of them on.
  */
module SfsReads {
  import opened Options
  import opened SfsBlocks
  import opened SfsNodes
  import opened SfsTree
  import opened SfsSteps
  import opened SfsImage
  import opened SfsRoom
  import opened SfsBytes

  /** Invalid is -E_INVAL; Stopped is a panic or a failed assert. */
  datatype Reply = Got(bytes: seq<byte>) | Invalid | Stopped

  const MAX_FILE: nat := 0x800_0000

  /** sfs_bmap_load_nolock for a block of the file: the kernel knows no double-indirect block. */
  function BlockFor(g: Fs, node: Inode, i: nat): Option<nat> {
    if i < node.blocks && i < SINGLE then Some(Lookup(g.index, node, i)) else None
  }

  /** sfs_rblock: k blocks from number b on. */
  function Consecutive(g: Fs, b: nat, k: nat): seq<byte> {
    if k == 0 then [] else Consecutive(g, b, k - 1) + Content(g, b + k - 1)
  }

  function Slice(s: seq<byte>, from: nat, to: nat): seq<byte> {
    if from <= to <= |s| then s[from..to] else []
  }

  /** The end of the part of a first block that is not read from its start. */
  function HeadEnd(offset: nat, end: nat): nat {
    if end / BLOCK_SIZE > offset / BLOCK_SIZE then BLOCK_SIZE else end % BLOCK_SIZE
  }

  /** The first block that is read from its start. */
  function From(offset: nat): nat {
    if offset % BLOCK_SIZE > 0 then offset / BLOCK_SIZE + 1 else offset / BLOCK_SIZE
  }

  function Head(g: Fs, node: Inode, offset: nat, end: nat): Option<seq<byte>> {
    if offset % BLOCK_SIZE == 0 then Some([])
    else
      match BlockFor(g, node, offset / BLOCK_SIZE)
      case None => None
      case Some(b) => Some(Slice(Content(g, b), offset % BLOCK_SIZE, HeadEnd(offset, end)))
  }

  function Middle(g: Fs, node: Inode, offset: nat, end: nat): Option<seq<byte>> {
    if From(offset) >= end / BLOCK_SIZE then Some([])
    else
      match BlockFor(g, node, From(offset))
      case None => None
      case Some(b) => Some(Consecutive(g, b, end / BLOCK_SIZE - From(offset)))
  }

  function Tail(g: Fs, node: Inode, offset: nat, end: nat): Option<seq<byte>> {
    if end % BLOCK_SIZE == 0 || From(offset) > end / BLOCK_SIZE then Some([])
    else
      match BlockFor(g, node, end / BLOCK_SIZE)
      case None => None
      case Some(b) => Some(Slice(Content(g, b), 0, end % BLOCK_SIZE))
  }

  function Min(a: nat, b: nat): nat {
    if a < b then a else b
  }

  /** What off_t, a signed 32-bit number, keeps of the end of a read. */
  function EndPos(offset: int, len: nat): int {
    var end := (offset + len) % 0x1_0000_0000;
    if end < 0x8000_0000 then end else end - 0x1_0000_0000
  }

  /** sfs_io_nolock without the write flag */
  function KernelRead(g: Fs, node: Inode, offset: int, len: nat): Reply {
    if offset < 0 || offset >= MAX_FILE || offset > EndPos(offset, len) then Invalid
    else if offset == EndPos(offset, len) || offset >= node.size then Got([])
    else
      var end := Min(Min(EndPos(offset, len), MAX_FILE), node.size);
      var head, middle, tail :=
        Head(g, node, offset, end), Middle(g, node, offset, end), Tail(g, node, offset, end);
      if head.None? || middle.None? || tail.None? then Stopped
      else Got(head.value + middle.value + tail.value)
  }

  // ---- what is there to be read ----

  /** A reader of the image as the builder left it: the builder's blocks, and no short one. */
  ghost predicate Reads(fs: Fs, g: Fs) {
    && Good(fs) && Extends(fs, g)
    && forall b: nat :: b < fs.ninos ==> |Content(g, b)| == BLOCK_SIZE
  }

  function ByteAt(s: seq<byte>, k: nat): byte {
    if k < |s| then s[k] else 0
  }

  /** The byte of the file that stands at place x. */
  ghost function FileByte(fs: Fs, n: nat, x: nat): byte
    requires n in fs.nodes
  {
    ByteAt(Content(fs, Lookup(fs.index, fs.nodes[n], x / BLOCK_SIZE)), x % BLOCK_SIZE)
  }

  lemma {:induction false} JoinByte(fs: Fs, blocks: seq<nat>, x: nat)
    requires forall i :: 0 <= i < |blocks| ==> |Content(fs, blocks[i])| == BLOCK_SIZE
    requires x < BLOCK_SIZE * |blocks|
    ensures |Join(fs, blocks)| == BLOCK_SIZE * |blocks|
    ensures Join(fs, blocks)[x] == ByteAt(Content(fs, blocks[x / BLOCK_SIZE]), x % BLOCK_SIZE)
  {
    hide Content;
    JoinLength(fs, blocks);
    var init := blocks[..|blocks| - 1];
    JoinLength(fs, init);
    if x < BLOCK_SIZE * |init| {
      JoinByte(fs, init, x);
    }
  }

  /** The bytes of a file, one by one. */
  lemma BytesAre(fs: Fs, n: nat, x: nat)
    requires Good(fs) && Laid(fs, n) && x < fs.nodes[n].size
    ensures x < |Bytes(fs, fs.nodes[n])| == fs.nodes[n].size && x / BLOCK_SIZE < fs.nodes[n].blocks
    ensures Bytes(fs, fs.nodes[n])[x] == FileByte(fs, n, x)
  {
    hide Good, Lookup, Content, Join, Room;
    var blocks := Blocks(fs.index, fs.nodes[n]);
    BlocksLength(fs.index, fs.nodes[n]);
    forall i | 0 <= i < |blocks| ensures |Content(fs, blocks[i])| == BLOCK_SIZE {
      BlocksOnDisk(fs, n, i);
    }
    JoinByte(fs, blocks, x);
  }

  // ---- what the kernel reads ----

  /** The number of the block that is read for block i of the file. */
  ghost function BlockRead(fs: Fs, n: nat, offset: nat, end: nat, i: nat): nat
    requires n in fs.nodes
  {
    if From(offset) <= i < end / BLOCK_SIZE
    then Lookup(fs.index, fs.nodes[n], From(offset)) + (i - From(offset))
    else Lookup(fs.index, fs.nodes[n], i)
  }

  ghost function KernelByte(fs: Fs, g: Fs, n: nat, offset: nat, end: nat, x: nat): byte
    requires n in fs.nodes
  {
    ByteAt(Content(g, BlockRead(fs, n, offset, end, x / BLOCK_SIZE)), x % BLOCK_SIZE)
  }

  /** The text s is what the kernel reads from place x on. */
  ghost predicate Copies(fs: Fs, g: Fs, n: nat, offset: nat, end: nat, s: seq<byte>, x: nat)
    requires n in fs.nodes
  {
    forall y :: 0 <= y < |s| ==> s[y] == KernelByte(fs, g, n, offset, end, x + y)
  }

  lemma CopiesBoth(fs: Fs, g: Fs, n: nat, offset: nat, end: nat, s: seq<byte>, t: seq<byte>, x: nat)
    requires n in fs.nodes && Copies(fs, g, n, offset, end, s, x) && Copies(fs, g, n, offset, end, t, x + |s|)
    ensures Copies(fs, g, n, offset, end, s + t, x)
  {
    hide KernelByte;
    forall y | 0 <= y < |s + t| ensures (s + t)[y] == KernelByte(fs, g, n, offset, end, x + y) {
      if y >= |s| {
        assert x + |s| + (y - |s|) == x + y;
      }
    }
  }

  lemma RoomFast(i: nat, t: nat)
    ensures Room(i) + t <= Room(i + t)
  {
    if t > 0 {
      RoomFast(i, t - 1);
      RoomStep(i + t - 1);
    }
  }

  /** A block of the file, seen through the kernel. */
  lemma BlockSeen(fs: Fs, g: Fs, n: nat, i: nat)
    requires Reads(fs, g) && n in fs.nodes && i < fs.nodes[n].blocks
    ensures BlockFor(g, fs.nodes[n], i) == if i < SINGLE then Some(Lookup(fs.index, fs.nodes[n], i)) else None
    ensures var b := Lookup(fs.index, fs.nodes[n], i);
            b < fs.ninos && |Content(g, b)| == BLOCK_SIZE && Content(g, b) == Content(fs, b)
  {
    hide Good, Mapped, Lookup;
    GoodSorted(fs, n);
    LookupExtends(fs, g, n, i);
    BlocksOnDisk(fs, n, i);
    NoBlockShared(fs, n, i, n, i);
  }

  lemma {:induction false} ConsecutiveByte(g: Fs, b: nat, k: nat)
    requires forall c: nat :: b <= c < b + k ==> |Content(g, c)| == BLOCK_SIZE
    ensures |Consecutive(g, b, k)| == BLOCK_SIZE * k
    ensures forall y: nat :: y < BLOCK_SIZE * k ==>
              Consecutive(g, b, k)[y] == ByteAt(Content(g, b + y / BLOCK_SIZE), y % BLOCK_SIZE)
  {
    hide Content;
    if k > 0 {
      ConsecutiveByte(g, b, k - 1);
    }
  }

  /** The blocks read at once are blocks of the image, whatever is in them. */
  lemma MiddleThere(fs: Fs, g: Fs, n: nat, i: nat, k: nat)
    requires Reads(fs, g) && Laid(fs, n) && i + k <= fs.nodes[n].blocks && k > 0
    ensures Lookup(fs.index, fs.nodes[n], i) + k <= fs.ninos
  {
    hide Good, Lookup, Content, Room;
    BlocksLength(fs.index, fs.nodes[n]);
    RoomFast(i, k - 1);
    BlockSeen(fs, g, n, i + k - 1);
    var blocks := Blocks(fs.index, fs.nodes[n]);
    assert blocks[i + k - 1] == n + 1 + Room(i + k - 1) && blocks[i] == n + 1 + Room(i);
  }

  // ---- the three parts ----

  /** The part of the file that is asked for and there. */
  ghost predicate Asked(fs: Fs, g: Fs, n: nat, offset: nat, end: nat) {
    n in fs.nodes && Reads(fs, g) && Laid(fs, n) && offset < end <= fs.nodes[n].size
  }

  /** No part has to look for a block that the kernel has no pointer to. */
  predicate InReach(offset: nat, end: nat) {
    && (offset % BLOCK_SIZE > 0 ==> offset / BLOCK_SIZE < SINGLE)
    && (From(offset) < end / BLOCK_SIZE ==> From(offset) < SINGLE)
    && (end % BLOCK_SIZE > 0 && From(offset) <= end / BLOCK_SIZE ==> end / BLOCK_SIZE < SINGLE)
  }

  /** The blocks that hold the part, by number. */
  lemma Places(offset: nat, end: nat)
    requires offset < end
    ensures From(offset) <= end / BLOCK_SIZE + 1
    ensures offset % BLOCK_SIZE > 0 && From(offset) <= end / BLOCK_SIZE ==>
              From(offset) * BLOCK_SIZE == offset / BLOCK_SIZE * BLOCK_SIZE + BLOCK_SIZE
    ensures From(offset) > end / BLOCK_SIZE ==> offset / BLOCK_SIZE == end / BLOCK_SIZE && offset % BLOCK_SIZE > 0
  {
  }

  lemma HeadRead(fs: Fs, g: Fs, n: nat, offset: nat, end: nat)
    requires Asked(fs, g, n, offset, end)
    ensures var head := Head(g, fs.nodes[n], offset, end);
            && (head.None? <==> offset % BLOCK_SIZE > 0 && offset / BLOCK_SIZE >= SINGLE)
            && (head.Some? ==>
                  && |head.value| == (if From(offset) > end / BLOCK_SIZE then end - offset
                                      else From(offset) * BLOCK_SIZE - offset)
                  && Copies(fs, g, n, offset, end, head.value, offset))
  {
    hide Reads, Laid, Lookup, Content;
    Places(offset, end);
    if offset % BLOCK_SIZE > 0 {
      var i := offset / BLOCK_SIZE;
      LastBlock(fs, n, offset);
      BlockSeen(fs, g, n, i);
    }
  }

  /** A place before the end lies in a block of the file. */
  lemma LastBlock(fs: Fs, n: nat, x: nat)
    requires Laid(fs, n) && x < fs.nodes[n].size
    ensures x / BLOCK_SIZE < fs.nodes[n].blocks
  {
    hide Lookup, Room;
    BlocksLength(fs.index, fs.nodes[n]);
  }

  lemma FullBlocks(fs: Fs, n: nat, end: nat)
    requires Laid(fs, n) && end <= fs.nodes[n].size
    ensures end / BLOCK_SIZE <= fs.nodes[n].blocks
  {
    hide Lookup, Room;
    BlocksLength(fs.index, fs.nodes[n]);
  }

  lemma PlaceSplit(i: nat, y: nat)
    ensures (i * BLOCK_SIZE + y) / BLOCK_SIZE == i + y / BLOCK_SIZE
      && (i * BLOCK_SIZE + y) % BLOCK_SIZE == y % BLOCK_SIZE
  {
  }

  lemma MiddleRead(fs: Fs, g: Fs, n: nat, offset: nat, end: nat)
    requires Asked(fs, g, n, offset, end)
    ensures var from, last, middle := From(offset), end / BLOCK_SIZE, Middle(g, fs.nodes[n], offset, end);
            && (middle.None? <==> from < last && from >= SINGLE)
            && (middle.Some? ==>
                  && |middle.value| == (if from < last then (last - from) * BLOCK_SIZE else 0)
                  && Copies(fs, g, n, offset, end, middle.value, from * BLOCK_SIZE))
  {
    hide Laid, Lookup, Content, Good, Extends;
    var from, last := From(offset), end / BLOCK_SIZE;
    if from < last {
      FullBlocks(fs, n, end);
      BlockSeen(fs, g, n, from);
      var b := Lookup(fs.index, fs.nodes[n], from);
      MiddleThere(fs, g, n, from, last - from);
      ConsecutiveByte(g, b, last - from);
      var s := Consecutive(g, b, last - from);
      forall y | 0 <= y < |s| ensures s[y] == KernelByte(fs, g, n, offset, end, from * BLOCK_SIZE + y) {
        PlaceSplit(from, y);
      }
    }
  }

  lemma TailRead(fs: Fs, g: Fs, n: nat, offset: nat, end: nat)
    requires Asked(fs, g, n, offset, end)
    ensures var last, tail := end / BLOCK_SIZE, Tail(g, fs.nodes[n], offset, end);
            && (tail.None? <==> end % BLOCK_SIZE > 0 && From(offset) <= last && last >= SINGLE)
            && (tail.Some? ==>
                  && |tail.value| == (if From(offset) <= last then end - last * BLOCK_SIZE else 0)
                  && Copies(fs, g, n, offset, end, tail.value, last * BLOCK_SIZE))
  {
    hide Reads, Laid, Lookup, Content;
    var last := end / BLOCK_SIZE;
    if end % BLOCK_SIZE > 0 && From(offset) <= last {
      LastBlock(fs, n, end - 1);
      assert (end - 1) / BLOCK_SIZE == last;
      BlockSeen(fs, g, n, last);
      var s := Slice(Content(g, Lookup(fs.index, fs.nodes[n], last)), 0, end % BLOCK_SIZE);
      forall y | 0 <= y < |s| ensures s[y] == KernelByte(fs, g, n, offset, end, last * BLOCK_SIZE + y) {
        PlaceSplit(last, y);
      }
    }
  }

  // ---- the read as a whole ----

  /** The end of what is read: of what is asked for, or of the file. */
  function EndOf(node: Inode, offset: nat, len: nat): nat {
    Min(offset + len, node.size)
  }

  lemma SizeBound(fs: Fs, n: nat)
    requires Good(fs) && Laid(fs, n)
    ensures fs.nodes[n].size <= MAX_FILE
  {
    hide Lookup, Room;
    assert Mapped(fs, n, fs.nodes[n]);
    BlocksLength(fs.index, fs.nodes[n]);
  }

  /** The end of a read wraps to in front of its start, or stays where it is. */
  lemma EndPosIs(offset: nat, len: nat)
    requires offset < MAX_FILE && len < 0x1_0000_0000
    ensures if offset + len < 0x8000_0000 then EndPos(offset, len) == offset + len else EndPos(offset, len) < offset
  {
  }

  /** A read of a part of a file stops the kernel exactly if a block that it looks for is out of reach; otherwise it
    * gives as many bytes as the part has, block for block as said.
    */
  lemma ReadGives(fs: Fs, g: Fs, n: nat, offset: nat, len: nat)
    requires n in fs.nodes && Reads(fs, g) && Laid(fs, n) && 0 < len && offset < fs.nodes[n].size
    requires offset + len < 0x8000_0000
    ensures var end, r := EndOf(fs.nodes[n], offset, len), KernelRead(g, fs.nodes[n], offset, len);
            && offset < end <= fs.nodes[n].size
            && (if InReach(offset, end) then r.Got? else r.Stopped?)
            && (r.Got? ==> |r.bytes| == end - offset && Copies(fs, g, n, offset, end, r.bytes, offset))
  {
    hide Laid, Head, Middle, Tail, Copies, Good, Extends;
    SizeBound(fs, n);
    EndPosIs(offset, len);
    var end := EndOf(fs.nodes[n], offset, len);
    HeadRead(fs, g, n, offset, end);
    MiddleRead(fs, g, n, offset, end);
    TailRead(fs, g, n, offset, end);
    Places(offset, end);
    if InReach(offset, end) {
      var head, middle, tail := Head(g, fs.nodes[n], offset, end).value, Middle(g, fs.nodes[n], offset, end).value,
        Tail(g, fs.nodes[n], offset, end).value;
      Together(fs, g, n, offset, end, head, middle, tail);
    }
  }

  /** Every read of a file: refused exactly if it starts before the file or at 128 megabytes, or ends where off_t is
    * negative; nothing exactly if the range holds no byte of the file; and stopped exactly if it does and a block is
    * out of reach.
    */
  lemma ReadAnswers(fs: Fs, g: Fs, n: nat, offset: int, len: nat)
    requires n in fs.nodes && Reads(fs, g) && Laid(fs, n) && len < 0x1_0000_0000
    ensures var r, refused := KernelRead(g, fs.nodes[n], offset, len),
              offset < 0 || offset >= 0x800_0000 || offset + len >= 0x8000_0000;
            && (r == Invalid <==> refused)
            && (r == Got([]) <==> !refused && (len == 0 || offset >= fs.nodes[n].size))
            && (r == Stopped <==> !refused && 0 < len && offset < fs.nodes[n].size
                                  && !InReach(offset, EndOf(fs.nodes[n], offset, len)))
  {
    hide Good, Extends, Laid, InReach, Copies, Head, Middle, Tail;
    if 0 <= offset < MAX_FILE {
      EndPosIs(offset, len);
      if 0 < len && offset < fs.nodes[n].size && offset + len < 0x8000_0000 {
        hide KernelRead;
        ReadGives(fs, g, n, offset, len);
      }
    }
  }

  lemma Together(fs: Fs, g: Fs, n: nat, offset: nat, end: nat, head: seq<byte>, middle: seq<byte>, tail: seq<byte>)
    requires n in fs.nodes && offset < end
    requires |head| == if From(offset) > end / BLOCK_SIZE then end - offset else From(offset) * BLOCK_SIZE - offset
    requires |middle| == if From(offset) < end / BLOCK_SIZE then (end / BLOCK_SIZE - From(offset)) * BLOCK_SIZE else 0
    requires |tail| == if From(offset) <= end / BLOCK_SIZE then end - end / BLOCK_SIZE * BLOCK_SIZE else 0
    requires Copies(fs, g, n, offset, end, head, offset)
    requires Copies(fs, g, n, offset, end, middle, From(offset) * BLOCK_SIZE)
    requires Copies(fs, g, n, offset, end, tail, end / BLOCK_SIZE * BLOCK_SIZE)
    ensures |head + middle + tail| == end - offset && Copies(fs, g, n, offset, end, head + middle + tail, offset)
  {
    hide Copies;
    var from, last := From(offset), end / BLOCK_SIZE;
    Places(offset, end);
    if from > last {
      assert head + middle + tail == head;
    } else {
      assert (last - from) * BLOCK_SIZE == last * BLOCK_SIZE - from * BLOCK_SIZE;
      CopiesBoth(fs, g, n, offset, end, head, middle, offset);
      CopiesBoth(fs, g, n, offset, end, head + middle, tail, offset);
    }
  }

  // ---- when it is right ----

  /** No pointer block was taken between the blocks from `from` to before `last`. */
  predicate Straight(from: nat, last: nat) {
    forall k :: from <= k < last - 1 ==> NewPointers(k) == 0
  }

  lemma {:induction false} RoomStraight(from: nat, i: nat)
    requires from <= i
    ensures (forall k :: from <= k < i ==> NewPointers(k) == 0) <==> Room(i) == Room(from) + (i - from)
    decreases i
  {
    hide Room, NewPointers;
    if from < i {
      RoomStraight(from, i - 1);
      RoomStep(i - 1);
      RoomFast(from, i - 1 - from);
    }
  }

  /** The blocks read are the blocks of the file, number by number, exactly when they lie straight. */
  lemma RightBlocks(fs: Fs, n: nat, offset: nat, end: nat)
    requires Laid(fs, n) && offset < end <= fs.nodes[n].size
    ensures (forall i :: From(offset) <= i < end / BLOCK_SIZE ==>
               BlockRead(fs, n, offset, end, i) == Lookup(fs.index, fs.nodes[n], i))
            <==> Straight(From(offset), end / BLOCK_SIZE)
  {
    hide Lookup, Room, NewPointers;
    var from, last, blocks := From(offset), end / BLOCK_SIZE, Blocks(fs.index, fs.nodes[n]);
    BlocksLength(fs.index, fs.nodes[n]);
    FullBlocks(fs, n, end);
    forall i | from <= i < last
      ensures BlockRead(fs, n, offset, end, i) == Lookup(fs.index, fs.nodes[n], i)
              <==> forall k :: from <= k < i ==> NewPointers(k) == 0
    {
      RoomStraight(from, i);
      assert blocks[i] == n + 1 + Room(i) && blocks[from] == n + 1 + Room(from);
    }
    if from < last {
      var i := last - 1;
      assert BlockRead(fs, n, offset, end, i) == Lookup(fs.index, fs.nodes[n], i)
             <==> forall k :: from <= k < i ==> NewPointers(k) == 0;
    }
  }

  /** In the first 1036 blocks there is one pointer block, after the first thirteen. */
  lemma StraightBelow(from: nat, last: nat)
    requires last <= SINGLE
    ensures Straight(from, last) <==> last <= DIRECT + 1 || from > DIRECT
  {
    if last > DIRECT + 1 && from <= DIRECT {
      assert NewPointers(DIRECT) != 0;
    }
  }

  /** A read within reach whose whole blocks lie straight gives that part of the file. */
  lemma ReadRight(fs: Fs, g: Fs, n: nat, offset: nat, len: nat)
    requires n in fs.nodes && Reads(fs, g) && Laid(fs, n) && 0 < len && offset < fs.nodes[n].size
    requires offset + len < 0x8000_0000
    requires var end := EndOf(fs.nodes[n], offset, len);
             InReach(offset, end) && Straight(From(offset), end / BLOCK_SIZE)
    ensures var end := EndOf(fs.nodes[n], offset, len);
            && offset < end <= |Bytes(fs, fs.nodes[n])|
            && KernelRead(g, fs.nodes[n], offset, len) == Got(Bytes(fs, fs.nodes[n])[offset..end])
  {
    hide Laid, Good, Extends, InReach, Straight, KernelRead, Lookup, Bytes, Content;
    var end := EndOf(fs.nodes[n], offset, len);
    ReadGives(fs, g, n, offset, len);
    RightBlocks(fs, n, offset, end);
    BytesAre(fs, n, offset);
    var r := KernelRead(g, fs.nodes[n], offset, len).bytes;
    forall y | 0 <= y < |r| ensures r[y] == Bytes(fs, fs.nodes[n])[offset + y] {
      BytesAre(fs, n, offset + y);
      RightByte(fs, g, n, offset, end, offset + y);
    }
    assert r == Bytes(fs, fs.nodes[n])[offset..end];
  }

  lemma RightByte(fs: Fs, g: Fs, n: nat, offset: nat, end: nat, x: nat)
    requires n in fs.nodes && Reads(fs, g) && x / BLOCK_SIZE < fs.nodes[n].blocks
    requires forall i :: From(offset) <= i < end / BLOCK_SIZE ==>
               BlockRead(fs, n, offset, end, i) == Lookup(fs.index, fs.nodes[n], i)
    ensures KernelByte(fs, g, n, offset, end, x) == FileByte(fs, n, x)
  {
    hide Good, Extends, Lookup, Content;
    BlockSeen(fs, g, n, x / BLOCK_SIZE);
  }

  /** Reads of at most 4096 bytes are right, wherever they start, in files of at most 1036 blocks. */
  lemma SmallReadRight(fs: Fs, g: Fs, n: nat, offset: nat, len: nat)
    requires n in fs.nodes && Reads(fs, g) && Laid(fs, n) && 0 < len <= BLOCK_SIZE && offset < fs.nodes[n].size
    requires fs.nodes[n].size <= BLOCK_SIZE * SINGLE
    ensures var end := EndOf(fs.nodes[n], offset, len);
            && offset < end <= |Bytes(fs, fs.nodes[n])|
            && KernelRead(g, fs.nodes[n], offset, len) == Got(Bytes(fs, fs.nodes[n])[offset..end])
  {
    hide Good, Laid, Extends, KernelRead, Bytes;
    SmallParts(offset, EndOf(fs.nodes[n], offset, len));
    ReadRight(fs, g, n, offset, len);
  }

  lemma SmallParts(offset: nat, end: nat)
    requires offset < end <= offset + BLOCK_SIZE && end <= BLOCK_SIZE * SINGLE
    ensures InReach(offset, end) && Straight(From(offset), end / BLOCK_SIZE)
  {
  }

  // ---- on the image ----

  /** The bytes of a finished image are such a reader's. */
  lemma ImageReads(size: nat, items: Items, img: Image, disk: seq<seq<byte>>)
    requires Build(size, items).Some? && Closed(Build(size, items).value, img) && OnDisk(img, disk)
    ensures forall b :: 0 <= b < |disk| ==> |disk[b]| == BLOCK_SIZE
    ensures Reads(Build(size, items).value, MountBytes(disk))
  {
    hide Good, Narrow, Build, Extends;
    BuildNarrow(size, items);
    var fs := Build(size, items).value;
    BytesExtend(fs, img, disk);
    forall b: nat | b < fs.ninos ensures |Content(MountBytes(disk), b)| == BLOCK_SIZE {
      assert MountBytes(disk).disk[b] == disk[b];
    }
  }

  /** Whatever was built: the kernel reads any part of any file of at most 1036 blocks right, if its whole blocks do
    * not lie on both sides of the first thirteen; so it does if at most 4096 bytes are asked for, or the file has
    * less than fourteen blocks.
    */
  lemma KernelReadsImage(size: nat, items: Items, img: Image, disk: seq<seq<byte>>, n: nat, offset: nat, len: nat)
    requires Build(size, items).Some? && Closed(Build(size, items).value, img) && OnDisk(img, disk)
    requires forall b :: 0 <= b < |disk| ==> |disk[b]| == BLOCK_SIZE
    requires var fs := Build(size, items).value;
             && n in fs.nodes && fs.nodes[n].kind.File? && 0 < len && offset < fs.nodes[n].size <= BLOCK_SIZE * SINGLE
             && offset + len < 0x8000_0000
    requires var end := EndOf(Build(size, items).value.nodes[n], offset, len);
             end / BLOCK_SIZE <= DIRECT + 1 || From(offset) > DIRECT || len <= BLOCK_SIZE
    ensures var fs := Build(size, items).value;
            var end := EndOf(fs.nodes[n], offset, len);
            && offset < end <= |Bytes(fs, fs.nodes[n])|
            && KernelRead(MountBytes(disk), fs.nodes[n], offset, len) == Got(Bytes(fs, fs.nodes[n])[offset..end])
  {
    hide Build, Closed, OnDisk, MountBytes, Reads, Laid, KernelRead, Bytes;
    var fs, g := Build(size, items).value, MountBytes(disk);
    var end := EndOf(fs.nodes[n], offset, len);
    ImageReads(size, items, img, disk);
    BuildLaid(size, items, n);
    if len <= BLOCK_SIZE {
      SmallReadRight(fs, g, n, offset, len);
    } else {
      InReachBelow(offset, end);
      StraightBelow(From(offset), end / BLOCK_SIZE);
      ReadRight(fs, g, n, offset, len);
    }
  }

  lemma InReachBelow(offset: nat, end: nat)
    requires offset < end <= BLOCK_SIZE * SINGLE
    ensures InReach(offset, end) && end / BLOCK_SIZE <= SINGLE
  {
  }

  /** Otherwise the pointer block is taken for block 13 of the file. */
  lemma PointersRead(fs: Fs, n: nat, offset: nat, end: nat)
    requires Good(fs) && Laid(fs, n) && end <= fs.nodes[n].size
    requires From(offset) <= DIRECT && DIRECT + 1 < end / BLOCK_SIZE
    ensures BlockRead(fs, n, offset, end, DIRECT + 1) == fs.nodes[n].indirect
  {
    hide Good, Lookup;
    FullBlocks(fs, n, end);
    BlocksLength(fs.index, fs.nodes[n]);
    assert Blocks(fs.index, fs.nodes[n])[From(offset)] == n + 1 + Room(From(offset));
  }

  lemma IndirectBytes(fs: Fs, img: Image, disk: seq<seq<byte>>, n: nat)
    requires Good(fs) && Narrow(fs) && Closed(fs, img) && OnDisk(img, disk)
    requires n in fs.nodes && fs.nodes[n].blocks > DIRECT
    ensures var b := fs.nodes[n].indirect;
            b < |disk| && |disk[b]| == BLOCK_SIZE && WordAt(disk[b], 0) == Lookup(fs.index, fs.nodes[n], DIRECT) != 0
  {
    hide Good, Narrow, Closed, OnDisk, WordAt, Lookup, Mapped;
    var b := fs.nodes[n].indirect;
    IndirectThere(fs, n);
    BlockBack(fs, img, disk, b);
    BytesExtend(fs, img, disk);
    assert DecodeWords(disk[b])[0] == WordAt(disk[b], 0);
    NoBlockShared(fs, n, DIRECT, n, DIRECT);
    FirstIndirect(fs, n);
  }

  lemma IndirectThere(fs: Fs, n: nat)
    requires Good(fs) && n in fs.nodes && fs.nodes[n].blocks > DIRECT
    ensures fs.nodes[n].indirect in fs.index && |fs.index[fs.nodes[n].indirect]| == ENTRIES
  {
    hide Lookup, Slot;
    assert Mapped(fs, n, fs.nodes[n]);
  }

  lemma FirstIndirect(fs: Fs, n: nat)
    requires n in fs.nodes && fs.nodes[n].indirect in fs.index && |fs.index[fs.nodes[n].indirect]| == ENTRIES
    ensures Lookup(fs.index, fs.nodes[n], DIRECT) == fs.index[fs.nodes[n].indirect][0]
  {
  }

  /** A file of zeros of fourteen blocks or more, read as a whole, does not come back: block 13 comes out as the
    * numbers of the blocks that follow.
    */
  lemma ZerosMisread(size: nat, items: Items, img: Image, disk: seq<seq<byte>>, n: nat)
    requires Build(size, items).Some? && Closed(Build(size, items).value, img) && OnDisk(img, disk)
    requires forall b :: 0 <= b < |disk| ==> |disk[b]| == BLOCK_SIZE
    requires var fs := Build(size, items).value;
             && n in fs.nodes && fs.nodes[n].kind.File? && fs.nodes[n].size >= (DIRECT + 2) * BLOCK_SIZE
             && forall x :: 0 <= x < |Bytes(fs, fs.nodes[n])| ==> Bytes(fs, fs.nodes[n])[x] == 0
    ensures var fs := Build(size, items).value;
            KernelRead(MountBytes(disk), fs.nodes[n], 0, fs.nodes[n].size) != Got(Bytes(fs, fs.nodes[n]))
  {
    hide Build, Closed, OnDisk, MountBytes, Good, Narrow, Extends, Laid, KernelRead, Bytes, WordAt, Content, Lookup;
    var fs, g := Build(size, items).value, MountBytes(disk);
    var end, place := fs.nodes[n].size, (DIRECT + 1) * BLOCK_SIZE;
    ImageReads(size, items, img, disk);
    BuildLaid(size, items, n);
    BuildNarrow(size, items);
    SizeBound(fs, n);
    ReadGives(fs, g, n, 0, end);
    FullBlocks(fs, n, end);
    PointersRead(fs, n, 0, end);
    IndirectBytes(fs, img, disk, n);
    var b := fs.nodes[n].indirect;
    MountedContent(disk, b);
    BytesAre(fs, n, 0);
    var r := KernelRead(g, fs.nodes[n], 0, end);
    if r == Got(Bytes(fs, fs.nodes[n])) {
      forall k | 0 <= k < 4 ensures disk[b][k] == 0 {
        PlaceSplit(DIRECT + 1, k);
        assert r.bytes[place + k] == KernelByte(fs, g, n, 0, end, 0 + (place + k));
      }
      ZeroWord(disk[b]);
    }
  }

  /** A file's bytes are as many as its size says. */
  lemma BytesCount(fs: Fs, n: nat)
    requires n in fs.nodes && Good(fs) && Laid(fs, n)
    ensures |Bytes(fs, fs.nodes[n])| == fs.nodes[n].size
  {
    hide Good, Laid, Lookup, Join;
    if fs.nodes[n].size > 0 {
      BytesAre(fs, n, 0);
    }
  }

  lemma MountedContent(disk: seq<seq<byte>>, b: nat)
    requires b < |disk| && forall c :: 0 <= c < |disk| ==> |disk[c]| == BLOCK_SIZE
    ensures Content(MountBytes(disk), b) == disk[b]
  {
    assert MountBytes(disk).disk[b] == disk[b];
  }

  lemma ZeroWord(s: seq<byte>)
    requires |s| >= 4 && forall k :: 0 <= k < 4 ==> s[k] == 0
    ensures WordAt(s, 0) == 0
  {
  }
}
