/** The loops that read a file (lab8/kern/fs/sysfile.c: sysfile_read, with file_read of file.c): at most 4096 bytes at
  * a time, from the position of the open file on, on an image that the builder made.
  */
module SfsReadLoop {
  import opened SfsBlocks
  import opened SfsTree
  import opened SfsImage
  import opened SfsRoom
  import opened SfsBytes
  import opened SfsReads

  const IOBUF_SIZE := 4096

  /** A file of the builder's, and a reader of the image. */
  ghost predicate There(fs: Fs, g: Fs, n: nat) {
    n in fs.nodes && Reads(fs, g) && Laid(fs, n)
  }

  /** In at most 4096 bytes a block is out of reach exactly if the last byte is in one. */
  lemma ChunkReach(offset: nat, end: nat)
    requires offset < end <= offset + 4096
    ensures InReach(offset, end) <==> end <= 1036 * 4096
    ensures end <= 1036 * 4096 ==> Straight(From(offset), end / BLOCK_SIZE)
  {
    var i, r := offset / 4096, offset % 4096;
    assert end / 4096 == i || end / 4096 == i + 1;
  }

  /** One turn: refused behind 128 megabytes, nothing behind the end, stopped if a byte is out of reach, and else the
    * bytes of the file.
    */
  lemma ChunkRead(fs: Fs, g: Fs, n: nat, pos: nat, len: nat)
    requires There(fs, g, n) && 0 < len <= 4096
    ensures var size, end := fs.nodes[n].size, EndOf(fs.nodes[n], pos, len);
      && |Bytes(fs, fs.nodes[n])| == size <= 0x800_0000
      && KernelRead(g, fs.nodes[n], pos, len) ==
         if pos >= 0x800_0000 then Invalid
         else if pos >= size then Got([])
         else if end > 1036 * 4096 then Stopped
         else Got(Bytes(fs, fs.nodes[n])[pos..end])
  {
    hide Reads, Laid, KernelRead, InReach, Straight, From, Bytes;
    assert Good(fs) by { ReadsGood(fs, g); }
    SizeBound(fs, n);
    BytesCount(fs, n);
    ReadAnswers(fs, g, n, pos, len);
    var end := EndOf(fs.nodes[n], pos, len);
    if pos < fs.nodes[n].size {
      ChunkReach(pos, end);
      if end <= 1036 * 4096 {
        ReadRight(fs, g, n, pos, len);
      }
    }
  }

  lemma ReadsGood(fs: Fs, g: Fs)
    requires Reads(fs, g)
    ensures Good(fs)
  {
  }

  lemma Joined<T>(s: seq<T>, i: nat, j: nat, k: nat)
    requires i <= j <= k <= |s|
    ensures s[i..j] + s[j..k] == s[i..k]
  {
  }

  /** Where a turn ends, seen from the whole read. */
  lemma EndIs(node: Inode, pos: nat, len: nat, done: nat, alen: nat)
    requires done + alen <= len
    ensures var end := EndOf(node, pos + done, alen);
      && end <= EndOf(node, pos, len) && end <= node.size && (pos + done < node.size && alen > 0 ==> pos + done < end)
      && end <= pos + done + alen && (end < pos + done + alen ==> end == node.size)
      && EndOf(node, pos, len) == Min(pos + len, node.size)
  {
  }

  /** sysfile_read: what comes of it is what one read would give if no read were short. */
  method SysfileRead(g: Fs, node: Inode, pos: nat, len: nat, ghost fs: Fs, ghost n: nat) returns (reply: Reply)
    requires There(fs, g, n) && node == fs.nodes[n]
    ensures |Bytes(fs, node)| == node.size
    ensures var end := EndOf(node, pos, len);
      reply ==
        if len == 0 then Got([])
        else if pos >= 0x800_0000 then Invalid
        else if pos >= node.size then Got([])
        else if end > 1036 * 4096 then Stopped
        else Got(Bytes(fs, node)[pos..end])
  {
    hide There, KernelRead, Bytes, EndOf;
    var data: seq<byte>, left: nat := [], len;
    ChunkRead(fs, g, n, pos, 1);
    EndIs(node, pos, len, 0, len);
    while left != 0
      invariant |data| + left == len && (data != [] ==> pos + |data| <= Min(node.size, 1036 * 4096))
      invariant pos + |data| <= node.size ==> data == Bytes(fs, node)[pos..pos + |data|]
      decreases left
    {
      var alen: nat := if IOBUF_SIZE > left then left else IOBUF_SIZE;
      ChunkRead(fs, g, n, pos + |data|, alen);
      EndIs(node, pos, len, |data|, alen);
      var r := KernelRead(g, node, pos + |data|, alen);
      if r == Stopped {
        return Stopped;
      }
      if r == Invalid {
        return if data != [] then Got(data) else Invalid;
      }
      if r.bytes == [] {
        return Got(data);
      }
      Joined(Bytes(fs, node), pos, pos + |data|, EndOf(node, pos + |data|, alen));
      left, data := left - |r.bytes|, data + r.bytes;
    }
    reply := Got(data);
  }

  /** The reads of one file after the other from its start, each of `len` bytes, until one gives nothing: all of the
    * file, unless it has more than 1036 blocks.
    */
  method ReadToEnd(g: Fs, node: Inode, len: nat, ghost fs: Fs, ghost n: nat) returns (reply: Reply)
    requires There(fs, g, n) && node == fs.nodes[n] && len > 0
    ensures reply == if node.size <= 1036 * 4096 then Got(Bytes(fs, node)) else Stopped
  {
    hide There, Bytes;
    var data := [];
    reply := SysfileRead(g, node, 0, len, fs, n);
    while reply.Got? && reply.bytes != []
      invariant |data| <= Min(node.size, 1036 * 4096) && |Bytes(fs, node)| == node.size
      invariant data == Bytes(fs, node)[..|data|]
      invariant reply == if |data| >= node.size then Got([])
                         else if EndOf(node, |data|, len) > 1036 * 4096 then Stopped
                         else Got(Bytes(fs, node)[|data|..EndOf(node, |data|, len)])
      decreases node.size - |data|
    {
      data := data + reply.bytes;
      reply := SysfileRead(g, node, |data|, len, fs, n);
    }
    if reply.Got? {
      reply := Got(data);
    }
  }

  /** Whatever was built: a file of at most 1036 blocks, read to its end from the bytes of the image, is the file. */
  method ReadImageFile(disk: seq<seq<byte>>, node: Inode, len: nat, ghost size: nat, ghost items: Items,
                       ghost img: Image, ghost n: nat)
    returns (reply: Reply)
    requires Build(size, items).Some? && Closed(Build(size, items).value, img) && OnDisk(img, disk)
    requires forall b :: 0 <= b < |disk| ==> |disk[b]| == BLOCK_SIZE
    requires var fs := Build(size, items).value; n in fs.nodes && fs.nodes[n].kind.File? && node == fs.nodes[n]
    requires len > 0
    ensures reply == if node.size <= 1036 * 4096 then Got(Bytes(Build(size, items).value, node)) else Stopped
  {
    hide Build, Closed, OnDisk, Reads, Laid, Bytes;
    ImageReads(size, items, img, disk);
    BuildLaid(size, items, n);
    reply := ReadToEnd(MountBytes(disk), node, len, Build(size, items).value, n);
  }
}
