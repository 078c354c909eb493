/** Directory entries on disk. Each fills one block: four bytes of inode number, then the first 252
  * bytes of a 256-byte name buffer that is never cleared (lab8/tools/mksfs.c); the kernel reads it
  * back as a number and a terminated string (lab8/kern/fs/sfs/sfs_inode.c).
  */
module SfsEntries {
  import opened SfsBlocks

  const NAME_MAX: nat := 255
  const NAME_KEPT: nat := 252

  function Fill(n: nat): (s: seq<byte>)
    ensures |s| == n
  {
    seq(n, _ => 0)
  }

  /** write_block pads a short block with zeros. */
  function Pad(s: seq<byte>): (r: seq<byte>)
    requires |s| <= BLOCK_SIZE
    ensures |r| == BLOCK_SIZE && r[..|s|] == s && forall i :: |s| <= i < BLOCK_SIZE ==> r[i] == 0
  {
    s + Fill(BLOCK_SIZE - |s|)
  }

  function Le32(v: nat): (s: seq<byte>)
    ensures |s| == 4
  {
    [v % 256, v / 256 % 256, v / 65536 % 256, v / 16777216 % 256]
  }

  function FromLe32(s: seq<byte>): nat
    requires |s| == 4
  {
    (s[0] as int) + 256 * (s[1] as int) + 65536 * (s[2] as int) + 16777216 * (s[3] as int)
  }

  /** A C string: it has no zero byte inside. */
  predicate IsName(name: seq<byte>) {
    |name| <= NAME_MAX && forall i :: 0 <= i < |name| ==> name[i] != 0
  }

  /** strcpy into the name buffer: the bytes after the terminator stay. */
  function CopyName(entry: seq<byte>, name: seq<byte>): (r: seq<byte>)
    requires |entry| == 256 && |name| <= NAME_MAX
    ensures |r| == 256
  {
    name + [0] + entry[|name| + 1..]
  }

  function EntryBlock(ino: nat, entry: seq<byte>): (r: seq<byte>)
    requires |entry| == 256
    ensures |r| == BLOCK_SIZE
  {
    Pad(Le32(ino) + entry[..NAME_KEPT])
  }

  /** The string that starts at the front of s. */
  function CString(s: seq<byte>): (r: seq<byte>)
    ensures |r| <= |s| && r == s[..|r|] && (|r| < |s| ==> s[|r|] == 0)
    ensures forall i :: 0 <= i < |r| ==> r[i] != 0
  {
    if s == [] || s[0] == 0 then [] else [s[0]] + CString(s[1..])
  }

  function ReadIno(block: seq<byte>): nat {
    if |block| < 4 then 0 else FromLe32(block[..4])
  }

  function ReadName(block: seq<byte>): seq<byte> {
    if |block| < 4 + NAME_MAX then [] else CString(block[4..4 + NAME_MAX])
  }

  function Cut(name: seq<byte>): seq<byte> {
    if |name| <= NAME_KEPT then name else name[..NAME_KEPT]
  }

  lemma LittleEndian(v: nat)
    requires v < 0x1_0000_0000
    ensures FromLe32(Le32(v)) == v
  {
    assert v / 65536 == v / 256 / 256;
    assert v / 16777216 == v / 65536 / 256;
  }

  lemma {:induction false} CStringIs(s: seq<byte>, r: seq<byte>)
    requires |r| <= |s| && s[..|r|] == r && (forall i :: 0 <= i < |r| ==> r[i] != 0)
    requires |r| < |s| ==> s[|r|] == 0
    ensures CString(s) == r
  {
    if r != [] {
      assert s[0] == r[0];
      assert s[1..][..|r| - 1] == r[1..];
      CStringIs(s[1..], r[1..]);
    }
  }

  /** An entry reads back as its inode number and its name, cut to 252 bytes, whatever was in the
    * name buffer before; so the name survives exactly when it has at most 252 bytes.
    */
  lemma EntryReadsBack(ino: nat, entry: seq<byte>, name: seq<byte>)
    requires ino < 0x1_0000_0000 && |entry| == 256 && IsName(name)
    ensures var block := EntryBlock(ino, CopyName(entry, name));
            ReadIno(block) == ino && ReadName(block) == Cut(name) && (ReadName(block) == name <==> |name| <= NAME_KEPT)
  {
    var entry' := CopyName(entry, name);
    var block := EntryBlock(ino, entry');
    assert block[..4] == Le32(ino);
    LittleEndian(ino);
    var text := block[4..4 + NAME_MAX];
    var r := Cut(name);
    assert text[..|r|] == r by {
      forall i | 0 <= i < |r| ensures text[i] == r[i] {
        assert text[i] == block[i + 4] == entry'[i];
      }
    }
    assert text[|r|] == 0 by {
      assert text[|r|] == block[|r| + 4];
      assert |r| < NAME_KEPT ==> block[|r| + 4] == entry'[|r|];
    }
    CStringIs(text, r);
  }
}
