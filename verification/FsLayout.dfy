/** The on-disk structures of RelizFS: packed little-endian records and file names. */
module FsLayout {
  import opened Machine

  const MAGIC: U64 := 0x52454C495A4653
  const BLOCK: nat := 512
  const DIRECT: nat := 10
  const MAX_NAME: nat := 27
  const INODE_SIZE: nat := 64
  const ENTRY_SIZE: nat := 32
  /** Directory entries in one block. */
  const ENTRIES: nat := 16

  // ----- little-endian numbers -----

  function Limit(n: nat): (p: nat)
    ensures p >= 1
  {
    if n == 0 then 1 else 256 * Limit(n - 1)
  }

  function Le(x: nat, n: nat): (bs: seq<Byte>)
    ensures |bs| == n
  {
    if n == 0 then [] else [x % 256] + Le(x / 256, n - 1)
  }

  function UnLe(bs: seq<Byte>): (x: nat)
    ensures x < Limit(|bs|)
  {
    if bs == [] then 0 else bs[0] + 256 * UnLe(bs[1..])
  }

  lemma {:induction false} LeThenUnLe(x: nat, n: nat)
    requires x < Limit(n)
    ensures UnLe(Le(x, n)) == x
  {
    if n > 0 {
      LeThenUnLe(x / 256, n - 1);
      assert Le(x, n)[1..] == Le(x / 256, n - 1);
    }
  }

  lemma {:induction false} UnLeThenLe(bs: seq<Byte>)
    ensures Le(UnLe(bs), |bs|) == bs
  {
    if bs != [] {
      UnLeThenLe(bs[1..]);
      assert UnLe(bs) / 256 == UnLe(bs[1..]) && UnLe(bs) % 256 == bs[0];
    }
  }

  lemma Limits()
    ensures Limit(4) == 0x1_0000_0000 && Limit(8) == 0x1_0000_0000_0000_0000
  {
    assert Limit(2) == 0x1_0000;
    assert Limit(6) == 0x1_0000 * Limit(4);
  }

  function Le32(x: U32): (bs: seq<Byte>)
    ensures |bs| == 4
  {
    Le(x, 4)
  }

  function Le64(x: U64): (bs: seq<Byte>)
    ensures |bs| == 8
  {
    Le(x, 8)
  }

  function UnLe32(bs: seq<Byte>): (x: U32)
    requires |bs| == 4
  {
    Limits();
    UnLe(bs)
  }

  function UnLe64(bs: seq<Byte>): (x: U64)
    requires |bs| == 8
  {
    Limits();
    UnLe(bs)
  }

  lemma Codec32(x: U32, bs: seq<Byte>)
    requires |bs| == 4
    ensures UnLe32(Le32(x)) == x && Le32(UnLe32(bs)) == bs
  {
    Limits();
    LeThenUnLe(x, 4);
    UnLeThenLe(bs);
  }

  lemma Codec64(x: U64, bs: seq<Byte>)
    requires |bs| == 8
    ensures UnLe64(Le64(x)) == x && Le64(UnLe64(bs)) == bs
  {
    Limits();
    LeThenUnLe(x, 8);
    UnLeThenLe(bs);
  }

  /** An array of u32. */
  function Words(ws: seq<U32>): (bs: seq<Byte>)
    ensures |bs| == 4 * |ws|
  {
    if ws == [] then [] else Le32(ws[0]) + Words(ws[1..])
  }

  function UnWords(bs: seq<Byte>): (ws: seq<U32>)
    requires |bs| % 4 == 0
    ensures 4 * |ws| == |bs|
  {
    if bs == [] then [] else [UnLe32(bs[..4])] + UnWords(bs[4..])
  }

  lemma {:induction false} WordsThenUnWords(ws: seq<U32>)
    ensures UnWords(Words(ws)) == ws
    decreases |ws|
  {
    if ws != [] {
      WordsThenUnWords(ws[1..]);
      var bs := Words(ws);
      assert bs[..4] == Le32(ws[0]) && bs[4..] == Words(ws[1..]);
      Codec32(ws[0], bs[..4]);
    }
  }

  lemma {:induction false} UnWordsThenWords(bs: seq<Byte>)
    requires |bs| % 4 == 0
    ensures Words(UnWords(bs)) == bs
    decreases |bs|
  {
    if bs != [] {
      UnWordsThenWords(bs[4..]);
      Codec32(0, bs[..4]);
      assert UnWords(bs)[1..] == UnWords(bs[4..]);
      assert bs == bs[..4] + bs[4..];
    }
  }

  // ----- the records -----

  datatype Superblock = Superblock(
    magic: U64, totalBlocks: U32, inodeCount: U32, inodeTableStart: U32, inodeTableBlocks: U32,
    inodeBitmapStart: U32, blockBitmapStart: U32, dataBlocksStart: U32, dataBlocksCount: U32)

  datatype Inode = Inode(
    size: U64, fileType: Byte, flags: Byte, direct: seq<U32>, single: U32, double: U32, reserved: seq<Byte>)
  {
    predicate Shaped() { |direct| == DIRECT && |reserved| == 6 }
    predicate IsFile() { fileType == 1 }
    predicate IsDirectory() { fileType == 2 }
  }

  datatype DirectoryEntry = DirectoryEntry(inodeNum: U32, nameLen: Byte, name: seq<Byte>)
  {
    predicate Shaped() { |name| == MAX_NAME }
  }

  /** 40 bytes: a u64 and eight u32. */
  function EncodeSuperblock(s: Superblock): (bs: seq<Byte>)
    ensures |bs| == 40
  {
    Le64(s.magic)
    + Words([s.totalBlocks, s.inodeCount, s.inodeTableStart, s.inodeTableBlocks,
             s.inodeBitmapStart, s.blockBitmapStart, s.dataBlocksStart, s.dataBlocksCount])
  }

  function DecodeSuperblock(bs: seq<Byte>): Superblock
    requires |bs| == 40
  {
    var w := UnWords(bs[8..]);
    Superblock(UnLe64(bs[..8]), w[0], w[1], w[2], w[3], w[4], w[5], w[6], w[7])
  }

  /** 64 bytes: size at 0, type at 8, flags at 9, ten direct blocks from 10, two indirect blocks
      from 50, padding from 58. */
  function EncodeInode(n: Inode): (bs: seq<Byte>)
    requires n.Shaped()
    ensures |bs| == INODE_SIZE
  {
    Le64(n.size) + [n.fileType, n.flags] + Words(n.direct + [n.single, n.double]) + n.reserved
  }

  function DecodeInode(bs: seq<Byte>): (n: Inode)
    requires |bs| == INODE_SIZE
    ensures n.Shaped()
  {
    var w := UnWords(bs[10..58]);
    Inode(UnLe64(bs[..8]), bs[8], bs[9], w[..10], w[10], w[11], bs[58..])
  }

  /** 32 bytes: inode number at 0, name length at 4, name from 5. */
  function EncodeEntry(e: DirectoryEntry): (bs: seq<Byte>)
    requires e.Shaped()
    ensures |bs| == ENTRY_SIZE
  {
    Le32(e.inodeNum) + [e.nameLen] + e.name
  }

  function DecodeEntry(bs: seq<Byte>): (e: DirectoryEntry)
    requires |bs| == ENTRY_SIZE
    ensures e.Shaped()
  {
    DirectoryEntry(UnLe32(bs[..4]), bs[4], bs[5..])
  }

  lemma SuperblockCodec(s: Superblock, bs: seq<Byte>)
    requires |bs| == 40
    ensures DecodeSuperblock(EncodeSuperblock(s)) == s
    ensures EncodeSuperblock(DecodeSuperblock(bs)) == bs
  {
    var w := [s.totalBlocks, s.inodeCount, s.inodeTableStart, s.inodeTableBlocks,
              s.inodeBitmapStart, s.blockBitmapStart, s.dataBlocksStart, s.dataBlocksCount];
    var e := EncodeSuperblock(s);
    assert e[..8] == Le64(s.magic) && e[8..] == Words(w);
    Codec64(s.magic, bs[..8]);
    WordsThenUnWords(w);
    var v := UnWords(bs[8..]);
    UnWordsThenWords(bs[8..]);
    assert v == [v[0], v[1], v[2], v[3], v[4], v[5], v[6], v[7]];
    assert bs == bs[..8] + bs[8..];
  }

  lemma InodeThenBack(n: Inode)
    requires n.Shaped()
    ensures DecodeInode(EncodeInode(n)) == n
  {
    var w := n.direct + [n.single, n.double];
    var e := EncodeInode(n);
    assert e[..8] == Le64(n.size) && e[8] == n.fileType && e[9] == n.flags;
    assert e[10..58] == Words(w) && e[58..] == n.reserved;
    Codec64(n.size, e[..8]);
    WordsThenUnWords(w);
    assert w[..10] == n.direct;
  }

  lemma InodeFromBytes(bs: seq<Byte>)
    requires |bs| == INODE_SIZE
    ensures EncodeInode(DecodeInode(bs)) == bs
  {
    var w := UnWords(bs[10..58]);
    Codec64(0, bs[..8]);
    UnWordsThenWords(bs[10..58]);
    assert w[..10] + [w[10], w[11]] == w;
    assert bs == bs[..8] + [bs[8], bs[9]] + bs[10..58] + bs[58..];
  }

  lemma EntryCodec(d: DirectoryEntry, bs: seq<Byte>)
    requires d.Shaped() && |bs| == ENTRY_SIZE
    ensures DecodeEntry(EncodeEntry(d)) == d
    ensures EncodeEntry(DecodeEntry(bs)) == bs
  {
    var e := EncodeEntry(d);
    assert e[..4] == Le32(d.inodeNum) && e[4] == d.nameLen && e[5..] == d.name;
    Codec32(d.inodeNum, bs[..4]);
    assert bs == bs[..4] + [bs[4]] + bs[5..];
  }

  /** The 32-bit number in four bytes, least significant first. */
  function Number(bs: seq<Byte>, at: nat): nat
    requires at + 4 <= |bs|
  {
    var b0: int, b1: int, b2: int, b3: int := bs[at], bs[at + 1], bs[at + 2], bs[at + 3];
    b0 + 0x100 * b1 + 0x1_0000 * b2 + 0x100_0000 * b3
  }

  /** The first four bytes, and what counts above them. */
  lemma FourBytes(bs: seq<Byte>)
    requires |bs| >= 4
    ensures UnLe(bs) == Number(bs, 0) + 0x1_0000_0000 * UnLe(bs[4..])
  {
    OneByte(bs, 0);
    OneByte(bs, 1);
    OneByte(bs, 2);
    OneByte(bs, 3);
    assert bs[0..] == bs;
  }

  lemma OneByte(bs: seq<Byte>, k: nat)
    requires k < |bs|
    ensures UnLe(bs[k..]) == bs[k] as int + 256 * UnLe(bs[k + 1..])
  {
    assert bs[k..][1..] == bs[k + 1..];
  }

  lemma UnLe32Is(bs: seq<Byte>)
    requires |bs| == 4
    ensures UnLe32(bs) == Number(bs, 0)
  {
    FourBytes(bs);
  }

  lemma UnLe64Is(bs: seq<Byte>)
    requires |bs| == 8
    ensures UnLe64(bs) == Number(bs, 0) + 0x1_0000_0000 * Number(bs, 4)
  {
    FourBytes(bs);
    FourBytes(bs[4..]);
    assert bs[4..][4..] == [];
  }

  lemma {:induction false} UnWordsAt(bs: seq<Byte>, k: nat)
    requires |bs| % 4 == 0 && k < |bs| / 4
    ensures UnWords(bs)[k] == Number(bs, 4 * k)
    decreases k
  {
    if k == 0 {
      UnLe32Is(bs[..4]);
    } else {
      UnWordsAt(bs[4..], k - 1);
    }
  }

  /** Where each number of a superblock lies in its sector. */
  lemma SuperblockOffsets(bs: seq<Byte>)
    requires |bs| == 40
    ensures var s := DecodeSuperblock(bs);
            && s.magic == Number(bs, 0) + 0x1_0000_0000 * Number(bs, 4)
            && s.totalBlocks == Number(bs, 8) && s.inodeCount == Number(bs, 12)
            && s.inodeTableStart == Number(bs, 16) && s.inodeTableBlocks == Number(bs, 20)
            && s.inodeBitmapStart == Number(bs, 24) && s.blockBitmapStart == Number(bs, 28)
            && s.dataBlocksStart == Number(bs, 32) && s.dataBlocksCount == Number(bs, 36)
  {
    hide UnWords, UnLe64;
    UnLe64Is(bs[..8]);
    forall k | 0 <= k < 8 ensures UnWords(bs[8..])[k] == Number(bs, 8 + 4 * k) {
      UnWordsAt(bs[8..], k);
    }
    var w := UnWords(bs[8..]);
    assert w[0] == Number(bs, 8 + 4 * 0) && w[1] == Number(bs, 8 + 4 * 1) && w[2] == Number(bs, 8 + 4 * 2);
    assert w[3] == Number(bs, 8 + 4 * 3) && w[4] == Number(bs, 8 + 4 * 4) && w[5] == Number(bs, 8 + 4 * 5);
    assert w[6] == Number(bs, 8 + 4 * 6) && w[7] == Number(bs, 8 + 4 * 7);
  }

  /** Where each number of an inode lies in its 64 bytes. */
  lemma InodeOffsets(bs: seq<Byte>)
    requires |bs| == 64
    ensures var n := DecodeInode(bs);
            && n.size == Number(bs, 0) + 0x1_0000_0000 * Number(bs, 4) && n.fileType == bs[8] && n.flags == bs[9]
            && |n.direct| == 10 && (forall k :: 0 <= k < 10 ==> n.direct[k] == Number(bs, 10 + 4 * k))
            && n.single == Number(bs, 50) && n.double == Number(bs, 54) && n.reserved == bs[58..]
  {
    hide UnWords, UnLe64;
    UnLe64Is(bs[..8]);
    forall k | 0 <= k < 12 ensures UnWords(bs[10..58])[k] == Number(bs, 10 + 4 * k) {
      UnWordsAt(bs[10..58], k);
    }
    var w := UnWords(bs[10..58]);
    assert w[10] == Number(bs, 10 + 4 * 10) && w[11] == Number(bs, 10 + 4 * 11);
  }

  /** Where the parts of a directory entry lie in its 32 bytes. */
  lemma EntryOffsets(bs: seq<Byte>)
    requires |bs| == 32
    ensures var e := DecodeEntry(bs);
            e.inodeNum == Number(bs, 0) && e.nameLen == bs[4] && e.name == bs[5..] && |e.name| == 27
  {
    UnLe32Is(bs[..4]);
  }

  // ----- names -----

  predicate Between(b: Byte, lo: nat, hi: nat) {
    lo <= b <= hi
  }

  /** Well-formed UTF-8 (Table 3-7 of the Unicode Standard), as `core::str::from_utf8` accepts. */
  predicate Utf8(s: seq<Byte>) {
    if s == [] then true
    else if s[0] < 0x80 then Utf8(s[1..])
    else if |s| >= 2 && Between(s[0], 0xC2, 0xDF) && Between(s[1], 0x80, 0xBF) then Utf8(s[2..])
    else if |s| >= 3 && Between(s[0], 0xE0, 0xEF)
         && Between(s[1], if s[0] == 0xE0 then 0xA0 else 0x80, if s[0] == 0xED then 0x9F else 0xBF)
         && Between(s[2], 0x80, 0xBF) then Utf8(s[3..])
    else |s| >= 4 && Between(s[0], 0xF0, 0xF4)
         && Between(s[1], if s[0] == 0xF0 then 0x90 else 0x80, if s[0] == 0xF4 then 0x8F else 0xBF)
         && Between(s[2], 0x80, 0xBF) && Between(s[3], 0x80, 0xBF) && Utf8(s[4..])
  }

  function Zeros(n: nat): (s: seq<Byte>)
    ensures |s| == n && forall i :: 0 <= i < n ==> s[i] == 0
  {
    seq(n, _ => 0)
  }

  /** `DirectoryEntry::new`: a name longer than 27 bytes is cut. */
  function NewEntry(inodeNum: U32, name: seq<Byte>): (e: DirectoryEntry)
    ensures e.Shaped()
  {
    var len := Min(|name|, MAX_NAME);
    DirectoryEntry(inodeNum, len, name[..len] + Zeros(MAX_NAME - len))
  }

  /** A new entry has the length and the first 27 bytes of its name, and zeros behind it. */
  lemma NewEntryHolds(inodeNum: U32, name: seq<Byte>)
    ensures var e := NewEntry(inodeNum, name);
            && e.inodeNum == inodeNum && e.nameLen == (if |name| <= 27 then |name| else 27) && |e.name| == 27
            && forall k :: 0 <= k < 27 ==> e.name[k] == if k < |name| then name[k] else 0
  {
    var len := Min(|name|, MAX_NAME);
    assert NewEntry(inodeNum, name).name == name[..len] + Zeros(MAX_NAME - len);
  }

  /** The bytes that `get_name` decodes. */
  function NameBytes(e: DirectoryEntry): seq<Byte>
    requires e.Shaped()
  {
    e.name[..Min(e.nameLen, MAX_NAME)]
  }

  function GetName(e: DirectoryEntry): Option<seq<Byte>>
    requires e.Shaped()
  {
    if Utf8(NameBytes(e)) then Some(NameBytes(e)) else None
  }

  /** A name comes back from its entry exactly when it fits. */
  lemma NameFits(inodeNum: U32, name: seq<Byte>)
    requires Utf8(name)
    ensures GetName(NewEntry(inodeNum, name)) == Some(name) <==> |name| <= MAX_NAME
  {
    var e := NewEntry(inodeNum, name);
    assert NameBytes(e) == name[..Min(|name|, MAX_NAME)];
    if |name| <= MAX_NAME {
      assert name[..|name|] == name;
    }
  }
}
