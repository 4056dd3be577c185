/** The formatter: the writes that put an empty volume with one file on a disk image, and the round
    trip through the kernel's reader and the FS server. */
module FsFormat {
  import opened Machine
  import opened FsLayout
  import opened FsReader
  import opened FsServer

  const TOTAL_BLOCKS := 4096
  const INODE_COUNT := 64
  const TABLE_START := 3
  const TABLE_BLOCKS := 8
  const INODE_BITMAP := 11
  const BLOCK_BITMAP := 12
  const DATA_START := 13

  function NewSuperblock(): Superblock {
    Superblock(MAGIC, TOTAL_BLOCKS, INODE_COUNT, TABLE_START, TABLE_BLOCKS, INODE_BITMAP, BLOCK_BITMAP,
               DATA_START, TOTAL_BLOCKS - DATA_START)
  }

  /** An inode of one data block, its `k`-th. */
  function OneBlockInode(size: U64, fileType: Byte, k: nat): (n: Inode)
    requires k < 100
    ensures n.Shaped()
  {
    var none: seq<U32> := seq(DIRECT - 1, _ => 0);
    Inode(size, fileType, 0, [DATA_START + k] + none, 0, 0, Zeros(6))
  }

  function RootInode(): (n: Inode)
    ensures n.Shaped()
  {
    OneBlockInode(BLOCK, 2, 0)
  }

  function FileInode(size: U64): (n: Inode)
    ensures n.Shaped()
  {
    OneBlockInode(size, 1, 1)
  }

  function BitmapBlock(): (s: seq<Byte>)
    ensures |s| == BLOCK
  {
    [0x03] + Zeros(BLOCK - 1)
  }

  function DirBlock(name: seq<Byte>): (s: seq<Byte>)
    ensures |s| == BLOCK
  {
    EncodeEntry(NewEntry(0, DOT)) + EncodeEntry(NewEntry(0, DOTDOT)) + EncodeEntry(NewEntry(1, name))
    + Zeros(BLOCK - 3 * ENTRY_SIZE)
  }

  function FileBlock(content: seq<Byte>): (s: seq<Byte>)
    requires |content| <= BLOCK
    ensures |s| == BLOCK
  {
    content + Zeros(BLOCK - |content|)
  }

  // ----- the image file -----

  /** Writing `data` at byte `at` of a file; a gap past the end reads as zeros. */
  function Overwrite(bytes: seq<Byte>, at: nat, data: seq<Byte>): (s: seq<Byte>)
    ensures |s| == if |bytes| < at + |data| then at + |data| else |bytes|
    ensures forall i :: at <= i < at + |data| ==> s[i] == data[i - at]
    ensures forall i :: 0 <= i < |s| && !(at <= i < at + |data|) ==> s[i] == if i < |bytes| then bytes[i] else 0
  {
    var n := if |bytes| < at + |data| then at + |data| else |bytes|;
    seq(n, i requires 0 <= i < n => if at <= i < at + |data| then data[i - at] else if i < |bytes| then bytes[i] else 0)
  }

  /** `data`, `at` bytes into the partition. */
  datatype Write = Write(at: nat, data: seq<Byte>)

  function Sized(bytes: seq<Byte>, n: nat): (s: seq<Byte>)
    ensures |s| == if |bytes| < n then n else |bytes|
    ensures forall i :: 0 <= i < |s| ==> s[i] == if i < |bytes| then bytes[i] else 0
  {
    bytes + Zeros(if |bytes| < n then n - |bytes| else 0)
  }

  function Applied(bytes: seq<Byte>, base: nat, ws: seq<Write>): seq<Byte>
    decreases |ws|
  {
    if ws == [] then bytes
    else
      var w := ws[|ws| - 1];
      Overwrite(Applied(bytes, base, ws[..|ws| - 1]), base + w.at, w.data)
  }

  function SuperblockRegion(): Write { Write(2 * BLOCK, EncodeSuperblock(NewSuperblock())) }

  function InodeBitmapRegion(): Write { Write(INODE_BITMAP * BLOCK, BitmapBlock()) }

  function BlockBitmapRegion(): Write { Write(BLOCK_BITMAP * BLOCK, BitmapBlock()) }

  function RootRegion(): Write { Write(TABLE_START * BLOCK, EncodeInode(RootInode())) }

  function FileInodeRegion(size: U64): Write { Write(TABLE_START * BLOCK + INODE_SIZE, EncodeInode(FileInode(size))) }

  function DirRegion(name: seq<Byte>): Write { Write(DATA_START * BLOCK, DirBlock(name)) }

  function FileRegion(content: seq<Byte>): Write
    requires |content| <= BLOCK
  {
    Write((DATA_START + 1) * BLOCK, FileBlock(content))
  }

  /** The regions of a new volume, in the order the formatter writes them. */
  function Layout(name: seq<Byte>, content: seq<Byte>): (ws: seq<Write>)
    requires |content| <= BLOCK
    ensures |ws| == 7
  {
    [SuperblockRegion(), InodeBitmapRegion(), BlockBitmapRegion(),
     RootRegion(), FileInodeRegion(|content|), DirRegion(name), FileRegion(content)]
  }

  lemma InLayout(name: seq<Byte>, content: seq<Byte>)
    requires |content| <= BLOCK
    ensures var ws := Layout(name, content);
            SuperblockRegion() in ws && InodeBitmapRegion() in ws && BlockBitmapRegion() in ws && RootRegion() in ws
            && FileInodeRegion(|content|) in ws && DirRegion(name) in ws && FileRegion(content) in ws
  {
    hide SuperblockRegion, InodeBitmapRegion, BlockBitmapRegion, RootRegion, FileInodeRegion, DirRegion, FileRegion;
    var ws := Layout(name, content);
    assert ws[0] in ws && ws[1] in ws && ws[2] in ws && ws[3] in ws && ws[4] in ws && ws[5] in ws && ws[6] in ws;
  }

  predicate Apart(v: Write, w: Write) {
    v.at + |v.data| <= w.at || w.at + |w.data| <= v.at
  }

  /** The regions do not overlap and lie within the partition, past its two reserved sectors. */
  lemma RegionsApart(name: seq<Byte>, content: seq<Byte>)
    requires |content| <= BLOCK
    ensures var ws := Layout(name, content);
            (forall i, j :: 0 <= i < j < |ws| ==> Apart(ws[i], ws[j]))
            && forall i :: 0 <= i < |ws| ==>
                 2 * BLOCK <= ws[i].at && ws[i].at + |ws[i].data| <= (DATA_START + 2) * BLOCK
  {
    hide EncodeSuperblock, EncodeInode, DirBlock, FileBlock, BitmapBlock;
  }

  /** Byte `p` of the image belongs to one of the writes. */
  predicate Covered(p: nat, base: nat, ws: seq<Write>) {
    exists i :: 0 <= i < |ws| && base + ws[i].at <= p < base + ws[i].at + |ws[i].data|
  }

  /** Writes to disjoint regions: each region holds its data at the end, whatever the order, and no
      other byte changes. */
  lemma {:induction false} AppliedMeans(bytes: seq<Byte>, base: nat, ws: seq<Write>)
    requires forall i, j :: 0 <= i < j < |ws| ==> Apart(ws[i], ws[j])
    requires forall i :: 0 <= i < |ws| ==> base + ws[i].at + |ws[i].data| <= |bytes|
    ensures var out := Applied(bytes, base, ws);
            |out| == |bytes|
            && (forall i, p :: 0 <= i < |ws| && base + ws[i].at <= p < base + ws[i].at + |ws[i].data| ==>
                  out[p] == ws[i].data[p - base - ws[i].at])
            && (forall p :: 0 <= p < |bytes| && !Covered(p, base, ws) ==> out[p] == bytes[p])
    decreases |ws|
  {
    if ws != [] {
      var n := |ws| - 1;
      AppliedMeans(bytes, base, ws[..n]);
      var mid, out := Applied(bytes, base, ws[..n]), Applied(bytes, base, ws);
      forall i, p | 0 <= i < |ws| && base + ws[i].at <= p < base + ws[i].at + |ws[i].data|
        ensures out[p] == ws[i].data[p - base - ws[i].at]
      {
        if i < n {
          assert ws[..n][i] == ws[i] && Apart(ws[i], ws[n]);
        }
      }
      forall p | 0 <= p < |bytes| && !Covered(p, base, ws) ensures out[p] == bytes[p] {
        CoveredPrefix(p, base, ws, n);
      }
    }
  }

  lemma CoveredPrefix(p: nat, base: nat, ws: seq<Write>, n: nat)
    requires n <= |ws|
    ensures Covered(p, base, ws[..n]) ==> Covered(p, base, ws)
  {
    if i :| 0 <= i < n && base + ws[..n][i].at <= p < base + ws[..n][i].at + |ws[..n][i].data| {
      assert ws[i] == ws[..n][i];
    }
  }

  predicate Has(bytes: seq<Byte>, base: nat, w: Write) {
    base + w.at + |w.data| <= |bytes| && bytes[base + w.at..base + w.at + |w.data|] == w.data
  }

  /** What the formatter leaves behind: the image is long enough, every region holds its data, and
      every other byte is what it was, or zero where there was none. */
  ghost predicate Formatted(before: seq<Byte>, after: seq<Byte>, offset: nat, name: seq<Byte>, content: seq<Byte>) {
    |content| <= BLOCK
    && |after| == (if |before| < (offset + TOTAL_BLOCKS) * BLOCK then (offset + TOTAL_BLOCKS) * BLOCK else |before|)
    && (forall w :: w in Layout(name, content) ==> Has(after, offset * BLOCK, w))
    && (forall p :: 0 <= p < |after| && !Covered(p, offset * BLOCK, Layout(name, content)) ==>
          after[p] == if p < |before| then before[p] else 0)
  }

  lemma AppliedIsFormatted(before: seq<Byte>, offset: nat, name: seq<Byte>, content: seq<Byte>)
    requires |content| <= BLOCK
    ensures var sized := Sized(before, (offset + TOTAL_BLOCKS) * BLOCK);
            Formatted(before, Applied(sized, offset * BLOCK, Layout(name, content)), offset, name, content)
  {
    hide Layout, Applied, Covered, Has;
    RegionsApart(name, content);
    var base, ws := offset * BLOCK, Layout(name, content);
    var sized := Sized(before, (offset + TOTAL_BLOCKS) * BLOCK);
    AppliedHas(sized, base, ws);
  }

  lemma AppliedHas(bytes: seq<Byte>, base: nat, ws: seq<Write>)
    requires forall i, j :: 0 <= i < j < |ws| ==> Apart(ws[i], ws[j])
    requires forall i :: 0 <= i < |ws| ==> base + ws[i].at + |ws[i].data| <= |bytes|
    ensures var out := Applied(bytes, base, ws);
            |out| == |bytes|
            && (forall w :: w in ws ==> Has(out, base, w))
            && forall p :: 0 <= p < |bytes| && !Covered(p, base, ws) ==> out[p] == bytes[p]
  {
    hide Applied, Covered, Has;
    AppliedMeans(bytes, base, ws);
    var out := Applied(bytes, base, ws);
    forall w | w in ws ensures Has(out, base, w) {
      var i :| 0 <= i < |ws| && ws[i] == w;
      HasAll(out, base, ws[i]);
    }
  }

  lemma HasAll(bytes: seq<Byte>, base: nat, w: Write)
    requires base + w.at + |w.data| <= |bytes|
    requires forall p :: base + w.at <= p < base + w.at + |w.data| ==> bytes[p] == w.data[p - base - w.at]
    ensures Has(bytes, base, w)
  {
    var part := bytes[base + w.at..base + w.at + |w.data|];
    forall k | 0 <= k < |w.data| ensures part[k] == w.data[k] {
      assert part[k] == bytes[base + w.at + k];
    }
  }

  class DiskImage {
    var bytes: seq<Byte>
    var pos: nat

    method SetLen(n: nat)
      requires |bytes| <= n
      modifies this`bytes
      ensures bytes == Sized(old(bytes), n)
    {
      bytes := bytes + Zeros(n - |bytes|);
    }

    method Seek(at: nat)
      modifies this`pos
      ensures pos == at
    {
      pos := at;
    }

    method WriteAll(data: seq<Byte>)
      modifies this
      ensures bytes == Overwrite(old(bytes), old(pos), data) && pos == old(pos) + |data|
    {
      bytes := Overwrite(bytes, pos, data);
      pos := pos + |data|;
    }

    /** Write number `k` of the layout, the earlier ones done. */
    method WriteRegion(data: seq<Byte>, ghost start: seq<Byte>, ghost base: nat, ghost ws: seq<Write>, ghost k: nat)
      requires k < |ws| && bytes == Applied(start, base, ws[..k]) && pos == base + ws[k].at && data == ws[k].data
      modifies this
      ensures bytes == Applied(start, base, ws[..k + 1]) && pos == old(pos) + |data|
    {
      WriteAll(data);
      assert ws[..k + 1][..k] == ws[..k];
    }

    /** Steps 1 to 4: superblock, both bitmaps, the two inodes. */
    method WriteMetadata(offset: nat, size: U64, ghost name: seq<Byte>, ghost content: seq<Byte>)
      requires |content| <= BLOCK && size == |content|
      modifies this
      ensures bytes == Applied(old(bytes), offset * BLOCK, Layout(name, content)[..5])
    {
      hide EncodeSuperblock, EncodeInode, BitmapBlock, Overwrite, Applied, NewSuperblock, RootInode, FileInode,
          DirRegion, FileRegion;
      ghost var start, base, ws := bytes, offset * BLOCK, Layout(name, content);
      NothingApplied(start, base, ws);
      Seek((offset + 2) * BLOCK);
      WriteRegion(EncodeSuperblock(NewSuperblock()), start, base, ws, 0);
      Seek((offset + INODE_BITMAP) * BLOCK);
      WriteRegion(BitmapBlock(), start, base, ws, 1);
      Seek((offset + BLOCK_BITMAP) * BLOCK);
      WriteRegion(BitmapBlock(), start, base, ws, 2);
      Seek((offset + TABLE_START) * BLOCK);
      WriteRegion(EncodeInode(RootInode()), start, base, ws, 3);
      WriteRegion(EncodeInode(FileInode(size)), start, base, ws, 4);
    }

    /** The formatter, for a file of any name and at most one block of contents. */
    method Format(offset: nat, name: seq<Byte>, content: seq<Byte>)
      requires |content| <= BLOCK
      modifies this
      ensures Formatted(old(bytes), bytes, offset, name, content)
    {
      hide Formatted, EncodeSuperblock, EncodeInode, EncodeEntry, BitmapBlock, Overwrite, Sized, Applied,
        NewSuperblock, RootInode, FileInode, NewEntry, Zeros,
        SuperblockRegion, InodeBitmapRegion, BlockBitmapRegion, RootRegion, FileInodeRegion;
      AppliedIsFormatted(bytes, offset, name, content);
      var required := (offset + TOTAL_BLOCKS) * BLOCK;
      if |bytes| < required {
        SetLen(required);
      } else {
        SizedEnough(bytes, required);
      }
      ghost var start, base, ws := bytes, offset * BLOCK, Layout(name, content);
      WriteMetadata(offset, |content|, name, content);
      var entries := EncodeEntry(NewEntry(0, DOT)) + EncodeEntry(NewEntry(0, DOTDOT)) + EncodeEntry(NewEntry(1, name));
      Seek((offset + DATA_START) * BLOCK);
      WriteRegion(entries + Zeros(BLOCK - |entries|), start, base, ws, 5);
      Seek((offset + DATA_START + 1) * BLOCK);
      WriteRegion(content + Zeros(BLOCK - |content|), start, base, ws, 6);
      assert ws[..7] == ws;
    }
  }

  lemma NothingApplied(start: seq<Byte>, base: nat, ws: seq<Write>)
    ensures Applied(start, base, ws[..0]) == start
  {
  }

  lemma SizedEnough(bytes: seq<Byte>, n: nat)
    requires |bytes| >= n
    ensures Sized(bytes, n) == bytes
  {
  }

  // ----- the round trip -----

  /** A drive holding a formatted image at partition sector `offset`, whose four metadata and data
      sectors can be read. */
  ghost predicate OnDrive(d: Drive, before: seq<Byte>, offset: nat, name: seq<Byte>, content: seq<Byte>) {
    |content| <= BLOCK && Formatted(before, d.bytes, offset, name, content)
    && |d.bytes| >= (offset + TOTAL_BLOCKS) * BLOCK && offset + DATA_START + 2 <= LBA28
    && offset + 2 !in d.bad && offset + TABLE_START !in d.bad
    && offset + DATA_START !in d.bad && offset + DATA_START + 1 !in d.bad
  }

  lemma RegionsHeld(before: seq<Byte>, after: seq<Byte>, offset: nat, name: seq<Byte>, content: seq<Byte>)
    requires |content| <= BLOCK && Formatted(before, after, offset, name, content)
    ensures Has(after, offset * BLOCK, SuperblockRegion()) && Has(after, offset * BLOCK, InodeBitmapRegion())
    ensures Has(after, offset * BLOCK, BlockBitmapRegion()) && Has(after, offset * BLOCK, RootRegion())
    ensures Has(after, offset * BLOCK, FileInodeRegion(|content|)) && Has(after, offset * BLOCK, DirRegion(name))
    ensures Has(after, offset * BLOCK, FileRegion(content))
  {
    hide Layout, Has, Covered, SuperblockRegion, InodeBitmapRegion, BlockBitmapRegion, RootRegion, FileInodeRegion,
        DirRegion, FileRegion;
    InLayout(name, content);
  }

  /** A region of the layout, read back through the sector that holds it. */
  lemma RegionReadsBack(d: Drive, offset: nat, w: Write, s: nat, from: nat)
    requires Has(d.bytes, offset * BLOCK, w) && offset + s < LBA28 && offset + s !in d.bad
        && |d.bytes| >= BLOCK * (offset + s) + BLOCK
    requires w.at == BLOCK * s + from && from + |w.data| <= BLOCK
    ensures SectorAt(d, offset, s).Ok? && SectorAt(d, offset, s).value[from..from + |w.data|] == w.data
  {
    assert (offset + s) % U32_RANGE == offset + s && (offset + s) % LBA28 == offset + s;
    var at := offset * BLOCK + w.at;
    assert at == BLOCK * (offset + s) + from;
    var sector := d.bytes[BLOCK * (offset + s)..BLOCK * (offset + s) + BLOCK];
    assert SectorAt(d, offset, s) == Ok(sector);
    Inner(d.bytes, BLOCK * (offset + s), BLOCK, from, |w.data|);
  }

  lemma FormatMounts(d: Drive, before: seq<Byte>, offset: nat, name: seq<Byte>, content: seq<Byte>)
    requires OnDrive(d, before, offset, name, content)
    ensures Mount(d, offset) == Ok(NewSuperblock())
  {
    hide Formatted, Layout, SectorAt, EncodeSuperblock, DecodeSuperblock, Covered, Has, InodeBitmapRegion,
        BlockBitmapRegion, RootRegion, FileInodeRegion, DirRegion, FileRegion;
    RegionsHeld(before, d.bytes, offset, name, content);
    RegionReadsBack(d, offset, SuperblockRegion(), 2, 0);
    SuperblockCodec(NewSuperblock(), Zeros(40));
  }

  lemma FormatInodes(d: Drive, before: seq<Byte>, offset: nat, name: seq<Byte>, content: seq<Byte>)
    requires OnDrive(d, before, offset, name, content)
    ensures InodeAt(d, offset, NewSuperblock(), 0) == Ok(RootInode())
    ensures InodeAt(d, offset, NewSuperblock(), 1) == Ok(FileInode(|content|))
  {
    hide Formatted, Layout, SectorAt, EncodeInode, DecodeInode, Covered, Has, RootInode, FileInode,
        SuperblockRegion, InodeBitmapRegion, BlockBitmapRegion, DirRegion, FileRegion;
    RegionsHeld(before, d.bytes, offset, name, content);
    RegionReadsBack(d, offset, RootRegion(), TABLE_START, 0);
    RegionReadsBack(d, offset, FileInodeRegion(|content|), TABLE_START, INODE_SIZE);
    InodeThenBack(RootInode());
    InodeThenBack(FileInode(|content|));
    assert InodeSector(NewSuperblock(), 0) == TABLE_START && InodeSector(NewSuperblock(), 1) == TABLE_START;
  }

  /** The sixteen slots of the new directory block. */
  lemma DirSlots(name: seq<Byte>)
    ensures EntryIn(DirBlock(name), 0) == NewEntry(0, DOT)
    ensures EntryIn(DirBlock(name), 1) == NewEntry(0, DOTDOT)
    ensures EntryIn(DirBlock(name), 2) == NewEntry(1, name)
    ensures forall i :: 3 <= i < ENTRIES ==> !Live(EntryIn(DirBlock(name), i))
  {
    hide EncodeEntry, DecodeEntry, NewEntry, EntryIn, Zeros;
    var b := DirBlock(name);
    EmptyEntry();
    assert b[0..ENTRY_SIZE] == EncodeEntry(NewEntry(0, DOT));
    Slot(b, 0, NewEntry(0, DOT));
    assert b[ENTRY_SIZE..2 * ENTRY_SIZE] == EncodeEntry(NewEntry(0, DOTDOT));
    Slot(b, 1, NewEntry(0, DOTDOT));
    assert b[2 * ENTRY_SIZE..3 * ENTRY_SIZE] == EncodeEntry(NewEntry(1, name));
    Slot(b, 2, NewEntry(1, name));
    forall i | 3 <= i < ENTRIES ensures !Live(EntryIn(b, i)) {
      assert b[i * ENTRY_SIZE..i * ENTRY_SIZE + ENTRY_SIZE] == Zeros(ENTRY_SIZE);
      Slot(b, i, DirectoryEntry(0, 0, Zeros(MAX_NAME)));
    }
  }

  lemma Slot(b: seq<Byte>, i: nat, e: DirectoryEntry)
    requires |b| == BLOCK && i < ENTRIES && e.Shaped()
        && b[i * ENTRY_SIZE..i * ENTRY_SIZE + ENTRY_SIZE] == EncodeEntry(e)
    ensures EntryIn(b, i) == e
  {
    hide EncodeEntry, DecodeEntry;
    EntryCodec(e, EncodeEntry(e));
  }

  lemma EmptyEntry()
    ensures EncodeEntry(DirectoryEntry(0, 0, Zeros(MAX_NAME))) == Zeros(ENTRY_SIZE)
  {
    assert Le(0, 4) == [0, 0, 0, 0];
  }

  lemma DotNames()
    ensures NameBytes(NewEntry(0, DOT)) == DOT && Utf8(DOT)
    ensures NameBytes(NewEntry(0, DOTDOT)) == DOTDOT && Utf8(DOTDOT)
  {
    assert DOTDOT[1..] == DOT && DOT[1..] == [];
    assert Utf8(DOT);
  }

  /** Looking up any name in the new directory. */
  function Lookup(name: seq<Byte>, wanted: seq<Byte>): Result<U32> {
    if wanted == DOT || wanted == DOTDOT then Ok(0)
    else if GetName(NewEntry(1, name)) == Some(wanted) then Ok(1)
    else Err(FileNotFound)
  }

  lemma FormatDirectory(d: Drive, before: seq<Byte>, offset: nat, name: seq<Byte>, content: seq<Byte>,
      wanted: seq<Byte>)
    requires OnDrive(d, before, offset, name, content)
    ensures SectorAt(d, offset, DATA_START) == Ok(DirBlock(name))
    ensures FindEntry(d, offset, RootInode(), wanted) == Lookup(name, wanted)
  {
    hide Formatted, Layout, SectorAt, EncodeEntry, DecodeEntry, NewEntry, EntryIn, DirBlock, NameBytes, Utf8,
        Covered, Has, SuperblockRegion, InodeBitmapRegion, BlockBitmapRegion, RootRegion, FileInodeRegion, FileRegion;
    RegionsHeld(before, d.bytes, offset, name, content);
    RegionReadsBack(d, offset, DirRegion(name), DATA_START, 0);
    var sector := SectorAt(d, offset, DATA_START).value;
    var dir := DirBlock(name);
    assert sector == sector[0..BLOCK] == dir;
    FindInRoot(d, offset, RootInode(), wanted);
    DirSlots(name);
    DotNames();
    var k := FirstMatch(dir, wanted, 0);
    assert k <= 2 || k == ENTRIES;
    assert wanted == DOT ==> Matches(EntryIn(dir, 0), wanted) by { LiveNames(name); }
    assert wanted == DOTDOT ==> Matches(EntryIn(dir, 1), wanted) by { LiveNames(name); }
    assert GetName(NewEntry(1, name)) == Some(wanted) ==> Matches(EntryIn(dir, 2), wanted) by { LiveNames(name); }
    LiveNames(name);
  }

  lemma LiveNames(name: seq<Byte>)
    ensures NewEntry(0, DOT).inodeNum == 0 && NewEntry(0, DOT).nameLen == 1
    ensures NewEntry(0, DOTDOT).inodeNum == 0 && NewEntry(0, DOTDOT).nameLen == 2
    ensures NewEntry(1, name).inodeNum == 1
  {
  }

  lemma FormatContents(d: Drive, before: seq<Byte>, offset: nat, name: seq<Byte>, content: seq<Byte>, cap: nat)
    requires OnDrive(d, before, offset, name, content)
    ensures FileBytes(d, offset, FileInode(|content|), cap) == Ok(content[..Min(|content|, cap)])
    ensures SectorAt(d, offset, DATA_START + 1) == Ok(FileBlock(content))
  {
    hide Formatted, Layout, SectorAt, Covered, Has, SuperblockRegion, InodeBitmapRegion, BlockBitmapRegion,
        RootRegion, FileInodeRegion, DirRegion;
    RegionsHeld(before, d.bytes, offset, name, content);
    RegionReadsBack(d, offset, FileRegion(content), DATA_START + 1, 0);
    var sector := SectorAt(d, offset, DATA_START + 1).value;
    assert sector == sector[0..BLOCK] == FileBlock(content);
    OneBlockFile(d, offset, FileInode(|content|), cap);
    assert FileBlock(content)[..Min(|content|, cap)] == content[..Min(|content|, cap)];
  }

  /** Format, mount, look up, read: on any earlier disk contents and at any partition offset, the
      reader gets back exactly the bytes that were put in, cut to the caller's room, for exactly the
      names that fit an entry and are not "." or "..". */
  lemma RoundTrip(d: Drive, before: seq<Byte>, offset: nat, name: seq<Byte>, content: seq<Byte>, cap: nat)
    requires OnDrive(d, before, offset, name, content) && Utf8(name)
    ensures var r := ReadByName(d, offset, name, cap);
            if |name| <= MAX_NAME && name != DOT && name != DOTDOT then r == Ok(content[..Min(|content|, cap)])
            else r.Err?
  {
    hide Formatted, Layout, Mount, InodeAt, FindEntry, FileBytes, NewEntry, GetName, Covered, Has, RootInode,
        FileInode, NewSuperblock;
    RootIsDirectory();
    RootIsNoFile(d, offset, RootInode(), cap);
    FormatMounts(d, before, offset, name, content);
    FormatInodes(d, before, offset, name, content);
    FormatDirectory(d, before, offset, name, content, name);
    FormatContents(d, before, offset, name, content, cap);
    NameFits(1, name);
  }

  /** A formatted volume is one the FS server was written for, so the server gives the same bytes. */
  lemma FormatThenServe(d: Drive, before: seq<Byte>, offset: nat, name: seq<Byte>, content: seq<Byte>,
      mem: seq<Byte>, cap: nat)
    requires OnDrive(d, before, offset, name, content) && Utf8(name) && Holds(mem, name)
    requires name != [] && |name| <= MAX_NAME && name != DOT && name != DOTDOT
    ensures ServeName(d, offset, TargetName(mem[..NameEnd(mem, 0)]), cap) == Bytes(content[..Min(|content|, cap)])
  {
    hide Formatted, PlainFor, FitsBuffer, Layout, ReadByName, ServeName, Covered, Has;
    FormatIsPlain(d, before, offset, name, content, cap);
    RoundTrip(d, before, offset, name, content, cap);
    ServerAgreesWithReader(d, offset, name, mem, cap);
  }

  lemma RootIsDirectory()
    ensures RootInode().IsDirectory() && RootInode().direct[0] == DATA_START
    ensures forall i :: 1 <= i < DIRECT ==> RootInode().direct[i] == 0
  {
  }

  /** The new directory as a search sees it: the file's name is found in slot 2. */
  lemma NewDirectoryEntry(name: seq<Byte>)
    requires Utf8(name) && |name| <= MAX_NAME && name != DOT && name != DOTDOT
    ensures FirstMatch(DirBlock(name), name, 0) == 2 && EntryIn(DirBlock(name), 2).inodeNum == 1
  {
    hide NewEntry, EntryIn, DirBlock, NameBytes, Utf8;
    DirSlots(name);
    DotNames();
    LiveNames(name);
    NameFits(1, name);
    var k := FirstMatch(DirBlock(name), name, 0);
    assert Matches(EntryIn(DirBlock(name), 2), name);
    assert k == 0 || k == 1 || k == 2;
  }

  lemma FormatIsPlain(d: Drive, before: seq<Byte>, offset: nat, name: seq<Byte>, content: seq<Byte>, cap: nat)
    requires OnDrive(d, before, offset, name, content) && Utf8(name)
    requires |name| <= MAX_NAME && name != DOT && name != DOTDOT
    ensures PlainFor(d, offset, name) && FitsBuffer(d, offset, name, cap)
  {
    hide Formatted, Layout, Mount, InodeAt, FindEntry, FileBytes, NewEntry, SectorAt, EntryIn, DirBlock, NameBytes,
      Covered, Has, FirstMatch, RootInode;
    FormatMounts(d, before, offset, name, content);
    FormatInodes(d, before, offset, name, content);
    FormatDirectory(d, before, offset, name, content, name);
    FormatContents(d, before, offset, name, content, 0);
    RootIsDirectory();
    NewDirectoryEntry(name);
  }

  // ----- where the two readers part -----

  /** An inode for a file of two blocks. */
  function LongInode(): (n: Inode)
    ensures n.Shaped()
  {
    var none: seq<U32> := seq(DIRECT - 2, _ => 0);
    Inode(2 * BLOCK, 1, 0, [DATA_START + 1, DATA_START + 2] + none, 0, 0, Zeros(6))
  }

  function LongRegion(): Write { Write(TABLE_START * BLOCK + INODE_SIZE, EncodeInode(LongInode())) }

  function LongLayout(name: seq<Byte>): seq<Write> {
    [SuperblockRegion(), RootRegion(), LongRegion(), DirRegion(name)]
  }

  /** A volume at the start of a drive that is like a new one, but for a file of two blocks. */
  function LongVolume(name: seq<Byte>): Drive {
    Drive(Applied(Zeros(TOTAL_BLOCKS * BLOCK), 0, LongLayout(name)), {})
  }

  lemma LongVolumeHas(name: seq<Byte>)
    ensures var d := LongVolume(name);
            |d.bytes| == TOTAL_BLOCKS * BLOCK
            && Has(d.bytes, 0, SuperblockRegion()) && Has(d.bytes, 0, RootRegion())
            && Has(d.bytes, 0, LongRegion()) && Has(d.bytes, 0, DirRegion(name))
  {
    hide Applied, Has, Covered, EncodeSuperblock, EncodeInode, DirBlock, Zeros;
    var ws := LongLayout(name);
    AppliedHas(Zeros(TOTAL_BLOCKS * BLOCK), 0, ws);
    assert ws[0] in ws && ws[1] in ws && ws[2] in ws && ws[3] in ws;
  }

  lemma LongVolumeReads(name: seq<Byte>)
    ensures var d := LongVolume(name);
            && Mount(d, 0) == Ok(NewSuperblock())
            && InodeAt(d, 0, NewSuperblock(), 0) == Ok(RootInode())
            && InodeAt(d, 0, NewSuperblock(), 1) == Ok(LongInode())
            && SectorAt(d, 0, DATA_START) == Ok(DirBlock(name))
            && SectorAt(d, 0, DATA_START + 1).Ok? && SectorAt(d, 0, DATA_START + 2).Ok?
  {
    hide Has, EncodeSuperblock, DecodeSuperblock, EncodeInode, DecodeInode, DirBlock, RootInode, LongInode, Applied,
      LongLayout, SectorAt;
    var d := LongVolume(name);
    LongVolumeHas(name);
    RegionReadsBack(d, 0, SuperblockRegion(), 2, 0);
    SuperblockCodec(NewSuperblock(), Zeros(40));
    RegionReadsBack(d, 0, RootRegion(), TABLE_START, 0);
    InodeThenBack(RootInode());
    RegionReadsBack(d, 0, LongRegion(), TABLE_START, INODE_SIZE);
    InodeThenBack(LongInode());
    assert InodeSector(NewSuperblock(), 0) == TABLE_START && InodeSector(NewSuperblock(), 1) == TABLE_START;
    RegionReadsBack(d, 0, DirRegion(name), DATA_START, 0);
    var sector := SectorAt(d, 0, DATA_START).value;
    assert sector == sector[0..BLOCK];
    InRange(d, DATA_START + 1);
    InRange(d, DATA_START + 2);
  }

  lemma InRange(d: Drive, s: nat)
    requires d.bad == {} && s < TOTAL_BLOCKS && |d.bytes| == TOTAL_BLOCKS * BLOCK
    ensures SectorAt(d, 0, s).Ok?
  {
  }

  /** All of a file of two blocks, when both can be read. */
  lemma TwoBlocks(d: Drive)
    requires SectorAt(d, 0, DATA_START + 1).Ok? && SectorAt(d, 0, DATA_START + 2).Ok?
    ensures var r := FileBytes(d, 0, LongInode(), 2 * BLOCK); r.Ok? && |r.value| == 2 * BLOCK
  {
    hide SectorAt, Concat;
    var f := LongInode();
    assert f.direct[0] == DATA_START + 1 && f.direct[1] == DATA_START + 2 && f.direct[2] == 0;
    var l := Leading(f.direct);
    assert |l| == 2;
    var used := Used(f, 2 * BLOCK);
    assert |used| == 2 && used[0] == f.direct[0] && used[1] == f.direct[1];
    assert Readable(d, 0, used) == 2;
  }

  /** A drive on which the two readers part, for any name: asked for both blocks of the file, the
      kernel reader returns 1024 bytes and the server copies past its sector buffer. */
  lemma LongFileDisagrees(name: seq<Byte>, mem: seq<Byte>)
    requires Utf8(name) && name != [] && |name| <= MAX_NAME && name != DOT && name != DOTDOT && Holds(mem, name)
    ensures var d, cap := LongVolume(name), 2 * BLOCK;
            && PlainFor(d, 0, name) && !FitsBuffer(d, 0, name, cap)
            && ServeName(d, 0, TargetName(mem[..NameEnd(mem, 0)]), cap) == Undefined
            && ReadByName(d, 0, name, cap).Ok? && |ReadByName(d, 0, name, cap).value| == cap
  {
    hide LongVolume, Mount, InodeAt, SectorAt, FirstMatch, EntryIn, DirBlock, RootInode, FileBytes, ServeName, NameEnd,
      FindEntry, TargetName, Utf8;
    var d := LongVolume(name);
    LongVolumeReads(name);
    RootIsDirectory();
    NewDirectoryEntry(name);
    FindInRoot(d, 0, RootInode(), name);
    TwoBlocks(d);
    ServerAgreesWithReader(d, 0, name, mem, 2 * BLOCK);
  }

  // ----- bitmaps, and what stays as it was -----

  predicate BitSet(bits: seq<Byte>, i: nat)
    requires i / 8 < |bits|
  {
    var b := bits[i / 8];
    match i % 8
    case 0 => b % 2 == 1
    case 1 => b / 2 % 2 == 1
    case 2 => b / 4 % 2 == 1
    case 3 => b / 8 % 2 == 1
    case 4 => b / 16 % 2 == 1
    case 5 => b / 32 % 2 == 1
    case 6 => b / 64 % 2 == 1
    case _ => b / 128 % 2 == 1
  }

  /** Both bitmaps say what the two inodes on the volume say: an inode bit is set exactly for inodes
      0 and 1, a block bit exactly for the data blocks those inodes refer to. */
  lemma BitmapsMatch(d: Drive, before: seq<Byte>, offset: nat, name: seq<Byte>, content: seq<Byte>)
    requires OnDrive(d, before, offset, name, content) && offset + INODE_BITMAP !in d.bad
        && offset + BLOCK_BITMAP !in d.bad
    ensures Mount(d, offset).Ok?
    ensures var ib := SectorAt(d, offset, Mount(d, offset).value.inodeBitmapStart);
            ib.Ok? && forall i :: 0 <= i < BLOCK * 8 ==> (BitSet(ib.value, i) <==> i == 0 || i == 1)
    ensures var sb := Mount(d, offset).value;
            var bb := SectorAt(d, offset, sb.blockBitmapStart);
            var root, file := InodeAt(d, offset, sb, 0), InodeAt(d, offset, sb, 1);
            bb.Ok? && root.Ok? && file.Ok?
            && forall k :: 0 <= k < BLOCK * 8 ==>
                 (BitSet(bb.value, k) <==>
                    sb.dataBlocksStart + k in root.value.direct || sb.dataBlocksStart + k in file.value.direct)
  {
    hide Mount, Formatted, Layout, SectorAt, InodeAt, BitSet, Covered, Has, SuperblockRegion, RootRegion,
      FileInodeRegion, DirRegion, FileRegion;
    RegionsHeld(before, d.bytes, offset, name, content);
    FormatMounts(d, before, offset, name, content);
    RegionReadsBack(d, offset, InodeBitmapRegion(), INODE_BITMAP, 0);
    RegionReadsBack(d, offset, BlockBitmapRegion(), BLOCK_BITMAP, 0);
    FormatInodes(d, before, offset, name, content);
    var ib, bb := SectorAt(d, offset, INODE_BITMAP).value, SectorAt(d, offset, BLOCK_BITMAP).value;
    assert ib == ib[0..BLOCK] == BitmapBlock() && bb == bb[0..BLOCK] == BitmapBlock();
    forall k | 0 <= k < BLOCK * 8
      ensures BitSet(BitmapBlock(), k) <==> k == 0 || k == 1
      ensures k == 0 || k == 1 <==>
                DATA_START + k in RootInode().direct || DATA_START + k in FileInode(|content|).direct
    {
      TwoBits(k);
      assert RootInode().direct[0] == DATA_START && FileInode(|content|).direct[0] == DATA_START + 1;
    }
  }

  /** The superblock that the drive mounts with tells where everything is: 4096 sectors, of which the
      image has room for all; eight sectors of inodes, eight to a sector, from sector 3; then a sector
      for each bitmap; then data sectors to the end, no more than the block bitmap has bits for. */
  lemma SuperblockTells(d: Drive, before: seq<Byte>, offset: nat, name: seq<Byte>, content: seq<Byte>)
    requires OnDrive(d, before, offset, name, content)
    ensures Mount(d, offset).Ok?
    ensures var sb := Mount(d, offset).value;
            && sb.totalBlocks == 4096 && (offset + sb.totalBlocks) * 512 <= |d.bytes|
            && sb.inodeTableStart == 3 && sb.inodeTableBlocks == 8 && sb.inodeCount == 8 * sb.inodeTableBlocks
            && sb.inodeBitmapStart == sb.inodeTableStart + sb.inodeTableBlocks
            && sb.blockBitmapStart == sb.inodeBitmapStart + 1 && sb.dataBlocksStart == sb.blockBitmapStart + 1
            && sb.dataBlocksStart + sb.dataBlocksCount == sb.totalBlocks && sb.dataBlocksCount <= 8 * 512
  {
    hide Mount, Formatted;
    FormatMounts(d, before, offset, name, content);
  }

  /** The two inodes of the new volume, in numbers. */
  lemma InodesTell(d: Drive, before: seq<Byte>, offset: nat, name: seq<Byte>, content: seq<Byte>)
    requires OnDrive(d, before, offset, name, content)
    ensures Mount(d, offset).Ok?
    ensures var sb := Mount(d, offset).value;
            var root, file := InodeAt(d, offset, sb, 0), InodeAt(d, offset, sb, 1);
            && root.Ok? && root.value.fileType == 2 && root.value.size == 512 && OnlyBlock(root.value, 13)
            && file.Ok? && file.value.fileType == 1 && file.value.size == |content| && OnlyBlock(file.value, 14)
  {
    hide Mount, Formatted, InodeAt;
    FormatMounts(d, before, offset, name, content);
    FormatInodes(d, before, offset, name, content);
  }

  /** The inode refers to one block, and everything else in it is zero. */
  predicate OnlyBlock(n: Inode, block: nat) {
    && |n.direct| == 10 && n.direct[0] == block && (forall i :: 1 <= i < 10 ==> n.direct[i] == 0)
    && n.flags == 0 && n.single == 0 && n.double == 0 && n.reserved == [0, 0, 0, 0, 0, 0]
  }

  /** The two data sectors of the new volume: three directory entries, then zeros; the contents of the
      file, then zeros. */
  lemma DataTells(d: Drive, before: seq<Byte>, offset: nat, name: seq<Byte>, content: seq<Byte>)
    requires OnDrive(d, before, offset, name, content)
    ensures var r := SectorAt(d, offset, 13);
            && r.Ok? && DecodeEntry(r.value[0..32]) == NewEntry(0, DOT)
            && DecodeEntry(r.value[32..64]) == NewEntry(0, DOTDOT) && DecodeEntry(r.value[64..96]) == NewEntry(1, name)
            && forall k :: 96 <= k < 512 ==> r.value[k] == 0
    ensures var r := SectorAt(d, offset, 14);
            && r.Ok? && content <= r.value && forall k :: |content| <= k < 512 ==> r.value[k] == 0
  {
    hide Formatted, SectorAt, DecodeEntry, NewEntry, EncodeEntry;
    FormatDirectory(d, before, offset, name, content, name);
    FormatContents(d, before, offset, name, content, 0);
    DirSlots(name);
    var dir := DirBlock(name);
    assert dir[0..32] == dir[0 * 32..0 * 32 + 32] && dir[32..64] == dir[1 * 32..1 * 32 + 32];
    assert dir[64..96] == dir[2 * 32..2 * 32 + 32];
  }

  lemma TwoBits(k: nat)
    requires k < BLOCK * 8
    ensures BitSet(BitmapBlock(), k) <==> k == 0 || k == 1
  {
    var b := BitmapBlock()[k / 8];
    if k < 8 {
      assert b == 3;
    } else {
      assert b == 0;
    }
  }

  /** No byte before the partition, and none after its first fifteen sectors, changes. */
  lemma OutsideUnchanged(before: seq<Byte>, after: seq<Byte>, offset: nat, name: seq<Byte>, content: seq<Byte>, p: nat)
    requires Formatted(before, after, offset, name, content) && p < |before|
    requires p < (offset + 2) * BLOCK || p >= (offset + DATA_START + 2) * BLOCK
    ensures p < |after| && after[p] == before[p]
  {
    hide Layout, Covered;
    NotCovered(offset, name, content, p);
  }

  lemma NotCovered(offset: nat, name: seq<Byte>, content: seq<Byte>, p: nat)
    requires |content| <= BLOCK
    requires p < (offset + 2) * BLOCK || p >= (offset + DATA_START + 2) * BLOCK
    ensures !Covered(p, offset * BLOCK, Layout(name, content))
  {
    hide Layout;
    RegionsApart(name, content);
  }
}
