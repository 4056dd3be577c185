/** The kernel's RelizFS reader: mounting, inodes, directory lookup and file contents. */
module FsReader {
  import opened Machine
  import opened FsLayout

  const LBA28 := 0x1000_0000
  const U32_RANGE := 0x1_0000_0000

  datatype Error = ReadFailed | BadMagic | InodeOutOfBounds | NotADirectory | FileNotFound | NotAFile

  datatype Result<+T> = Ok(value: T) | Err(error: Error)

  /** A drive: its bytes, and the sectors that fail when read. */
  datatype Drive = Drive(bytes: seq<Byte>, bad: set<nat>)

  /** `read_sector`: only the low 28 bits of the address reach the drive. */
  function ReadSector(d: Drive, lba: nat): (r: Result<seq<Byte>>)
    ensures r.Ok? ==> |r.value| == BLOCK
    ensures r.Err? ==> r.error == ReadFailed
  {
    var n := lba % LBA28;
    if n in d.bad || BLOCK * n + BLOCK > |d.bytes| then Err(ReadFailed) else Ok(d.bytes[BLOCK * n..BLOCK * n + BLOCK])
  }

  /** A sector of the partition, by u32 addition. */
  function SectorAt(d: Drive, start: U32, sector: nat): (r: Result<seq<Byte>>)
    ensures r.Ok? ==> |r.value| == BLOCK
    ensures r.Err? ==> r.error == ReadFailed
  {
    ReadSector(d, (start + sector) % U32_RANGE)
  }

  /** What the drive is told: of a sector number in bytes, the low three and half of the highest. */
  lemma SectorOfPorts(d: Drive, low: Byte, mid: Byte, high: Byte, top: Byte)
    ensures var n := low + 0x100 * mid + 0x1_0000 * high + 0x100_0000 * (top % 16);
            var r := ReadSector(d, low + 0x100 * mid + 0x1_0000 * high + 0x100_0000 * top);
            && (r.Ok? <==> n !in d.bad && 512 * n + 512 <= |d.bytes|)
            && (r.Ok? ==> r.value == d.bytes[512 * n..512 * n + 512])
  {
    var n := low + 0x100 * mid + 0x1_0000 * high + 0x100_0000 * (top % 16);
    var lba := low + 0x100 * mid + 0x1_0000 * high + 0x100_0000 * top;
    assert lba == n + 0x1000_0000 * (top / 16);
    assert lba % 0x1000_0000 == n;
  }

  /** A sector of the partition counts from its start, in 32 bits. */
  lemma SectorFromStart(d: Drive, start: U32, s: U32)
    ensures SectorAt(d, start, s)
         == ReadSector(d, if start + s < 0x1_0000_0000 then start + s else start + s - 0x1_0000_0000)
  {
    hide ReadSector;
  }

  // ----- what the reader computes -----

  function Mount(d: Drive, start: U32): Result<Superblock> {
    match SectorAt(d, start, 2)
    case Err(e) => Err(e)
    case Ok(sector) =>
      var sb := DecodeSuperblock(sector[..40]);
      if sb.magic != MAGIC then Err(BadMagic) else Ok(sb)
  }

  /** Sector 2 begins with the magic number: the letters of RELIZFS, last one first, and a zero. */
  predicate HasMagic(sector: seq<Byte>) {
    |sector| >= 8 && sector[..8] == [0x53, 0x46, 0x5A, 0x49, 0x4C, 0x45, 0x52, 0x00]
  }

  /** When a drive mounts, and what is reported otherwise. */
  lemma MountIs(d: Drive, start: U32)
    ensures var r := SectorAt(d, start, 2);
            && (Mount(d, start).Ok? <==> r.Ok? && HasMagic(r.value))
            && (Mount(d, start) == Err(BadMagic) <==> r.Ok? && !HasMagic(r.value))
            && (Mount(d, start) == Err(ReadFailed) <==> r.Err?)
  {
    hide SectorAt, UnLe, Le;
    var r := SectorAt(d, start, 2);
    if r.Ok? {
      var head := r.value[..40][..8];
      assert head == r.value[..8];
      MagicBytes();
      Codec64(MAGIC, head);
    }
  }

  lemma MagicBytes()
    ensures Le64(MAGIC) == [0x53, 0x46, 0x5A, 0x49, 0x4C, 0x45, 0x52, 0x00]
  {
    assert Le(0, 0) == [];
    assert Le(0x00, 1) == [0x00];
    assert Le(0x52, 2) == [0x52, 0x00];
    assert Le(0x5245, 3) == [0x45, 0x52, 0x00];
    assert Le(0x52454C, 4) == [0x4C, 0x45, 0x52, 0x00];
    assert Le(0x52454C49, 5) == [0x49, 0x4C, 0x45, 0x52, 0x00];
    assert Le(0x52454C495A, 6) == [0x5A, 0x49, 0x4C, 0x45, 0x52, 0x00];
    assert Le(0x52454C495A46, 7) == [0x46, 0x5A, 0x49, 0x4C, 0x45, 0x52, 0x00];
  }

  /** Sector of the inode table, and byte within it, where inode `i` lies. */
  function InodeSector(sb: Superblock, i: nat): nat {
    (sb.inodeTableStart + i * INODE_SIZE / BLOCK) % U32_RANGE
  }

  function InodeIn(sector: seq<Byte>, i: nat): (n: Inode)
    requires |sector| == BLOCK
    ensures n.Shaped()
  {
    var at := i * INODE_SIZE % BLOCK;
    assert at == i % 8 * INODE_SIZE;
    DecodeInode(sector[at..at + INODE_SIZE])
  }

  function InodeAt(d: Drive, start: U32, sb: Superblock, i: nat): (r: Result<Inode>)
    ensures r.Ok? ==> r.value.Shaped()
  {
    if i >= sb.inodeCount then Err(InodeOutOfBounds)
    else
      match SectorAt(d, start, InodeSector(sb, i))
      case Err(e) => Err(e)
      case Ok(sector) => Ok(InodeIn(sector, i))
  }

  /** Where an inode lies on the drive, by byte: 64 bytes each, from the start of the table on. */
  lemma InodeBytes(d: Drive, start: U32, sb: Superblock, i: nat)
    requires i < sb.inodeCount && start + sb.inodeTableStart + i / 8 < LBA28
    requires start + sb.inodeTableStart + i / 8 !in d.bad
    requires 512 * (start + sb.inodeTableStart + i / 8) + 512 <= |d.bytes|
    ensures var at := 512 * (start + sb.inodeTableStart) + 64 * i;
            at + 64 <= |d.bytes| && InodeAt(d, start, sb, i) == Ok(DecodeInode(d.bytes[at..at + 64]))
  {
    hide DecodeInode;
    var n := start + sb.inodeTableStart + i / 8;
    assert i * 64 / 512 == i / 8 && i * 64 % 512 == i % 8 * 64;
    assert (start + InodeSector(sb, i)) % U32_RANGE == n && n % LBA28 == n;
    var sector := d.bytes[512 * n..512 * n + 512];
    assert SectorAt(d, start, InodeSector(sb, i)) == Ok(sector);
    Inner(d.bytes, 512 * n, 512, i % 8 * 64, 64);
  }

  /** When an inode cannot be read: its number is too large, or its sector of the table fails. */
  lemma InodeFails(d: Drive, start: U32, sb: Superblock, i: nat)
    ensures InodeAt(d, start, sb, i) == Err(InodeOutOfBounds) <==> i >= sb.inodeCount
    ensures InodeAt(d, start, sb, i) == Err(ReadFailed) <==>
              i < sb.inodeCount && SectorAt(d, start, (sb.inodeTableStart + i / 8) % 0x1_0000_0000).Err?
    ensures InodeAt(d, start, sb, i).Err? ==>
              InodeAt(d, start, sb, i).error == InodeOutOfBounds || InodeAt(d, start, sb, i).error == ReadFailed
  {
    hide SectorAt;
    assert i * 64 / 512 == i / 8;
  }

  lemma Inner(s: seq<Byte>, at: nat, len: nat, from: nat, n: nat)
    requires at + len <= |s| && from + n <= len
    ensures s[at..at + len][from..from + n] == s[at + from..at + from + n]
  {
    var a := s[at..at + len];
    var l, r := a[from..from + n], s[at + from..at + from + n];
    forall k | 0 <= k < n ensures l[k] == r[k] {
      assert l[k] == a[from + k] == s[at + (from + k)];
    }
    assert l == r;
  }

  function EntryIn(sector: seq<Byte>, i: nat): (e: DirectoryEntry)
    requires |sector| == BLOCK && i < ENTRIES
    ensures e.Shaped()
  {
    DecodeEntry(sector[i * ENTRY_SIZE..i * ENTRY_SIZE + ENTRY_SIZE])
  }

  predicate Live(e: DirectoryEntry) {
    e.inodeNum != 0 || e.nameLen > 0
  }

  predicate Matches(e: DirectoryEntry, name: seq<Byte>)
    requires e.Shaped()
  {
    Live(e) && GetName(e) == Some(name)
  }

  /** The first slot from `i` on that holds `name`, or 16. */
  function FirstMatch(sector: seq<Byte>, name: seq<Byte>, i: nat): (k: nat)
    requires |sector| == BLOCK && i <= ENTRIES
    ensures i <= k <= 16
    ensures k < 16 ==> Matches(EntryIn(sector, k), name)
    ensures forall j :: i <= j < k ==> !Matches(EntryIn(sector, j), name)
    decreases ENTRIES - i
  {
    if i == ENTRIES || Matches(EntryIn(sector, i), name) then i else FirstMatch(sector, name, i + 1)
  }

  /** Zero blocks are skipped; an unreadable block ends the search, unless the name came before it. */
  function FindIn(d: Drive, start: U32, blocks: seq<U32>, name: seq<Byte>): (r: Result<U32>)
    decreases |blocks|
  {
    if blocks == [] then Err(FileNotFound)
    else if blocks[0] == 0 then FindIn(d, start, blocks[1..], name)
    else
      match SectorAt(d, start, blocks[0])
      case Err(e) => Err(e)
      case Ok(sector) =>
        var k := FirstMatch(sector, name, 0);
        if k < ENTRIES then Ok(EntryIn(sector, k).inodeNum) else FindIn(d, start, blocks[1..], name)
  }

  function FindEntry(d: Drive, start: U32, dir: Inode, name: seq<Byte>): Result<U32> {
    if !dir.IsDirectory() then Err(NotADirectory) else FindIn(d, start, dir.direct, name)
  }

  /** A block the search passes over: not allocated, or readable without that name. */
  predicate PassedOver(d: Drive, start: U32, block: U32, name: seq<Byte>) {
    block == 0 || (SectorAt(d, start, block).Ok? && FirstMatch(SectorAt(d, start, block).value, name, 0) == ENTRIES)
  }

  /** Where a search ends: at the first block that has the name or cannot be read, and in the block
      at the first live slot of that name; nothing is found only if every block is passed over. */
  lemma {:induction false} SearchEndsAt(d: Drive, start: U32, blocks: seq<U32>, name: seq<Byte>) returns (b: nat)
    ensures b <= |blocks| && forall j :: 0 <= j < b ==> PassedOver(d, start, blocks[j], name)
    ensures b == |blocks| <==> FindIn(d, start, blocks, name) == Err(FileNotFound)
    ensures b < |blocks| ==> blocks[b] != 0 && !PassedOver(d, start, blocks[b], name)
    ensures b < |blocks| && SectorAt(d, start, blocks[b]).Err? ==> FindIn(d, start, blocks, name) == Err(ReadFailed)
    ensures b < |blocks| && SectorAt(d, start, blocks[b]).Ok? ==>
              var sector := SectorAt(d, start, blocks[b]).value;
              var k := FirstMatch(sector, name, 0);
              k < ENTRIES && FindIn(d, start, blocks, name) == Ok(EntryIn(sector, k).inodeNum)
    decreases |blocks|
  {
    hide SectorAt, EntryIn, FirstMatch;
    if blocks == [] || !PassedOver(d, start, blocks[0], name) {
      b := 0;
    } else {
      var c := SearchEndsAt(d, start, blocks[1..], name);
      b := c + 1;
    }
  }

  // ----- file contents -----

  /** The blocks before the first zero block. */
  function Leading(blocks: seq<U32>): (l: seq<U32>)
    ensures l <= blocks && (forall i :: 0 <= i < |l| ==> blocks[i] != 0)
    ensures |l| < |blocks| ==> blocks[|l|] == 0
    decreases |blocks|
  {
    if blocks == [] || blocks[0] == 0 then [] else [blocks[0]] + Leading(blocks[1..])
  }

  /** How many bytes a caller with room for `cap` asks for. */
  function Wanted(f: Inode, cap: nat): nat {
    Min(f.size, cap)
  }

  /** The blocks that must be read for them. */
  function Used(f: Inode, cap: nat): (u: seq<U32>)
    ensures u <= Leading(f.direct) && |u| == Min(|Leading(f.direct)|, (Wanted(f, cap) + BLOCK - 1) / BLOCK)
  {
    Leading(f.direct)[..Min(|Leading(f.direct)|, (Wanted(f, cap) + BLOCK - 1) / BLOCK)]
  }

  /** How many of `blocks` can be read before the first failure. */
  function Readable(d: Drive, start: U32, blocks: seq<U32>): (k: nat)
    ensures k <= |blocks| && (forall i :: 0 <= i < k ==> SectorAt(d, start, blocks[i]).Ok?)
    ensures k < |blocks| ==> SectorAt(d, start, blocks[k]).Err?
    decreases |blocks|
  {
    if blocks == [] || SectorAt(d, start, blocks[0]).Err? then 0 else 1 + Readable(d, start, blocks[1..])
  }

  function Contents(d: Drive, start: U32, block: U32): (s: seq<Byte>)
    ensures |s| == BLOCK
  {
    var r := SectorAt(d, start, block);
    if r.Ok? then r.value else Zeros(BLOCK)
  }

  /** The bytes of some blocks, one after the other. */
  function Concat(d: Drive, start: U32, blocks: seq<U32>): (s: seq<Byte>)
    ensures |s| == BLOCK * |blocks|
    decreases |blocks|
  {
    if blocks == [] then [] else Contents(d, start, blocks[0]) + Concat(d, start, blocks[1..])
  }

  /** What a successful read of a file returns. */
  function FileBytes(d: Drive, start: U32, f: Inode, cap: nat): Result<seq<Byte>> {
    if !f.IsFile() then Err(NotAFile)
    else
      var used := Used(f, cap);
      if Readable(d, start, used) < |used| then Err(ReadFailed)
      else
        var all := Concat(d, start, used);
        Ok(all[..Min(Wanted(f, cap), |all|)])
  }

  lemma {:induction false} ConcatSnoc(d: Drive, start: U32, blocks: seq<U32>, b: U32)
    ensures Concat(d, start, blocks + [b]) == Concat(d, start, blocks) + Contents(d, start, b)
    decreases |blocks|
  {
    if blocks == [] {
      assert [b][1..] == [];
      assert Concat(d, start, [b]) == Contents(d, start, b) + [];
      assert blocks + [b] == [b];
    } else {
      ConcatSnoc(d, start, blocks[1..], b);
      assert (blocks + [b])[1..] == blocks[1..] + [b];
    }
  }

  /** Byte by byte: a read returns byte k of the file from block k / 512, and stops at the size, the
      room, or the first zero block, whichever comes first. */
  lemma {:induction false} ConcatAt(d: Drive, start: U32, blocks: seq<U32>, k: nat)
    requires k < BLOCK * |blocks|
    ensures Concat(d, start, blocks)[k] == Contents(d, start, blocks[k / BLOCK])[k % BLOCK]
    decreases |blocks|
  {
    hide Contents;
    if k >= BLOCK {
      ConcatAt(d, start, blocks[1..], k - BLOCK);
      assert k / BLOCK == 1 + (k - BLOCK) / BLOCK && (k - BLOCK) % BLOCK == k % BLOCK;
      assert Concat(d, start, blocks)[k] == Concat(d, start, blocks[1..])[k - BLOCK];
    } else {
      assert Concat(d, start, blocks)[k] == Contents(d, start, blocks[0])[k];
    }
  }

  /** Direct block `j` is needed for a read: bytes from it are wanted and no block up to it is zero. */
  predicate NeededBlock(f: Inode, cap: nat, j: nat) {
    j < |f.direct| && 512 * j < f.size && 512 * j < cap && forall i :: 0 <= i <= j ==> f.direct[i] != 0
  }

  lemma NeededIsUsed(f: Inode, cap: nat, j: nat)
    requires f.Shaped()
    ensures NeededBlock(f, cap, j) <==> j < |Used(f, cap)|
  {
    var l := Leading(f.direct);
    if j < |l| {
      assert forall i :: 0 <= i <= j ==> f.direct[i] != 0;
    } else if |l| < DIRECT {
      assert f.direct[|l|] == 0;
    }
  }

  /** When a read succeeds: for a regular file all of whose needed blocks can be read. */
  lemma FileBytesOk(d: Drive, start: U32, f: Inode, cap: nat)
    requires f.Shaped()
    ensures FileBytes(d, start, f, cap) == Err(NotAFile) <==> f.fileType != 1
    ensures FileBytes(d, start, f, cap).Ok? <==>
              f.fileType == 1 && forall j: nat :: NeededBlock(f, cap, j) ==> SectorAt(d, start, f.direct[j]).Ok?
  {
    hide SectorAt, NeededBlock, Concat, Used;
    var used := Used(f, cap);
    forall j: nat ensures NeededBlock(f, cap, j) <==> j < |used| {
      NeededIsUsed(f, cap, j);
    }
    assert forall j: nat :: j < |used| ==> used[j] == f.direct[j];
    var k := Readable(d, start, used);
    if k < |used| {
      assert NeededBlock(f, cap, k) && SectorAt(d, start, used[k]).Err?;
    }
  }

  lemma FileBytesAt(d: Drive, start: U32, f: Inode, cap: nat, k: nat)
    requires f.Shaped() && FileBytes(d, start, f, cap).Ok?
    ensures var bytes := FileBytes(d, start, f, cap).value;
            |bytes| == Min(Min(f.size, cap), 512 * |Leading(f.direct)|)
            && (k < |bytes| ==> k / 512 < 10 && f.direct[k / 512] != 0
                                && SectorAt(d, start, f.direct[k / 512]).Ok?
                                && bytes[k] == SectorAt(d, start, f.direct[k / 512]).value[k % 512])
  {
    var used := Used(f, cap);
    if k < |FileBytes(d, start, f, cap).value| {
      ConcatAt(d, start, used, k);
      assert used[k / BLOCK] == f.direct[k / BLOCK];
    }
  }

  /** When the copy loop goes on: the block is allocated and bytes are still wanted. */
  lemma UsedStep(f: Inode, cap: nat, b: nat)
    requires f.Shaped() && b <= |Used(f, cap)|
    ensures b < |Used(f, cap)| <==> b < DIRECT && f.direct[b] != 0 && BLOCK * b < Wanted(f, cap)
    ensures b < |Used(f, cap)| ==> Used(f, cap)[b] == f.direct[b]
  {
  }

  /** A buffer whose first bytes have been replaced by `data`. */
  function Over(was: seq<Byte>, data: seq<Byte>): (s: seq<Byte>)
    ensures |s| == |was|
  {
    if |data| <= |was| then data + was[|data|..] else was
  }

  /** The buffer when `b` blocks of `used` have been copied, `wanted` bytes at most. */
  function Copied(d: Drive, start: U32, used: seq<U32>, was: seq<Byte>, b: nat, wanted: nat): (s: seq<Byte>)
    requires b <= |used| && wanted <= |was|
    ensures |s| == |was|
  {
    Over(was, Concat(d, start, used[..b])[..Min(BLOCK * b, wanted)])
  }

  lemma CopiedNone(d: Drive, start: U32, used: seq<U32>, was: seq<Byte>, wanted: nat)
    requires wanted <= |was|
    ensures Copied(d, start, used, was, 0, wanted) == was
  {
  }

  /** One more block copied. */
  lemma CopiedMore(d: Drive, start: U32, used: seq<U32>, was: seq<Byte>, b: nat, wanted: nat)
    requires b < |used| && BLOCK * b < wanted <= |was| && SectorAt(d, start, used[b]).Ok?
    ensures var at, before := BLOCK * b, Copied(d, start, used, was, b, wanted);
            var chunk := SectorAt(d, start, used[b]).value[..Min(wanted - at, BLOCK)];
            before[..at] + chunk + before[at + |chunk|..] == Copied(d, start, used, was, b + 1, wanted)
  {
    hide SectorAt;
    var at := BLOCK * b;
    var cat := Concat(d, start, used[..b]);
    var chunk := SectorAt(d, start, used[b]).value[..Min(wanted - at, BLOCK)];
    assert cat[..at] == cat;
    assert used[..b + 1] == used[..b] + [used[b]];
    ConcatSnoc(d, start, used[..b], used[b]);
    assert Concat(d, start, used[..b + 1])[..Min(at + BLOCK, wanted)] == cat + chunk;
    assert Over(was, cat)[..at] == cat;
  }

  // ----- the code -----

  class RelizFsReader {
    const drive: Drive
    const start: U32
    const superblock: Superblock

    constructor (drive: Drive, start: U32, superblock: Superblock)
      ensures this.drive == drive && this.start == start && this.superblock == superblock
    {
      this.drive, this.start, this.superblock := drive, start, superblock;
    }

    static method Init(drive: Drive, start: U32) returns (r: Result<RelizFsReader>)
      ensures r.Ok? <==> SectorAt(drive, start, 2).Ok? && HasMagic(SectorAt(drive, start, 2).value)
      ensures match Mount(drive, start)
              case Ok(sb) => r.Ok? && fresh(r.value) && r.value.drive == drive && r.value.start == start
                  && r.value.superblock == sb
              case Err(e) => r == Err(e)
    {
      hide SectorAt, DecodeSuperblock, HasMagic;
      MountIs(drive, start);
      var sector := SectorAt(drive, start, 2);
      if sector.Err? {
        return Err(sector.error);
      }
      var superblock := DecodeSuperblock(sector.value[..40]);
      if superblock.magic != MAGIC {
        return Err(BadMagic);
      }
      var reader := new RelizFsReader(drive, start, superblock);
      r := Ok(reader);
    }

    /** Walks the blocks and their sixteen slots for the first live entry of that name. */
    method FindEntryByName(dir: Inode, name: seq<Byte>) returns (r: Result<U32>)
      requires dir.Shaped()
      ensures r == FindEntry(drive, start, dir, name)
      ensures r == Err(NotADirectory) <==> dir.fileType != 2
    {
      hide SectorAt, EntryIn, GetName;
      if !dir.IsDirectory() {
        return Err(NotADirectory);
      }
      var b := 0;
      while b < |dir.direct|
        invariant 0 <= b <= |dir.direct|
        invariant FindIn(drive, start, dir.direct, name) == FindIn(drive, start, dir.direct[b..], name)
      {
        var rest := dir.direct[b..];
        assert rest[1..] == dir.direct[b + 1..];
        if dir.direct[b] != 0 {
          var sector := SectorAt(drive, start, dir.direct[b]);
          if sector.Err? {
            return Err(sector.error);
          }
          var i := 0;
          while i < ENTRIES
            invariant 0 <= i <= ENTRIES
            invariant FirstMatch(sector.value, name, 0) == FirstMatch(sector.value, name, i)
          {
            var entry := EntryIn(sector.value, i);
            if entry.inodeNum != 0 || entry.nameLen > 0 {
              var found := GetName(entry);
              if found.Some? && found.value == name {
                return Ok(entry.inodeNum);
              }
            }
            i := i + 1;
          }
        }
        b := b + 1;
      }
      r := Err(FileNotFound);
    }

    /** Copies block after block into the caller's buffer. A block that cannot be read ends the
        call with an error; the blocks before it have been copied by then. */
    method ReadFile(f: Inode, out: array<Byte>) returns (r: Result<nat>)
      requires f.Shaped()
      modifies out
      ensures match FileBytes(drive, start, f, out.Length)
              case Ok(bytes) => r == Ok(|bytes|) && out[..] == Over(old(out[..]), bytes)
              case Err(e) => r == Err(e)
      ensures !f.IsFile() ==> out[..] == old(out[..])
      ensures f.IsFile() && r.Err? ==>
                var used := Used(f, out.Length);
                out[..] == Over(old(out[..]), Concat(drive, start, used[..Readable(drive, start, used)]))
    {
      hide SectorAt, Concat, Used, Leading, Readable, Over, Copied;
      if !f.IsFile() {
        return Err(NotAFile);
      }
      ghost var was, used := out[..], Used(f, out.Length);
      r := CopyBlocks(f, out, Min(f.size, out.Length));
      CopiedMeans(drive, start, used, was, Readable(drive, start, used), Wanted(f, out.Length));
    }

    /** The copy loop. */
    method CopyBlocks(f: Inode, out: array<Byte>, wanted: nat) returns (r: Result<nat>)
      requires f.Shaped() && wanted == Wanted(f, out.Length)
      modifies out
      ensures var used := Used(f, out.Length);
              var k := Readable(drive, start, used);
              && r == (if k == |used| then Ok(Min(BLOCK * k, wanted)) else Err(ReadFailed))
              && out[..] == Copied(drive, start, used, old(out[..]), k, wanted)
              && (k < |used| ==> BLOCK * k <= wanted)
    {
      hide SectorAt, Concat, Used, Leading, Over, Copied, Wanted;
      assert wanted <= out.Length by { WantedFits(f, out.Length); }
      var bytesRead := 0;
      var b := 0;
      ghost var was, used := out[..], Used(f, out.Length);
      CopiedNone(drive, start, used, was, wanted);
      while b < |f.direct|
        invariant 0 <= b <= |used| && bytesRead == Min(BLOCK * b, wanted)
        invariant b <= Readable(drive, start, used)
        invariant out[..] == Copied(drive, start, used, was, b, wanted)
      {
        var block := f.direct[b];
        UsedStep(f, out.Length, b);
        if block == 0 || bytesRead >= wanted {
          break;
        }
        var sector := SectorAt(drive, start, block);
        if sector.Err? {
          assert Readable(drive, start, used) == b;
          return Err(sector.error);
        }
        var remaining := wanted - bytesRead;
        var chunk := Min(remaining, BLOCK);
        CopiedMore(drive, start, used, was, b, wanted);
        CopyInto(out, bytesRead, sector.value[..chunk]);
        assert Readable(drive, start, used) != b;
        bytesRead := bytesRead + chunk;
        b := b + 1;
      }
      UsedStep(f, out.Length, b);
      r := Ok(bytesRead);
    }
  }

  lemma WantedFits(f: Inode, cap: nat)
    ensures Wanted(f, cap) <= cap
  {
  }

  /** The buffer at the end, in terms of the file's contents. */
  lemma CopiedMeans(d: Drive, start: U32, used: seq<U32>, was: seq<Byte>, k: nat, wanted: nat)
    requires k <= |used| && wanted <= |was|
    ensures var all := Concat(d, start, used[..k]);
            Copied(d, start, used, was, k, wanted) == Over(was, all[..Min(wanted, |all|)])
            && (BLOCK * k <= wanted ==> Copied(d, start, used, was, k, wanted) == Over(was, all))
            && (k == |used| ==> all == Concat(d, start, used))
  {
    var all := Concat(d, start, used[..k]);
    assert all[..|all|] == all;
    if k == |used| {
      assert used[..k] == used;
    }
  }

  /** `copy_from_slice` into part of a buffer. */
  method CopyInto(out: array<Byte>, at: nat, data: seq<Byte>)
    requires at + |data| <= out.Length
    modifies out
    ensures out[..] == old(out[..])[..at] + data + old(out[..])[at + |data|..]
  {
    forall i | 0 <= i < |data| {
      out[at + i] := data[i];
    }
  }
}
