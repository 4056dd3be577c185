/** The FS server's own lookup-and-read (message 11), and its agreement with the kernel reader. */
module FsServer {
  import opened Machine
  import opened FsLayout
  import opened FsReader

  const NAME_LIMIT := 32

  /** `Overread`: the copy length exceeds the 512-byte sector buffer it copies from, which the
      source leaves undefined. */
  datatype Reply = Found(copied: nat) | NotFound | Overread

  datatype Served = Bytes(bytes: seq<Byte>) | Nothing | Undefined

  // ----- what the server computes -----

  /** The C string at the client's pointer: bytes before the first zero, at most 32. */
  function NameEnd(mem: seq<Byte>, n: nat): (k: nat)
    requires n <= NAME_LIMIT && (|mem| > NAME_LIMIT || exists z :: n <= z < |mem| && mem[z] == 0)
    ensures n <= k <= 32 && k < |mem| && (forall i :: n <= i < k ==> mem[i] != 0)
    ensures k < 32 ==> mem[k] == 0
    decreases NAME_LIMIT - n
  {
    if mem[n] != 0 && n < NAME_LIMIT then NameEnd(mem, n + 1) else n
  }

  /** Text that is not UTF-8 becomes the empty name. */
  function TargetName(slice: seq<Byte>): seq<Byte> {
    if Utf8(slice) then slice else []
  }

  predicate Serves(e: DirectoryEntry, target: seq<Byte>)
    requires e.Shaped()
  {
    e.inodeNum != 0 && e.nameLen > 0 && GetName(e) == Some(target)
  }

  function FirstServed(dir: seq<Byte>, target: seq<Byte>, i: nat): (k: nat)
    requires |dir| == BLOCK && i <= ENTRIES
    ensures i <= k <= 16
    ensures k < 16 ==> Serves(EntryIn(dir, k), target)
    ensures forall j :: i <= j < k ==> !Serves(EntryIn(dir, j), target)
    decreases ENTRIES - i
  {
    if i == ENTRIES || Serves(EntryIn(dir, i), target) then i else FirstServed(dir, target, i + 1)
  }

  /** The inode is read without a bound on its number, and only its first block is used. */
  function ServeInode(d: Drive, start: U32, sb: Superblock, inodeNum: U32, maxLen: nat): Served {
    match SectorAt(d, start, InodeSector(sb, inodeNum))
    case Err(_) => Nothing
    case Ok(sector) =>
      var f := InodeIn(sector, inodeNum);
      match SectorAt(d, start, f.direct[0])
      case Err(_) => Nothing
      case Ok(data) =>
        var n := Min(f.size, maxLen);
        if n > BLOCK then Undefined else Bytes(data[..n])
  }

  function ServeName(d: Drive, start: U32, target: seq<Byte>, maxLen: nat): Served {
    match SectorAt(d, start, 2)
    case Err(_) => Nothing
    case Ok(sector) =>
      var sb := DecodeSuperblock(sector[..40]);
      match SectorAt(d, start, sb.inodeTableStart)
      case Err(_) => Nothing
      case Ok(table) =>
        var root := DecodeInode(table[..INODE_SIZE]);
        match SectorAt(d, start, root.direct[0])
        case Err(_) => Nothing
        case Ok(dir) =>
          var k := FirstServed(dir, target, 0);
          if k == ENTRIES then Nothing else ServeInode(d, start, sb, EntryIn(dir, k).inodeNum, maxLen)
  }

  /** A name that is empty or no text is not found. */
  lemma NoTextNothing(d: Drive, start: U32, slice: seq<Byte>, maxLen: nat)
    requires slice == [] || !Utf8(slice)
    ensures ServeName(d, start, TargetName(slice), maxLen) == Nothing
  {
    hide SectorAt, EntryIn, Utf8, ServeInode, DecodeSuperblock, DecodeInode;
    forall e: DirectoryEntry | e.Shaped() ensures !Serves(e, TargetName(slice)) {
      NoEmptyName(e);
    }
  }

  lemma NoEmptyName(e: DirectoryEntry)
    requires e.Shaped()
    ensures !Serves(e, [])
  {
    hide Utf8;
    assert e.nameLen > 0 ==> |NameBytes(e)| > 0;
  }

  // ----- the code -----

  method NameLength(mem: seq<Byte>) returns (n: nat)
    requires |mem| > NAME_LIMIT || exists z :: 0 <= z < |mem| && mem[z] == 0
    ensures n == NameEnd(mem, 0)
  {
    n := 0;
    while mem[n] != 0 && n < NAME_LIMIT
      invariant n <= NAME_LIMIT && (|mem| > NAME_LIMIT || exists z :: n <= z < |mem| && mem[z] == 0)
      invariant NameEnd(mem, 0) == NameEnd(mem, n)
      decreases NAME_LIMIT - n
    {
      n := n + 1;
    }
  }

  /** The arm of the server loop that answers MSG_FS_READ: the client's buffer gets the bytes and,
      if there is room, one zero byte after them. */
  method ServeRead(d: Drive, start: U32, nameMem: seq<Byte>, client: array<Byte>) returns (reply: Reply)
    requires |nameMem| > NAME_LIMIT || exists z :: 0 <= z < |nameMem| && nameMem[z] == 0
    modifies client
    ensures match ServeName(d, start, TargetName(nameMem[..NameEnd(nameMem, 0)]), client.Length)
            case Bytes(bs) =>
              && reply == Found(|bs|) && |bs| <= client.Length
              && client[..|bs|] == bs
              && (|bs| < client.Length ==> client[|bs|] == 0)
              && (forall i :: |bs| < i < client.Length ==> client[i] == old(client[i]))
            case Nothing => reply == NotFound && client[..] == old(client[..])
            case Undefined => reply == Overread && client[..] == old(client[..])
  {
    hide SectorAt, EntryIn, GetName, InodeIn;
    var n := NameLength(nameMem);
    var target := TargetName(nameMem[..n]);
    var sector := SectorAt(d, start, 2);
    if sector.Err? { return NotFound; }
    var sb := DecodeSuperblock(sector.value[..40]);
    var table := SectorAt(d, start, sb.inodeTableStart);
    if table.Err? { return NotFound; }
    var root := DecodeInode(table.value[..INODE_SIZE]);
    var dir := SectorAt(d, start, root.direct[0]);
    if dir.Err? { return NotFound; }
    var i := 0;
    while i < ENTRIES
      invariant 0 <= i <= ENTRIES && client[..] == old(client[..])
      invariant FirstServed(dir.value, target, 0) == FirstServed(dir.value, target, i)
    {
      var entry := EntryIn(dir.value, i);
      if entry.inodeNum != 0 && entry.nameLen > 0 {
        var name := GetName(entry);
        if name.Some? && name.value == target {
          reply := CopyOut(d, start, sb, entry.inodeNum, client);
          return;
        }
      }
      i := i + 1;
    }
    reply := NotFound;
  }

  method CopyOut(d: Drive, start: U32, sb: Superblock, inodeNum: U32, client: array<Byte>) returns (reply: Reply)
    modifies client
    ensures match ServeInode(d, start, sb, inodeNum, client.Length)
            case Bytes(bs) =>
              && reply == Found(|bs|) && |bs| <= client.Length
              && client[..|bs|] == bs
              && (|bs| < client.Length ==> client[|bs|] == 0)
              && (forall i :: |bs| < i < client.Length ==> client[i] == old(client[i]))
            case Nothing => reply == NotFound && client[..] == old(client[..])
            case Undefined => reply == Overread && client[..] == old(client[..])
  {
    hide SectorAt, InodeIn;
    var sector := SectorAt(d, start, InodeSector(sb, inodeNum));
    if sector.Err? { return NotFound; }
    var f := InodeIn(sector.value, inodeNum);
    var data := SectorAt(d, start, f.direct[0]);
    if data.Err? { return NotFound; }
    var n := Min(f.size, client.Length);
    if n > BLOCK { return Overread; }
    CopyInto(client, 0, data.value[..n]);
    assert client[..n] == data.value[..n];
    assert forall i :: n <= i < client.Length ==> client[..][i] == old(client[..])[i];
    if n < client.Length {
      client[n] := 0;
      assert client[..n] == data.value[..n];
    }
    reply := Found(n);
  }

  // ----- agreement with the kernel's reader -----

  /** What the kernel's reader returns for the same request: mount, root, lookup, inode, contents. */
  function ReadByName(d: Drive, start: U32, name: seq<Byte>, cap: nat): Result<seq<Byte>> {
    match Mount(d, start)
    case Err(e) => Err(e)
    case Ok(sb) =>
      match InodeAt(d, start, sb, 0)
      case Err(e) => Err(e)
      case Ok(root) =>
        match FindEntry(d, start, root, name)
        case Err(e) => Err(e)
        case Ok(i) =>
          match InodeAt(d, start, sb, i)
          case Err(e) => Err(e)
          case Ok(f) => FileBytes(d, start, f, cap)
  }

  const DOT: seq<Byte> := [46]
  const DOTDOT: seq<Byte> := [46, 46]

  /** An entry for a regular file: an inode of the table other than the root's, with a readable
      first block. Its size is not restricted. */
  predicate PlainEntry(d: Drive, start: U32, sb: Superblock, e: DirectoryEntry) {
    var r := InodeAt(d, start, sb, e.inodeNum);
    e.inodeNum != 0 && r.Ok? && r.value.IsFile() && r.value.direct[0] != 0 && SectorAt(d, start, r.value.direct[0]).Ok?
  }

  /** A mounted volume whose root directory is one readable block. */
  predicate PlainRoot(d: Drive, start: U32) {
    var m := Mount(d, start);
    m.Ok? && var r := InodeAt(d, start, m.value, 0);
    r.Ok? && r.value.IsDirectory() && r.value.direct[0] != 0
    && (forall i :: 1 <= i < DIRECT ==> r.value.direct[i] == 0)
    && SectorAt(d, start, r.value.direct[0]).Ok?
  }

  function RootBlock(d: Drive, start: U32): (dir: seq<Byte>)
    requires PlainRoot(d, start)
    ensures |dir| == BLOCK
  {
    SectorAt(d, start, InodeAt(d, start, Mount(d, start).value, 0).value.direct[0]).value
  }

  /** The first entry of that name, if there is one. */
  function EntryFor(d: Drive, start: U32, name: seq<Byte>): (e: Option<DirectoryEntry>)
    requires PlainRoot(d, start)
    ensures e.Some? ==> e.value.Shaped()
  {
    var k := FirstMatch(RootBlock(d, start), name, 0);
    if k < ENTRIES then Some(EntryIn(RootBlock(d, start), k)) else None
  }

  /** If the root has entries of that name, the first is for a regular file, or all are for the root
      itself, as "." and ".." are. Entries of other names may be anything. */
  predicate PlainFor(d: Drive, start: U32, name: seq<Byte>) {
    PlainRoot(d, start)
    && var e := EntryFor(d, start, name);
    if e.None? then true
    else if e.value.inodeNum == 0 then FirstServed(RootBlock(d, start), name, 0) == ENTRIES
    else PlainEntry(d, start, Mount(d, start).value, e.value)
  }

  /** What a request copies does not exceed the server's sector buffer. */
  predicate FitsBuffer(d: Drive, start: U32, name: seq<Byte>, cap: nat)
    requires PlainFor(d, start, name)
  {
    var e := EntryFor(d, start, name);
    e.Some? && e.value.inodeNum != 0 ==>
      Min(InodeAt(d, start, Mount(d, start).value, e.value.inodeNum).value.size, cap) <= BLOCK
  }

  /** The client's memory holds `name` as a C string. */
  predicate Holds(mem: seq<Byte>, name: seq<Byte>) {
    |mem| > |name| && mem[..|name|] == name && mem[|name|] == 0 && 0 !in name
  }

  lemma {:induction false} AllZero(d: Drive, start: U32, blocks: seq<U32>, name: seq<Byte>)
    requires forall i :: 0 <= i < |blocks| ==> blocks[i] == 0
    ensures FindIn(d, start, blocks, name) == Err(FileNotFound)
    decreases |blocks|
  {
    if blocks != [] {
      AllZero(d, start, blocks[1..], name);
    }
  }

  /** A one-block root: the lookup is a search of that block. */
  lemma FindInRoot(d: Drive, start: U32, root: Inode, name: seq<Byte>)
    requires root.Shaped() && root.IsDirectory() && root.direct[0] != 0 && SectorAt(d, start, root.direct[0]).Ok?
    requires forall i :: 1 <= i < DIRECT ==> root.direct[i] == 0
    ensures var dir := SectorAt(d, start, root.direct[0]).value;
            var k := FirstMatch(dir, name, 0);
            FindEntry(d, start, root, name) == if k < ENTRIES then Ok(EntryIn(dir, k).inodeNum) else Err(FileNotFound)
  {
    AllZero(d, start, root.direct[1..], name);
  }

  lemma {:induction false} NameEndOf(mem: seq<Byte>, name: seq<Byte>, n: nat)
    requires Holds(mem, name) && n <= |name| && n <= NAME_LIMIT
    ensures NameEnd(mem, n) == Min(|name|, NAME_LIMIT)
    decreases NAME_LIMIT - n
  {
    assert forall i :: 0 <= i < |name| ==> mem[..|name|][i] == name[i];
    if n < |name| && n < NAME_LIMIT {
      NameEndOf(mem, name, n + 1);
    }
  }

  /** The server looks for `target` where the kernel reader looks for `name`: the same bytes, or
      for a name too long for any entry, something that is in no entry either. */
  predicate Stands(target: seq<Byte>, name: seq<Byte>) {
    name != [] && (target == name || (|name| > MAX_NAME && (target == [] || |target| > MAX_NAME)))
  }

  lemma ServesMatches(e: DirectoryEntry, name: seq<Byte>, target: seq<Byte>)
    requires e.Shaped() && Stands(target, name)
    ensures Serves(e, target) <==> Matches(e, name) && e.inodeNum != 0
  {
  }

  /** The two searches of one directory block stop at the same slot, if the reader's is not for
      inode 0. */
  lemma {:induction false} SameSlot(dir: seq<Byte>, name: seq<Byte>, target: seq<Byte>, i: nat)
    requires |dir| == BLOCK && i <= ENTRIES && Stands(target, name)
    requires var k := FirstMatch(dir, name, i); k < ENTRIES ==> EntryIn(dir, k).inodeNum != 0
    ensures FirstServed(dir, target, i) == FirstMatch(dir, name, i)
    decreases ENTRIES - i
  {
    hide EntryIn, Matches, Serves, Stands;
    if i < ENTRIES {
      ServesMatches(EntryIn(dir, i), name, target);
      if !Matches(EntryIn(dir, i), name) {
        SameSlot(dir, name, target, i + 1);
      }
    }
  }

  /** A request that needs no more than one block: the reader's contents are the start of it. */
  lemma OneBlockFile(d: Drive, start: U32, f: Inode, cap: nat)
    requires f.Shaped() && f.IsFile() && f.direct[0] != 0 && SectorAt(d, start, f.direct[0]).Ok?
    requires Min(f.size, cap) <= BLOCK
    ensures FileBytes(d, start, f, cap) == Ok(SectorAt(d, start, f.direct[0]).value[..Min(f.size, cap)])
  {
    var used := Used(f, cap);
    if Wanted(f, cap) == 0 {
      assert used == [];
    } else {
      assert Leading(f.direct)[0] == f.direct[0] && |used| == 1;
      assert used == [f.direct[0]] && used[1..] == [];
      assert Readable(d, start, used[1..]) == 0 && Readable(d, start, used) == 1;
      assert Concat(d, start, used) == Contents(d, start, f.direct[0]) + [];
    }
    var all := Concat(d, start, used);
    assert all[..Min(Wanted(f, cap), |all|)] == SectorAt(d, start, f.direct[0]).value[..Min(f.size, cap)];
  }

  /** For an entry of a regular file the server serves what the reader reads, exactly if the copy
      fits its buffer. */
  lemma ServesPlainEntry(d: Drive, start: U32, sb: Superblock, e: DirectoryEntry, cap: nat)
    requires PlainEntry(d, start, sb, e)
    ensures var f := InodeAt(d, start, sb, e.inodeNum).value;
            if Min(f.size, cap) <= BLOCK
            then FileBytes(d, start, f, cap).Ok?
                 && ServeInode(d, start, sb, e.inodeNum, cap) == Bytes(FileBytes(d, start, f, cap).value)
            else ServeInode(d, start, sb, e.inodeNum, cap) == Undefined
  {
    hide SectorAt, InodeIn;
    var f := InodeAt(d, start, sb, e.inodeNum).value;
    if Min(f.size, cap) <= BLOCK {
      OneBlockFile(d, start, f, cap);
    }
  }

  /** Both programs reach the same root directory block. */
  lemma SameRoot(d: Drive, start: U32)
    requires Mount(d, start).Ok?
    ensures var sb := Mount(d, start).value;
            SectorAt(d, start, 2).Ok? && sb == DecodeSuperblock(SectorAt(d, start, 2).value[..40])
            && (InodeAt(d, start, sb, 0).Ok? ==>
                  var table := SectorAt(d, start, sb.inodeTableStart);
                  table.Ok? && InodeAt(d, start, sb, 0).value == DecodeInode(table.value[..INODE_SIZE]))
  {
    hide SectorAt, DecodeInode, DecodeSuperblock;
    var sb := Mount(d, start).value;
    assert InodeSector(sb, 0) == sb.inodeTableStart;
  }

  /** What the reader's answer looks like to a client of the server. */
  function AsServed(r: Result<seq<Byte>>): Served {
    if r.Ok? then Bytes(r.value) else Nothing
  }

  lemma AgreesOnTarget(d: Drive, start: U32, name: seq<Byte>, target: seq<Byte>, cap: nat)
    requires PlainFor(d, start, name) && Stands(target, name)
    ensures ServeName(d, start, target, cap)
         == if FitsBuffer(d, start, name, cap) then AsServed(ReadByName(d, start, name, cap)) else Undefined
  {
    hide SectorAt, EntryIn, Mount, InodeAt, DecodeInode, DecodeSuperblock, FindEntry, ServeInode, FileBytes, Stands,
      Matches;
    var sb := Mount(d, start).value;
    var root := InodeAt(d, start, sb, 0).value;
    var dir := RootBlock(d, start);
    SameRoot(d, start);
    FindInRoot(d, start, root, name);
    var k := FirstMatch(dir, name, 0);
    if k < ENTRIES && EntryIn(dir, k).inodeNum == 0 {
      MatchFits(EntryIn(dir, k), name, target);
      RootIsNoFile(d, start, root, cap);
    } else {
      SameSlot(dir, name, target, 0);
      if k < ENTRIES {
        ServesPlainEntry(d, start, sb, EntryIn(dir, k), cap);
      }
    }
  }

  lemma MatchFits(e: DirectoryEntry, name: seq<Byte>, target: seq<Byte>)
    requires e.Shaped() && Matches(e, name) && Stands(target, name)
    ensures target == name
  {
  }

  lemma RootIsNoFile(d: Drive, start: U32, root: Inode, cap: nat)
    requires root.IsDirectory()
    ensures FileBytes(d, start, root, cap) == Err(NotAFile)
  {
  }

  lemma TargetStands(name: seq<Byte>, mem: seq<Byte>)
    requires Holds(mem, name) && Utf8(name) && name != []
    ensures Stands(TargetName(mem[..NameEnd(mem, 0)]), name)
  {
    NameEndOf(mem, name, 0);
    var slice := mem[..NameEnd(mem, 0)];
    assert slice == mem[..|name|][..Min(|name|, NAME_LIMIT)];
    assert slice == name[..Min(|name|, NAME_LIMIT)];
    if |name| <= NAME_LIMIT {
      assert slice == name;
    }
  }

  /** When the two readers agree: for every non-empty C string of text, of any length, and every
      buffer size, the server answers as the kernel reader does - the same bytes, or not found - if
      and only if the copy fits its one-sector buffer. Otherwise what it copies is undefined. */
  lemma ServerAgreesWithReader(d: Drive, start: U32, name: seq<Byte>, mem: seq<Byte>, cap: nat)
    requires PlainFor(d, start, name) && Holds(mem, name) && Utf8(name) && name != []
    ensures var served := ServeName(d, start, TargetName(mem[..NameEnd(mem, 0)]), cap);
            && (served == AsServed(ReadByName(d, start, name, cap)) <==> FitsBuffer(d, start, name, cap))
            && (served == Undefined <==> !FitsBuffer(d, start, name, cap))
  {
    hide PlainFor, FitsBuffer, ServeName, ReadByName, Stands, TargetName, NameEnd;
    TargetStands(name, mem);
    AgreesOnTarget(d, start, name, TargetName(mem[..NameEnd(mem, 0)]), cap);
  }

  /** A client with room for one block, as the shell is, gets what the kernel reader gives for files
      of every size. */
  lemma OneBlockClient(d: Drive, start: U32, name: seq<Byte>, mem: seq<Byte>, cap: nat)
    requires PlainFor(d, start, name) && Holds(mem, name) && Utf8(name) && name != [] && cap <= BLOCK
    ensures ServeName(d, start, TargetName(mem[..NameEnd(mem, 0)]), cap) == AsServed(ReadByName(d, start, name, cap))
  {
    hide ServeName, ReadByName, TargetName, NameEnd;
    ServerAgreesWithReader(d, start, name, mem, cap);
  }
}
