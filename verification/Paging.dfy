/** Four-level page tables in physical memory. */
module Paging {
  import opened Arithmetic
  import opened Machine
  import opened Frames

  const ENTRIES: nat := 512
  const PRESENT: nat := 1
  const WRITABLE: nat := 2
  const USER: nat := 4
  const HUGE: nat := 128
  const ADDRESS_SPAN: nat := 0x10_0000_0000  // 2^36 pages
  const FRAME_SPAN: nat := 0x100_0000_0000   // 2^40 frames

  // ----- entries -----

  /** Bits 12 to 51 of an entry. */
  function Addr(e: int): (a: nat)
    ensures a % PAGE == 0 && a < FRAME_SPAN * PAGE
  {
    e % (FRAME_SPAN * PAGE) - e % PAGE
  }

  /** All the other bits. */
  function Flags(e: int): int {
    e - Addr(e)
  }

  predicate Present(e: int) {
    e % 2 == 1
  }

  predicate WritableBit(e: int) {
    e % 4 >= 2
  }

  predicate UserBit(e: int) {
    e % 8 >= 4
  }

  predicate HugeBit(e: int) {
    e % 256 >= 128
  }

  predicate ValidFrame(a: int) {
    0 <= a < FRAME_SPAN * PAGE && a % PAGE == 0
  }

  predicate ValidFlags(f: int) {
    0 <= f && Addr(f) == 0
  }

  /** `set_addr` on an entry. */
  function MakeEntry(a: nat, flags: nat): int
    requires ValidFrame(a) && ValidFlags(flags)
  {
    a + flags
  }

  const TABLE_FLAGS: nat := PRESENT + WRITABLE + USER

  lemma AddrOfSum(a: nat, flags: nat)
    requires ValidFrame(a) && ValidFlags(flags)
    ensures Addr(a + flags) == a
  {
    var k, n := a / PAGE, flags / PAGE;
    assert n % FRAME_SPAN == 0;
    assert a + flags == PAGE * (k + n) + flags % PAGE;
    assert (a + flags) / PAGE == k + n;
    ModSum(k, n);
  }

  lemma ModSum(k: nat, n: nat)
    requires k < FRAME_SPAN && n % FRAME_SPAN == 0
    ensures (k + n) % FRAME_SPAN == k
  {
    assert n == FRAME_SPAN * (n / FRAME_SPAN);
  }

  /** Adding a page-aligned amount changes none of the low bits. */
  lemma LowBits(a: int, f: int)
    requires a % PAGE == 0
    ensures Present(a + f) == Present(f) && WritableBit(a + f) == WritableBit(f)
    ensures UserBit(a + f) == UserBit(f) && HugeBit(a + f) == HugeBit(f)
  {
    hide Present, WritableBit, UserBit, HugeBit;
    var k := a / PAGE;
    assert a + f == PAGE * k + f;
    LowPresent(k, f);
    LowWritable(k, f);
    LowUser(k, f);
    LowHuge(k, f);
  }

  lemma LowPresent(k: int, f: int)
    ensures Present(PAGE * k + f) == Present(f)
  {
    assert PAGE * k + f == 2 * (2048 * k) + f;
  }

  lemma LowWritable(k: int, f: int)
    ensures WritableBit(PAGE * k + f) == WritableBit(f)
  {
    assert PAGE * k + f == 4 * (1024 * k) + f;
    Mod4(1024 * k, f);
  }

  lemma LowUser(k: int, f: int)
    ensures UserBit(PAGE * k + f) == UserBit(f)
  {
    assert PAGE * k + f == 8 * (512 * k) + f;
    Mod8(512 * k, f);
  }

  lemma LowHuge(k: int, f: int)
    ensures HugeBit(PAGE * k + f) == HugeBit(f)
  {
    assert PAGE * k + f == 256 * (16 * k) + f;
    Mod256(16 * k, f);
  }

  lemma Mod4(x: int, f: int)
    ensures (4 * x + f) % 4 == f % 4
  {
  }

  lemma Mod8(x: int, f: int)
    ensures (8 * x + f) % 8 == f % 8
  {
  }

  lemma Mod256(x: int, f: int)
    ensures (256 * x + f) % 256 == f % 256
  {
  }

  /** What an entry allows to a user-mode access. */
  datatype Rights = Rights(write: bool, user: bool)

  const FULL: Rights := Rights(true, true)
  const NONE: Rights := Rights(false, false)

  function EntryRights(e: int): Rights {
    Rights(WritableBit(e), UserBit(e))
  }

  /** An access needs the permission of both. */
  function Cut(a: Rights, b: Rights): Rights {
    Rights(a.write && b.write, a.user && b.user)
  }

  lemma EntryParts(a: nat, flags: nat)
    requires ValidFrame(a) && ValidFlags(flags)
    ensures var e := MakeEntry(a, flags);
            && Addr(e) == a && Flags(e) == flags && Present(e) == Present(flags) && HugeBit(e) == HugeBit(flags)
            && EntryRights(e) == EntryRights(flags)
  {
    hide Addr, Present, WritableBit, UserBit, HugeBit;
    AddrOfSum(a, flags);
    LowBits(a, flags);
  }

  /** `entry | USER_ACCESSIBLE` */
  function SetUser(e: int): int {
    if UserBit(e) then e else e + USER
  }

  /** Adding 4 to a number whose bit 2 is clear changes that bit only. */
  lemma AddUser(low: nat)
    requires low < PAGE && !UserBit(low)
    ensures low + USER < PAGE && UserBit(low + USER)
    ensures Present(low + USER) == Present(low) && HugeBit(low + USER) == HugeBit(low)
    ensures WritableBit(low + USER) == WritableBit(low)
  {
    hide HugeBit;
    var q, r := low / 8, low % 8;
    assert low == 8 * q + r;
    Mod8(q, r + 4);
    Mod4(1, low);
    NoCarry(low);
    AddUserHuge(low);
  }

  lemma AddUserHuge(low: nat)
    requires low % 8 < 4
    ensures HugeBit(low + 4) == HugeBit(low)
  {
    var h, l := low / 256, low % 256;
    assert low == 8 * (32 * h) + l;
    Mod8(32 * h, l);
    NoCarry(l);
    assert low + 4 == 256 * h + (l + 4);
    Mod256(h, l + 4);
  }

  lemma NoCarry(l: nat)
    requires l % 8 < 4
    ensures (l < 128 <==> l + 4 < 128) && (l < 256 <==> l + 4 < 256) && (l < PAGE <==> l + 4 < PAGE)
  {
    var q := l / 8;
    assert l == 8 * q + l % 8;
  }

  lemma SetUserParts(e: int)
    ensures var e' := SetUser(e);
            && Addr(e') == Addr(e) && Present(e') == Present(e) && HugeBit(e') == HugeBit(e)
            && WritableBit(e') == WritableBit(e) && UserBit(e') && SetUser(e') == e'
            && Flags(e') == Flags(e) + (if UserBit(e) then 0 else USER)
  {
    hide Present, WritableBit, UserBit, HugeBit;
    var high, low := PAGE * (e / PAGE), e % PAGE;
    assert e == high + low;
    LowBits(high, low);
    LowBits(high, low + USER);
    if !UserBit(e) {
      AddUser(low);
      assert (high + (low + USER)) / PAGE == e / PAGE;
      assert e + USER == high + (low + USER);
    }
  }

  // ----- walking the tables -----

  function EntryAddr(table: int, i: int): int {
    table + 8 * i
  }

  function EntryAt(m: Mem, table: int, i: int): int {
    Read(m, EntryAddr(table, i))
  }

  lemma EntryAddrInjective(t1: int, i1: int, t2: int, i2: int)
    requires t1 % PAGE == 0 && t2 % PAGE == 0 && 0 <= i1 < ENTRIES && 0 <= i2 < ENTRIES
    requires EntryAddr(t1, i1) == EntryAddr(t2, i2)
    ensures t1 == t2 && i1 == i2
  {
  }

  /** A sequence of table indices, from the level 4 table down. */
  type Path = seq<int>

  predicate Indices(p: Path) {
    forall k :: 0 <= k < |p| ==> 0 <= p[k] < ENTRIES
  }

  /** The indices of a virtual address. */
  function PathOf(virt: nat): (p: Path)
    ensures |p| == 4 && Indices(p)
  {
    [virt / 0x80_0000_0000 % ENTRIES, virt / 0x4000_0000 % ENTRIES, virt / 0x20_0000 % ENTRIES, virt / 0x1000 % ENTRIES]
  }

  function PageNumber(virt: nat): nat {
    virt / PAGE % ADDRESS_SPAN
  }

  /** Two addresses share their path exactly if they lie in the same page. */
  lemma PathsArePages(v: nat, w: nat)
    ensures PathOf(v) == PathOf(w) <==> PageNumber(v) == PageNumber(w)
  {
    hide PathOf, PageNumber;
    PathNumber(v);
    PathNumber(w);
    var p, q := PathOf(v), PathOf(w);
    if PageNumber(v) == PageNumber(w) {
      Digit(p[3], p[2] + 512 * (p[1] + 512 * p[0]), q[3], q[2] + 512 * (q[1] + 512 * q[0]));
      Digit(p[2], p[1] + 512 * p[0], q[2], q[1] + 512 * q[0]);
      Digit(p[1], p[0], q[1], q[0]);
      assert p == q;
    }
  }

  lemma Digit(a: int, x: int, b: int, y: int)
    requires 0 <= a < 512 && 0 <= b < 512 && a + 512 * x == b + 512 * y
    ensures a == b && x == y
  {
  }

  lemma PathNumber(v: nat)
    ensures var p := PathOf(v);
            PageNumber(v) == p[3] + 512 * p[2] + 262144 * p[1] + 134217728 * p[0]
  {
    var n := v / PAGE;
    Levels(v);
    LowDigit(n, 0x800_0000);
    LowDigit(n / 512, 0x4_0000);
    LowDigit(n / 512 / 512, 512);
  }

  lemma LowDigit(n: nat, m: nat)
    requires m == 512 || m == 0x4_0000 || m == 0x800_0000
    ensures n % (512 * m) == n % 512 + 512 * (n / 512 % m)
  {
    var x := n / 512;
    var y, z := x / m, x % m;
    assert n == y * (512 * m) + (n % 512 + 512 * z) by {
      assert x == m * y + z;
    }
    Split(y, n % 512 + 512 * z, 512 * m);
  }

  /** Each index is taken 9 bits above the one below it. */
  lemma Levels(v: nat)
    ensures v / 0x20_0000 == v / PAGE / 512
    ensures v / 0x4000_0000 == v / PAGE / 512 / 512
    ensures v / 0x80_0000_0000 == v / PAGE / 512 / 512 / 512
  {
    LevelUp(v, v / 0x1000, v / 0x20_0000, 0x1000);
    LevelUp(v, v / 0x20_0000, v / 0x4000_0000, 0x20_0000);
    LevelUp(v, v / 0x4000_0000, v / 0x80_0000_0000, 0x4000_0000);
  }

  lemma LevelUp(v: nat, q: nat, r: nat, size: nat)
    requires size == 0x1000 || size == 0x20_0000 || size == 0x4000_0000
    requires size * q <= v < size * q + size && size * 512 * r <= v < size * 512 * r + size * 512
    ensures r == q / 512
  {
  }

  /** The entry `e`, found with `depth` indices, leads to a further table. Level 3 and 2 entries
      may map huge pages instead. */
  predicate LeadsOn(e: int, depth: nat) {
    Present(e) && (depth == 1 || !HugeBit(e))
  }

  /** The table reached by path `p` of at most three indices. */
  function Tab(m: Mem, root: int, p: Path): Option<int>
    decreases |p|
  {
    if p == [] then Some(root)
    else
      var up := Tab(m, root, p[..|p| - 1]);
      if up.None? then None
      else
        var e := EntryAt(m, up.value, p[|p| - 1]);
        if LeadsOn(e, |p|) then Some(Addr(e)) else None
  }

  /** What a page walk finds: nothing, or the entry that maps the page, and its level. */
  datatype Translation = Fault | Mapped(entry: int, level: nat)

  /** Walk on from the table that `d` indices of `v` lead to. */
  function WalkFrom(m: Mem, root: int, v: Path, d: nat): Translation
    requires |v| == 4 && d <= 3
    decreases 3 - d
  {
    var t := Tab(m, root, v[..d]);
    if t.None? then Fault
    else
      var e := EntryAt(m, t.value, v[d]);
      if !Present(e) then Fault
      else if d == 3 || (d > 0 && HugeBit(e)) then Mapped(e, 4 - d)
      else WalkFrom(m, root, v, d + 1)
  }

  /** The translation of the page with indices `v` (section 4.5 of the Intel SDM, volume 3A). */
  function Walk(m: Mem, root: int, v: Path): Translation
    requires |v| == 4
  {
    WalkFrom(m, root, v, 0)
  }

  /** The access rights of the page with indices `v`, from the entry that `d` indices lead to: those
      that every entry of the walk gives (section 4.6 of the Intel SDM, volume 3A). */
  function RightsFrom(m: Mem, root: int, v: Path, d: nat): Rights
    requires |v| == 4 && d <= 3
    decreases 3 - d
  {
    var t := Tab(m, root, v[..d]);
    if t.None? then NONE
    else
      var e := EntryAt(m, t.value, v[d]);
      if !Present(e) then NONE
      else if d == 3 || (d > 0 && HugeBit(e)) then EntryRights(e)
      else Cut(EntryRights(e), RightsFrom(m, root, v, d + 1))
  }

  function PageRights(m: Mem, root: int, v: Path): Rights
    requires |v| == 4
  {
    RightsFrom(m, root, v, 0)
  }

  /** What the entries above level 1 leave to the page with indices `v`; an unused entry, where a
      table may still be hung, takes nothing away. */
  function AllowedFrom(m: Mem, root: int, v: Path, d: nat): Rights
    requires |v| == 4 && d <= 3
    decreases 3 - d
  {
    var t := Tab(m, root, v[..d]);
    if d == 3 || t.None? || EntryAt(m, t.value, v[d]) == 0 then FULL
    else Cut(EntryRights(EntryAt(m, t.value, v[d])), AllowedFrom(m, root, v, d + 1))
  }

  function Allowed(m: Mem, root: int, v: Path): Rights
    requires |v| == 4
  {
    AllowedFrom(m, root, v, 0)
  }

  /** The physical frame of the page with indices `v`, under a page of any size. */
  function PhysFrame(v: Path, x: Translation): int
    requires |v| == 4 && x.Mapped?
  {
    if x.level == 1 then Addr(x.entry)
    else if x.level == 2 then Addr(x.entry) / 0x20_0000 * 0x20_0000 + v[3] * PAGE
    else Addr(x.entry) / 0x4000_0000 * 0x4000_0000 + v[2] * 0x20_0000 + v[3] * PAGE
  }

  // ----- the tables form a tree -----

  predicate TablePath(p: Path) {
    |p| <= 3 && Indices(p)
  }

  /** No table is reached twice, and upper entries are zero or present. */
  ghost predicate Tree(m: Mem, root: int) {
    && root % PAGE == 0
    && (forall p, q ::
          TablePath(p) && TablePath(q) && Tab(m, root, p).Some? && Tab(m, root, p) == Tab(m, root, q) ==> p == q)
    && (forall p, i :: TablePath(p) && |p| <= 2 && Tab(m, root, p).Some? && 0 <= i < ENTRIES ==>
          ZeroOrPresent(EntryAt(m, Tab(m, root, p).value, i)))
  }

  predicate ZeroOrPresent(e: int) {
    e == 0 || Present(e)
  }

  /** Frame address `f` holds no table. */
  ghost predicate Unused(m: Mem, root: int, f: int) {
    forall p :: TablePath(p) ==> Tab(m, root, p) != Some(f)
  }

  lemma {:induction false} TabAligned(m: Mem, root: int, p: Path)
    requires root % PAGE == 0
    ensures Tab(m, root, p).Some? ==> Tab(m, root, p).value % PAGE == 0
  {
  }

  /** `write_bytes(f, 0, 4096)` */
  function ZeroFrame(m: Mem, f: int): Mem {
    map a | a in m && !(f <= a < f + PAGE) :: m[a]
  }

  /** Memory after a fresh table at `f` is hung under entry `i` of table `t`. */
  function Hang(m: Mem, t: int, i: int, f: nat): Mem
    requires ValidFrame(f)
  {
    TableFlagsValid();
    ZeroFrame(m, f)[EntryAddr(t, i) := MakeEntry(f, TABLE_FLAGS)]
  }

  lemma TableFlagsValid()
    ensures ValidFlags(TABLE_FLAGS) && Present(TABLE_FLAGS) && !HugeBit(TABLE_FLAGS)
    ensures EntryRights(TABLE_FLAGS) == FULL
  {
  }

  lemma ZeroEntry()
    ensures !Present(0)
  {
  }

  lemma HangReads(m: Mem, t: int, i: int, f: nat, s: int, j: int)
    requires ValidFrame(f) && t % PAGE == 0 && s % PAGE == 0 && 0 <= i < ENTRIES && 0 <= j < ENTRIES && t != f
    ensures EntryAt(Hang(m, t, i, f), s, j) ==
              if s == t && j == i then MakeEntry(f, TABLE_FLAGS) else if s == f then 0 else EntryAt(m, s, j)
  {
    if EntryAddr(s, j) == EntryAddr(t, i) {
      EntryAddrInjective(s, j, t, i);
    }
    assert s != f ==> !(f <= EntryAddr(s, j) < f + PAGE);
  }

  /** The tree and the unused frame, at two paths. */
  lemma TreeAt(m: Mem, root: int, p: Path, q: Path, f: int)
    requires Tree(m, root) && Unused(m, root, f) && TablePath(p) && TablePath(q)
    ensures root % PAGE == 0 && Tab(m, root, p) != Some(f) && Tab(m, root, q) != Some(f)
    ensures Tab(m, root, p).Some? && Tab(m, root, p) == Tab(m, root, q) ==> p == q
  {
    hide Tab;
  }

  /** Hanging a fresh table adds exactly one table and no translation. */
  lemma {:induction false} HangTab(m: Mem, root: int, p: Path, i: int, f: nat, q: Path)
    requires Tree(m, root) && TablePath(p) && |p| <= 2 && 0 <= i < ENTRIES && Tab(m, root, p).Some?
    requires EntryAt(m, Tab(m, root, p).value, i) == 0
    requires ValidFrame(f) && Unused(m, root, f) && TablePath(q)
    ensures Tab(Hang(m, Tab(m, root, p).value, i, f), root, q)
         == if q == p + [i] then Some(f) else Tab(m, root, q)
    decreases |q|
  {
    hide Hang, EntryAt, ValidFrame, Tree, Unused, LeadsOn;
    if q != [] {
      var r, j := q[..|q| - 1], q[|q| - 1];
      assert q == r + [j];
      HangTab(m, root, p, i, f, r);
      HangStep(m, root, p, i, f, r, j);
    }
  }

  /** One index further, before and after. */
  lemma HangStep(m: Mem, root: int, p: Path, i: int, f: nat, r: Path, j: int)
    requires Tree(m, root) && TablePath(p) && |p| <= 2 && 0 <= i < ENTRIES && Tab(m, root, p).Some?
    requires EntryAt(m, Tab(m, root, p).value, i) == 0
    requires ValidFrame(f) && Unused(m, root, f) && TablePath(r) && |r| <= 2 && 0 <= j < ENTRIES
    requires Tab(Hang(m, Tab(m, root, p).value, i, f), root, r) == if r == p + [i] then Some(f) else Tab(m, root, r)
    ensures Tab(Hang(m, Tab(m, root, p).value, i, f), root, r + [j])
         == if r + [j] == p + [i] then Some(f) else Tab(m, root, r + [j])
  {
    hide Hang, EntryAt, Addr, Present, HugeBit, ValidFrame, MakeEntry, Tree, Unused, Tab;
    var t := Tab(m, root, p).value;
    var m' := Hang(m, t, i, f);
    TreeAt(m, root, p, r, f);
    TabAligned(m, root, p);
    TabAligned(m, root, r);
    ZeroEntry();
    TableFlagsValid();
    EntryParts(f, TABLE_FLAGS);
    TabSnoc(m, root, r, j);
    TabSnoc(m', root, r, j);
    TabSnoc(m, root, p, i);
    if Tab(m', root, r).Some? {
      HangReads(m, t, i, f, Tab(m', root, r).value, j);
    }
    assert r + [j] == p + [i] <==> r == p && j == i by {
      assert (r + [j])[..|r + [j]| - 1] == r && (p + [i])[..|p + [i]| - 1] == p;
    }
  }

  lemma TabSnoc(m: Mem, root: int, r: Path, j: int)
    ensures Tab(m, root, r + [j]) ==
              var up := Tab(m, root, r);
              if up.None? then None
              else
                var e := EntryAt(m, up.value, j);
                if LeadsOn(e, |r| + 1) then Some(Addr(e)) else None
  {
    hide EntryAt, LeadsOn, Addr;
    assert (r + [j])[..|r|] == r;
  }

  lemma HangTree(m: Mem, root: int, p: Path, i: int, f: nat)
    requires Tree(m, root) && TablePath(p) && |p| <= 2 && 0 <= i < ENTRIES && Tab(m, root, p).Some?
    requires EntryAt(m, Tab(m, root, p).value, i) == 0
    requires ValidFrame(f) && Unused(m, root, f)
    ensures var m' := Hang(m, Tab(m, root, p).value, i, f);
            && Tree(m', root) && Tab(m', root, p + [i]) == Some(f)
            && forall g :: g != f && Unused(m, root, g) ==> Unused(m', root, g)
  {
    var t := Tab(m, root, p).value;
    var m' := Hang(m, t, i, f);
    assert TablePath(p + [i]);
    forall q | TablePath(q) ensures Tab(m', root, q) == if q == p + [i] then Some(f) else Tab(m, root, q) {
      HangTab(m, root, p, i, f, q);
    }
    forall q, j | TablePath(q) && |q| <= 2 && Tab(m', root, q).Some? && 0 <= j < ENTRIES
      ensures ZeroOrPresent(EntryAt(m', Tab(m', root, q).value, j))
    {
      HangEntry(m, root, p, i, f, q, j);
      assert q != p + [i] ==> ZeroOrPresent(EntryAt(m, Tab(m, root, q).value, j));
    }
  }

  /** Which entries a fresh table brings: its own zeros and the one that leads to it. */
  lemma HangEntry(m: Mem, root: int, p: Path, i: int, f: nat, q: Path, j: int)
    requires Tree(m, root) && TablePath(p) && |p| <= 2 && 0 <= i < ENTRIES && Tab(m, root, p).Some?
    requires EntryAt(m, Tab(m, root, p).value, i) == 0
    requires ValidFrame(f) && Unused(m, root, f) && TablePath(q) && 0 <= j < ENTRIES
    ensures var m' := Hang(m, Tab(m, root, p).value, i, f);
            Tab(m', root, q).Some? ==>
              var e := EntryAt(m', Tab(m', root, q).value, j);
              if q == p + [i] then e == 0
              else if q == p && j == i then Present(e) && !HugeBit(e) && EntryRights(e) == FULL
              else Tab(m, root, q) == Tab(m', root, q) && e == EntryAt(m, Tab(m, root, q).value, j)
  {
    HangTab(m, root, p, i, f, q);
    var t := Tab(m, root, p).value;
    var s := Tab(Hang(m, t, i, f), root, q);
    TabAligned(m, root, p);
    TabAligned(m, root, q);
    TableFlagsValid();
    EntryParts(f, TABLE_FLAGS);
    if s.Some? {
      HangReads(m, t, i, f, s.value, j);
    }
  }

  lemma NoTabYet(m: Mem, root: int, p: Path, i: int)
    requires Tab(m, root, p).Some? && EntryAt(m, Tab(m, root, p).value, i) == 0
    ensures Tab(m, root, p + [i]).None?
  {
    assert (p + [i])[..|p|] == p;
  }

  lemma {:induction false} HangWalk(m: Mem, root: int, p: Path, i: int, f: nat, v: Path, d: nat)
    requires Tree(m, root) && TablePath(p) && |p| <= 2 && 0 <= i < ENTRIES && Tab(m, root, p).Some?
    requires EntryAt(m, Tab(m, root, p).value, i) == 0
    requires ValidFrame(f) && Unused(m, root, f) && |v| == 4 && Indices(v) && d <= 3
    ensures WalkFrom(Hang(m, Tab(m, root, p).value, i, f), root, v, d) == WalkFrom(m, root, v, d)
    decreases 3 - d
  {
    hide Tree, Hang, EntryAt, Unused, Addr, Tab, Present, HugeBit, MakeEntry, ValidFrame;
    var q, j := v[..d], v[d];
    ZeroEntry();
    NoTabYet(m, root, p, i);
    HangTab(m, root, p, i, f, q);
    HangEntry(m, root, p, i, f, q, j);
    if d < 3 {
      HangWalk(m, root, p, i, f, v, d + 1);
      if q == p && j == i {
        assert v[..d + 1] == p + [i];
        HangTab(m, root, p, i, f, v[..d + 1]);
        HangEntry(m, root, p, i, f, v[..d + 1], v[d + 1]);
      }
    }
  }

  /** A fresh table gives no page any right, and takes none from what may be mapped under it. */
  lemma {:induction false} HangRights(m: Mem, root: int, p: Path, i: int, f: nat, v: Path, d: nat)
    requires Tree(m, root) && TablePath(p) && |p| <= 2 && 0 <= i < ENTRIES && Tab(m, root, p).Some?
    requires EntryAt(m, Tab(m, root, p).value, i) == 0
    requires ValidFrame(f) && Unused(m, root, f) && |v| == 4 && Indices(v) && d <= 3
    ensures var m' := Hang(m, Tab(m, root, p).value, i, f);
            && RightsFrom(m', root, v, d) == RightsFrom(m, root, v, d)
            && AllowedFrom(m', root, v, d) == AllowedFrom(m, root, v, d)
    decreases 3 - d
  {
    hide Tree, Hang, EntryAt, Unused, Addr, Tab, Present, HugeBit, MakeEntry, ValidFrame, EntryRights;
    var q, j := v[..d], v[d];
    ZeroEntry();
    NoTabYet(m, root, p, i);
    HangTab(m, root, p, i, f, q);
    HangEntry(m, root, p, i, f, q, j);
    if d < 3 {
      HangRights(m, root, p, i, f, v, d + 1);
      if q == p && j == i {
        assert v[..d + 1] == p + [i];
        HangTab(m, root, p, i, f, v[..d + 1]);
        HangEntry(m, root, p, i, f, v[..d + 1], v[d + 1]);
      }
    }
  }

  /** Page `v` translates as before, with the same rights, and so would what may be mapped there. */
  predicate SamePage(m: Mem, m': Mem, root: int, v: Path)
    requires |v| == 4
  {
    && Walk(m', root, v) == Walk(m, root, v) && PageRights(m', root, v) == PageRights(m, root, v)
    && Allowed(m', root, v) == Allowed(m, root, v)
  }

  ghost predicate SameWalks(m: Mem, m': Mem, root: int) {
    forall v :: |v| == 4 && Indices(v) ==> SamePage(m, m', root, v)
  }

  // ----- writing a leaf entry -----

  lemma {:induction false} LeafTab(m: Mem, root: int, p: Path, i: int, e: int, q: Path)
    requires Tree(m, root) && TablePath(p) && |p| == 3 && 0 <= i < ENTRIES && Tab(m, root, p).Some? && TablePath(q)
    ensures Tab(m[EntryAddr(Tab(m, root, p).value, i) := e], root, q) == Tab(m, root, q)
    decreases |q|
  {
    if q != [] {
      var r, j := q[..|q| - 1], q[|q| - 1];
      LeafTab(m, root, p, i, e, r);
      TabAligned(m, root, p);
      TabAligned(m, root, r);
      if Tab(m, root, r).Some? && EntryAddr(Tab(m, root, r).value, j) == EntryAddr(Tab(m, root, p).value, i) {
        EntryAddrInjective(Tab(m, root, r).value, j, Tab(m, root, p).value, i);
      }
    }
  }

  lemma LeafTree(m: Mem, root: int, p: Path, i: int, e: int)
    requires Tree(m, root) && TablePath(p) && |p| == 3 && 0 <= i < ENTRIES && Tab(m, root, p).Some?
    ensures var m' := m[EntryAddr(Tab(m, root, p).value, i) := e];
            Tree(m', root) && forall g :: Unused(m, root, g) ==> Unused(m', root, g)
  {
    var t := Tab(m, root, p).value;
    var m' := m[EntryAddr(t, i) := e];
    forall q | TablePath(q) ensures Tab(m', root, q) == Tab(m, root, q) {
      LeafTab(m, root, p, i, e, q);
    }
    forall q, j | TablePath(q) && |q| <= 2 && Tab(m', root, q).Some? && 0 <= j < ENTRIES
      ensures ZeroOrPresent(EntryAt(m', Tab(m', root, q).value, j))
    {
      LeafEntry(m, root, p, i, e, q, j);
      assert ZeroOrPresent(EntryAt(m, Tab(m, root, q).value, j));
    }
  }

  lemma LeafEntry(m: Mem, root: int, p: Path, i: int, e: int, q: Path, j: int)
    requires Tree(m, root) && TablePath(p) && |p| == 3 && 0 <= i < ENTRIES && Tab(m, root, p).Some?
    requires TablePath(q) && 0 <= j < ENTRIES && Tab(m, root, q).Some?
    ensures EntryAt(m[EntryAddr(Tab(m, root, p).value, i) := e], Tab(m, root, q).value, j)
         == if q == p && j == i then e else EntryAt(m, Tab(m, root, q).value, j)
  {
    TabAligned(m, root, p);
    TabAligned(m, root, q);
    if EntryAddr(Tab(m, root, q).value, j) == EntryAddr(Tab(m, root, p).value, i) {
      EntryAddrInjective(Tab(m, root, q).value, j, Tab(m, root, p).value, i);
    }
  }

  /** Writing a leaf changes the translation of its own page and of no other. */
  lemma {:induction false} LeafWalk(m: Mem, root: int, p: Path, i: int, e: int, v: Path, d: nat)
    requires Tree(m, root) && TablePath(p) && |p| == 3 && 0 <= i < ENTRIES && Tab(m, root, p).Some?
    requires |v| == 4 && Indices(v) && d <= 3
    ensures WalkFrom(m[EntryAddr(Tab(m, root, p).value, i) := e], root, v, d)
         == if v != p + [i] then WalkFrom(m, root, v, d)
            else if Present(e) then Mapped(e, 1) else Fault
    decreases 3 - d
  {
    LeafTab(m, root, p, i, e, v[..d]);
    if Tab(m, root, v[..d]).Some? {
      LeafEntry(m, root, p, i, e, v[..d], v[d]);
    }
    if d < 3 {
      LeafWalk(m, root, p, i, e, v, d + 1);
    }
    if v == p + [i] {
      assert v[..3] == p;
      Reached(m, root, v, d, 3);
    } else if d == 3 {
      assert v == v[..3] + [v[3]];
    }
  }

  /** On the way to a table, every entry leads on. */
  lemma {:induction false} Reached(m: Mem, root: int, v: Path, d: nat, e: nat)
    requires |v| == 4 && d <= e <= 3 && Tab(m, root, v[..e]).Some?
    ensures Tab(m, root, v[..d]).Some?
    ensures d < e ==> LeadsOn(EntryAt(m, Tab(m, root, v[..d]).value, v[d]), d + 1)
    decreases e - d
  {
    if d < e {
      Reached(m, root, v, d + 1, e);
      assert v[..d + 1][..d] == v[..d];
    }
  }

  /** Writing a leaf sets the rights of its own page: those of the leaf, cut by the entries above. */
  lemma {:induction false} LeafRights(m: Mem, root: int, p: Path, i: int, e: int, v: Path, d: nat)
    requires Tree(m, root) && TablePath(p) && |p| == 3 && 0 <= i < ENTRIES && Tab(m, root, p).Some?
    requires |v| == 4 && Indices(v) && d <= 3
    ensures var m' := m[EntryAddr(Tab(m, root, p).value, i) := e];
            && AllowedFrom(m', root, v, d) == AllowedFrom(m, root, v, d)
            && RightsFrom(m', root, v, d)
               == if v != p + [i] then RightsFrom(m, root, v, d)
                  else if Present(e) then Cut(AllowedFrom(m, root, v, d), EntryRights(e)) else NONE
    decreases 3 - d
  {
    hide Tree, EntryAt, Addr, EntryRights, Tab;
    LeafTab(m, root, p, i, e, v[..d]);
    if Tab(m, root, v[..d]).Some? {
      LeafEntry(m, root, p, i, e, v[..d], v[d]);
    }
    if d < 3 {
      LeafRights(m, root, p, i, e, v, d + 1);
    }
    if v == p + [i] {
      assert v[..3] == p;
      Reached(m, root, v, d, 3);
    } else if d == 3 {
      assert v == v[..3] + [v[3]];
    }
  }

  // ----- map_page -----

  /** Page `v` of memory `m'` is mapped to `phys` with `flags`, seen from memory `m` before. */
  predicate NewPage(m: Mem, m': Mem, root: int, v: Path, phys: nat, flags: nat)
    requires |v| == 4 && ValidFrame(phys) && ValidFlags(flags)
  {
    if Present(flags) then
      && Walk(m', root, v) == Mapped(MakeEntry(phys, flags), 1) && PhysFrame(v, Walk(m', root, v)) == phys
      && PageRights(m', root, v) == Cut(Allowed(m, root, v), EntryRights(flags))
    else Walk(m', root, v) == Fault && PageRights(m', root, v) == NONE
  }

  /** Under an unused level 4 entry, or under upper entries that allow everything, a new page gets
      exactly the rights asked for. */
  lemma FreshRights(m: Mem, root: int, v: Path, flags: int)
    requires |v| == 4 && (EntryAt(m, root, v[0]) == 0 || Allowed(m, root, v) == FULL)
    ensures Cut(Allowed(m, root, v), EntryRights(flags)) == EntryRights(flags)
  {
    assert v[..0] == [];
  }

  /** No present entry on the way of `v` maps a huge page. */
  ghost predicate NoHugeOn(m: Mem, root: int, v: Path)
    requires |v| == 4
  {
    forall d :: 1 <= d <= 2 && Tab(m, root, v[..d]).Some? ==> NotHuge(EntryAt(m, Tab(m, root, v[..d]).value, v[d]))
  }

  predicate NotHuge(e: int) {
    Present(e) ==> !HugeBit(e)
  }

  lemma {:induction false} HugeEnds(m: Mem, root: int, v: Path, d: nat, e: nat)
    requires |v| == 4 && d <= e && 1 <= e <= 2 && Tab(m, root, v[..e]).Some?
    requires !NotHuge(EntryAt(m, Tab(m, root, v[..e]).value, v[e]))
    ensures WalkFrom(m, root, v, d) == Mapped(EntryAt(m, Tab(m, root, v[..e]).value, v[e]), 4 - e)
    decreases e - d
  {
    Reached(m, root, v, d, e);
    if d < e {
      HugeEnds(m, root, v, d + 1, e);
    }
  }

  lemma {:induction false} NoHugeWalk(m: Mem, root: int, v: Path, d: nat)
    requires |v| == 4 && d <= 3 && NoHugeOn(m, root, v)
    ensures var x := WalkFrom(m, root, v, d); x.Mapped? ==> x.level == 1
    decreases 3 - d
  {
    if d < 3 {
      NoHugeWalk(m, root, v, d + 1);
      if d >= 1 && Tab(m, root, v[..d]).Some? {
        assert NotHuge(EntryAt(m, Tab(m, root, v[..d]).value, v[d]));
      }
    }
  }

  /** What a caller of `map_page` can check beforehand: a huge page is on the way exactly if the page
      is already mapped as a part of one. */
  lemma NoHugeIs(m: Mem, root: int, v: Path)
    requires |v| == 4
    ensures var x := Walk(m, root, v); NoHugeOn(m, root, v) <==> (x.Mapped? ==> x.level == 1)
  {
    if NoHugeOn(m, root, v) {
      NoHugeWalk(m, root, v, 0);
    } else {
      var e :| 1 <= e <= 2 && Tab(m, root, v[..e]).Some? && !NotHuge(EntryAt(m, Tab(m, root, v[..e]).value, v[e]));
      HugeEnds(m, root, v, 0, e);
    }
  }

  lemma HangNoHuge(m: Mem, root: int, p: Path, i: int, f: nat, v: Path)
    requires Tree(m, root) && TablePath(p) && |p| <= 2 && 0 <= i < ENTRIES && Tab(m, root, p).Some?
    requires EntryAt(m, Tab(m, root, p).value, i) == 0
    requires ValidFrame(f) && Unused(m, root, f) && |v| == 4 && Indices(v) && NoHugeOn(m, root, v)
    ensures NoHugeOn(Hang(m, Tab(m, root, p).value, i, f), root, v)
  {
    var m' := Hang(m, Tab(m, root, p).value, i, f);
    forall d | 1 <= d <= 2 && Tab(m', root, v[..d]).Some?
      ensures NotHuge(EntryAt(m', Tab(m', root, v[..d]).value, v[d]))
    {
      HangTab(m, root, p, i, f, v[..d]);
      HangEntry(m, root, p, i, f, v[..d], v[d]);
      assert v[..d] != p + [i] ==> NotHuge(EntryAt(m, Tab(m, root, v[..d]).value, v[d]));
    }
  }

  lemma SameAsItself(m: Mem, root: int)
    ensures SameWalks(m, m, root)
  {
    assert forall v :: |v| == 4 && Indices(v) ==> SamePage(m, m, root, v);
  }

  /** A fresh table changes no page, and brings no huge page. */
  lemma HangSame(m: Mem, root: int, p: Path, i: int, f: nat)
    requires Tree(m, root) && TablePath(p) && |p| <= 2 && 0 <= i < ENTRIES && Tab(m, root, p).Some?
    requires EntryAt(m, Tab(m, root, p).value, i) == 0
    requires ValidFrame(f) && Unused(m, root, f)
    ensures var m' := Hang(m, Tab(m, root, p).value, i, f);
            && SameWalks(m, m', root)
            && forall v :: |v| == 4 && Indices(v) && NoHugeOn(m, root, v) ==> NoHugeOn(m', root, v)
  {
    hide Tree, NoHugeOn, Tab, EntryAt, Hang, WalkFrom, RightsFrom, AllowedFrom, Unused, ValidFrame;
    var m' := Hang(m, Tab(m, root, p).value, i, f);
    forall v | |v| == 4 && Indices(v) ensures SamePage(m, m', root, v) {
      HangWalk(m, root, p, i, f, v, 0);
      HangRights(m, root, p, i, f, v, 0);
    }
    forall v | |v| == 4 && Indices(v) && NoHugeOn(m, root, v) ensures NoHugeOn(m', root, v) {
      HangNoHuge(m, root, p, i, f, v);
    }
  }

  ghost predicate Available(m: Mem, root: int, frame: nat) {
    ValidFrame(frame * PAGE) && Unused(m, root, frame * PAGE)
  }

  class AddressSpace {
    var mem: Mem
    const root: int
    const frames: BootInfoFrameAllocator

    /** The tables form a tree, and no frame still to be issued holds a table. */
    ghost predicate Valid()
      reads this, frames
    {
      && frames.Valid() && Tree(mem, root) && Distinct(AllFrames(frames.regions))
      && forall k :: |frames.issued| <= k < |AllFrames(frames.regions)| ==>
        Available(mem, root, AllFrames(frames.regions)[k])
    }

    constructor (mem: Mem, root: int, frames: BootInfoFrameAllocator)
      requires frames.Valid() && Tree(mem, root) && Distinct(AllFrames(frames.regions))
      requires forall k :: |frames.issued| <= k < |AllFrames(frames.regions)| ==>
          Available(mem, root, AllFrames(frames.regions)[k])
      ensures Valid() && this.mem == mem && this.root == root && this.frames == frames
    {
      this.mem, this.root, this.frames := mem, root, frames;
    }

    /** `alloc_zeroed_frame` */
    method AllocZeroedFrame() returns (r: Option<nat>)
      requires Valid()
      modifies this`mem, frames
      ensures r.None? ==> Valid() && mem == old(mem) && frames.issued == old(frames.issued) == AllFrames(frames.regions)
      ensures r.Some? ==>
                && frames.Valid() && ValidFrame(r.value) && Unused(old(mem), root, r.value)
                  && mem == ZeroFrame(old(mem), r.value)
                && (forall k :: |frames.issued| <= k < |AllFrames(frames.regions)| ==>
                      Available(old(mem), root, AllFrames(frames.regions)[k])
                          && AllFrames(frames.regions)[k] * PAGE != r.value)
    {
      r := frames.AllocateFrame();
      if r.Some? {
        assert Available(old(mem), root, AllFrames(frames.regions)[|old(frames.issued)|]);
        mem := ZeroFrame(mem, r.value);
      }
    }

    /** Follow entry `i` of table `t`, which path `p` leads to, hanging a fresh table there first
        if the entry is unused. */
    method NextTable(t: int, i: nat, ghost p: Path) returns (next: Option<int>)
      requires Valid() && TablePath(p) && |p| <= 2 && Tab(mem, root, p) == Some(t) && i < ENTRIES
      requires EntryAt(mem, t, i) != 0 ==> LeadsOn(EntryAt(mem, t, i), |p| + 1)
      modifies this`mem, frames
      ensures Valid() && SameWalks(old(mem), mem, root)
      ensures next.Some? ==> Tab(mem, root, p + [i]) == next
      ensures next.Some? && EntryAt(old(mem), t, i) == 0 ==> EntryAt(mem, t, i) == next.value + 7
      ensures next.None? ==> frames.issued == AllFrames(frames.regions)
      ensures forall v :: |v| == 4 && Indices(v) && NoHugeOn(old(mem), root, v) ==> NoHugeOn(mem, root, v)
    {
      hide Tree, Distinct, NoHugeOn, SameWalks, AllFrames, Tab, Addr;
      SameAsItself(mem, root);
      TabSnoc(mem, root, p, i);
      if EntryAt(mem, t, i) == 0 {
        var frame := AllocZeroedFrame();
        if frame.None? {
          return None;
        }
        var f := frame.value;
        TableFlagsValid();
        mem := mem[EntryAddr(t, i) := MakeEntry(f, TABLE_FLAGS)];
        assert mem == Hang(old(mem), t, i, f);
        HangTree(old(mem), root, p, i, f);
        HangSame(old(mem), root, p, i, f);
        return Some(f);
      }
      next := Some(Addr(EntryAt(mem, t, i)));
    }

    /** Write the level 1 entry of the page of `virt`. */
    method SetLeaf(t: int, i: nat, phys: nat, flags: nat, ghost virt: nat)
      requires Valid() && ValidFrame(phys) && ValidFlags(flags) && i < ENTRIES
      requires Tab(mem, root, PathOf(virt)[..3]) == Some(t) && PathOf(virt)[3] == i
      modifies this`mem
      ensures Valid()
      ensures NewPage(old(mem), mem, root, PathOf(virt), phys, flags)
      ensures forall w: nat :: PageNumber(w) != PageNumber(virt) ==> SamePage(old(mem), mem, root, PathOf(w))
    {
      hide Tree, PathOf, PageNumber, WalkFrom, RightsFrom, AllowedFrom, Tab, Addr, Present, Unused, EntryRights;
      ghost var v := PathOf(virt);
      var e := MakeEntry(phys, flags);
      EntryParts(phys, flags);
      mem := mem[EntryAddr(t, i) := e];
      LeafTree(old(mem), root, v[..3], i, e);
      assert v == v[..3] + [i];
      LeafWalk(old(mem), root, v[..3], i, e, v, 0);
      LeafRights(old(mem), root, v[..3], i, e, v, 0);
      forall w: nat | PageNumber(w) != PageNumber(virt) ensures SamePage(old(mem), mem, root, PathOf(w)) {
        PathsArePages(w, virt);
        LeafWalk(old(mem), root, v[..3], i, e, PathOf(w), 0);
        LeafRights(old(mem), root, v[..3], i, e, PathOf(w), 0);
      }
      forall k | |frames.issued| <= k < |AllFrames(frames.regions)|
        ensures Available(mem, root, AllFrames(frames.regions)[k])
      {
        assert Available(old(mem), root, AllFrames(frames.regions)[k]);
      }
    }

    /** The level 1 table for the page with indices `v`, hanging missing tables on the way. */
    method TableFor(v: Path) returns (t: Option<int>)
      requires Valid() && |v| == 4 && Indices(v) && NoHugeOn(mem, root, v)
      modifies this`mem, frames
      ensures Valid() && SameWalks(old(mem), mem, root)
      ensures t.Some? ==> Tab(mem, root, v[..3]) == t
      ensures t.None? ==> frames.issued == AllFrames(frames.regions)
    {
      hide Tree, Distinct, LeadsOn, NoHugeOn, Available, EntryAt, SameWalks, Tab, AllFrames;
      RootTab(mem, root);
      assert v[..0] == [] && v[..1] == [] + [v[0]] && v[..2] == v[..1] + [v[1]] && v[..3] == v[..2] + [v[2]];
      EntryOnPath(mem, root, v, 0);
      var t3 := NextTable(root, v[0], []);
      if t3.None? {
        return None;
      }
      ghost var m3 := mem;
      EntryOnPath(mem, root, v, 1);
      var t2 := NextTable(t3.value, v[1], v[..1]);
      SameWalksTwice(old(mem), m3, mem, root);
      if t2.None? {
        return None;
      }
      ghost var m2 := mem;
      EntryOnPath(mem, root, v, 2);
      t := NextTable(t2.value, v[2], v[..2]);
      SameWalksTwice(old(mem), m2, mem, root);
    }

    /** Map the page of `virt` to `phys`. On success that page translates to the given frame and has
        the given rights, cut only by upper entries that were there before; every other page
        translates as before with its rights. Out of frames, no page changes. */
    method MapPage(virt: nat, phys: nat, flags: nat) returns (ok: bool)
      requires Valid() && ValidFrame(phys) && ValidFlags(flags) && NoHugeOn(mem, root, PathOf(virt))
      modifies this`mem, frames
      ensures Valid()
      ensures ok ==> NewPage(old(mem), mem, root, PathOf(virt), phys, flags)
      ensures ok ==> forall w: nat :: PageNumber(w) != PageNumber(virt) ==> SamePage(old(mem), mem, root, PathOf(w))
      ensures !ok ==> SameWalks(old(mem), mem, root) && frames.issued == AllFrames(frames.regions)
    {
      hide PathOf, PageNumber, Tree, Distinct, NoHugeOn, Available, Walk, PageRights, Allowed, EntryRights;
      var t1 := TableFor(PathOf(virt));
      if t1.None? {
        return false;
      }
      SetLeaf(t1.value, PathOf(virt)[3], phys, flags, virt);
      ok := true;
    }
  }

  lemma RootTab(m: Mem, root: int)
    ensures Tab(m, root, []) == Some(root)
  {
  }

  lemma SameWalksTwice(m1: Mem, m2: Mem, m3: Mem, root: int)
    requires SameWalks(m1, m2, root) && SameWalks(m2, m3, root)
    ensures SameWalks(m1, m3, root)
  {
    forall v | |v| == 4 && Indices(v) ensures SamePage(m1, m3, root, v) {
      assert SamePage(m1, m2, root, v) && SamePage(m2, m3, root, v);
    }
  }

  /** On a path without huge pages every used entry leads on. */
  lemma EntryOnPath(m: Mem, root: int, v: Path, d: nat)
    requires |v| == 4 && Indices(v) && d <= 2 && Tree(m, root) && NoHugeOn(m, root, v)
    ensures Tab(m, root, v[..d]).Some? ==>
              var e := EntryAt(m, Tab(m, root, v[..d]).value, v[d]); e != 0 ==> LeadsOn(e, d + 1)
  {
    var t := Tab(m, root, v[..d]);
    if t.Some? {
      assert TablePath(v[..d]) && ZeroOrPresent(EntryAt(m, t.value, v[d]));
      assert d >= 1 ==> NotHuge(EntryAt(m, t.value, v[d]));
    }
  }
}
