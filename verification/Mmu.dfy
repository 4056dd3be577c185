/** Address translation as the processor does it, word by word, and what the page-table code makes of
    it (sections 4.5 and 4.6 of the Intel SDM, volume 3A). */
module Mmu {
  import opened Machine
  import opened Frames
  import opened Paging
  import opened UserAccess

  /** What an access to a virtual address meets. */
  datatype Access = NoAccess | Access(phys: int, write: bool, user: bool)

  function Load(m: Mem, table: int, i: int): int {
    Read(m, table + 8 * i)
  }

  /** Bits 12 to 51 of an entry, in place. */
  function Base(e: int): int {
    e % 0x10_0000_0000_0000 - e % 0x1000
  }

  function Meet(e: int, a: Access): Access {
    if a.NoAccess? then a else Access(a.phys, e % 4 >= 2 && a.write, e % 8 >= 4 && a.user)
  }

  /** A page of level 1, 2 or 3: of 4 kilobytes, 2 megabytes or 1 gigabyte. */
  function Page(e: int, level: nat, virt: nat): Access {
    var phys :=
      if level == 1 then Base(e) + virt % 0x1000
      else if level == 2 then Base(e) / 0x20_0000 * 0x20_0000 + virt % 0x20_0000
      else Base(e) / 0x4000_0000 * 0x4000_0000 + virt % 0x4000_0000;
    Access(phys, e % 4 >= 2, e % 8 >= 4)
  }

  /** The nine bits of an address that choose the entry in a table of the given level. */
  function Index(virt: nat, level: nat): nat {
    if level == 1 then virt / 0x1000 % 512
    else if level == 2 then virt / 0x20_0000 % 512
    else if level == 3 then virt / 0x4000_0000 % 512
    else virt / 0x80_0000_0000 % 512
  }

  /** From the table of the given level on. */
  function Translate(m: Mem, table: int, level: nat, virt: nat): Access
    requires 1 <= level <= 4
    decreases level
  {
    var e := Load(m, table, Index(virt, level));
    if e % 2 == 0 then NoAccess
    else if level == 1 || (level < 4 && e % 256 >= 128) then Page(e, level, virt)
    else Meet(e, Translate(m, Base(e), level - 1, virt))
  }

  /** What a walk over the indices `v` and the rights of its entries say about an address. */
  function Found(v: Path, virt: nat, x: Translation, r: Rights): Access
    requires |v| == 4
  {
    if x.Fault? then NoAccess else Access(PhysFrame(v, x) + virt % 0x1000, r.write, r.user)
  }

  function From(m: Mem, root: int, v: Path, virt: nat, d: nat): Access
    requires |v| == 4 && d <= 3
  {
    Found(v, virt, WalkFrom(m, root, v, d), RightsFrom(m, root, v, d))
  }

  lemma NotPresent(m: Mem, root: int, v: Path, virt: nat, d: nat)
    requires |v| == 4 && d <= 3
    ensures var t := Tab(m, root, v[..d]);
            t.Some? && !Present(EntryAt(m, t.value, v[d])) ==> From(m, root, v, virt, d) == NoAccess
  {
    hide EntryAt, PhysFrame, Present;
  }

  lemma LeafHere(m: Mem, root: int, v: Path, virt: nat, d: nat)
    requires |v| == 4 && d <= 3
    ensures var t := Tab(m, root, v[..d]);
            t.Some? ==>
              var e := EntryAt(m, t.value, v[d]);
              Present(e) && (d == 3 || (d > 0 && HugeBit(e))) ==>
                From(m, root, v, virt, d) == Found(v, virt, Mapped(e, 4 - d), EntryRights(e))
  {
    hide EntryAt, Present, HugeBit, Found;
  }

  lemma LedOn(m: Mem, root: int, v: Path, virt: nat, d: nat)
    requires |v| == 4 && d < 3
    ensures var t := Tab(m, root, v[..d]);
            t.Some? ==>
              var e := EntryAt(m, t.value, v[d]);
              LeadsOn(e, d + 1) ==>
                Tab(m, root, v[..d + 1]) == Some(Addr(e))
                && From(m, root, v, virt, d) == Meet(e, From(m, root, v, virt, d + 1))
  {
    hide EntryAt, PhysFrame, Present, HugeBit, Addr;
    assert v[..d + 1][..d] == v[..d] && v[..d + 1][d] == v[d];
  }

  /** The place inside a page of any size. */
  lemma Inside(virt: nat, e: int, level: nat)
    requires 1 <= level <= 3
    ensures Found(PathOf(virt), virt, Mapped(e, level), EntryRights(e)) == Page(e, level, virt)
  {
    var v := PathOf(virt);
    assert virt % 0x20_0000 == v[3] * 0x1000 + virt % 0x1000 by { Low(virt, 0x1000, 512); }
    assert virt % 0x4000_0000 == v[2] * 0x20_0000 + virt % 0x20_0000 by { Low(virt, 0x20_0000, 512); }
    assert Addr(e) / 0x1000 * 0x1000 == Addr(e);
  }

  lemma Low(n: nat, a: nat, b: nat)
    requires (a == 0x1000 || a == 0x20_0000) && b == 512
    ensures n % (a * b) == n / a % b * a + n % a
  {
    var q := n / a;
    assert n == q / b * (a * b) + (q % b * a + n % a);
  }

  lemma IndexOf(virt: nat, d: nat)
    requires d <= 3
    ensures PathOf(virt)[d] == Index(virt, 4 - d)
  {
  }

  /** The walk and the rights that the results about the page tables speak of are those of the
      processor, for every address and every page size: from any table that the walk reaches, and so
      from the root. */
  lemma {:induction false} WalkIsTranslation(m: Mem, root: int, virt: nat, d: nat)
    requires d <= 3
    ensures var t := Tab(m, root, PathOf(virt)[..d]);
            t.Some? ==> Translate(m, t.value, 4 - d, virt) == From(m, root, PathOf(virt), virt, d)
    decreases 3 - d
  {
    hide From, Page, Tab, Found, PathOf, Index;
    var v := PathOf(virt);
    var t := Tab(m, root, v[..d]);
    if t.Some? {
      IndexOf(virt, d);
      var e := EntryAt(m, t.value, v[d]);
      assert e == Load(m, t.value, Index(virt, 4 - d));
      if !Present(e) {
        NotPresent(m, root, v, virt, d);
      } else if LeadsOn(e, d + 1) && d < 3 {
        LedOn(m, root, v, virt, d);
        WalkIsTranslation(m, root, virt, d + 1);
      } else {
        LeafHere(m, root, v, virt, d);
        Inside(virt, e, 4 - d);
      }
    }
  }

  /** What the processor finds from the root, in terms of the walk. */
  lemma FromRoot(m: Mem, root: int, virt: nat)
    ensures var v := PathOf(virt);
            Translate(m, root, 4, virt) == Found(v, virt, Walk(m, root, v), PageRights(m, root, v))
  {
    hide Translate, PathOf, Found, WalkFrom, RightsFrom;
    RootTab(m, root);
    assert PathOf(virt)[..0] == [];
    WalkIsTranslation(m, root, virt, 0);
  }

  /** What a page freshly mapped gives to an access: every address of it, that is with its indices
      (`PathsArePages`), the address at the same place in the frame, with the rights asked for as far
      as the upper entries allow. */
  lemma MappedAccess(m: Mem, m': Mem, root: int, v: Path, phys: nat, flags: nat, a: nat)
    requires ValidFrame(phys) && ValidFlags(flags) && |v| == 4 && NewPage(m, m', root, v, phys, flags)
    requires PathOf(a) == v
    ensures Translate(m', root, 4, a) ==
              if flags % 2 == 0 then NoAccess
              else Access(phys + a % 0x1000, flags % 4 >= 2 && Allowed(m, root, v).write,
                          flags % 8 >= 4 && Allowed(m, root, v).user)
  {
    hide PathOf, Walk, PageRights, Allowed, MakeEntry, Translate;
    FromRoot(m', root, a);
  }

  /** Where neither translation nor rights have changed, no access has. */
  lemma SameAccess(m: Mem, m': Mem, root: int, virt: nat)
    requires SamePage(m, m', root, PathOf(virt))
    ensures Translate(m', root, 4, virt) == Translate(m, root, 4, virt)
  {
    hide Translate, Walk, PageRights, Allowed, PathOf, Found;
    FromRoot(m, root, virt);
    FromRoot(m', root, virt);
  }

  /** After all pages have been marked, every access that met memory meets the same memory, from user
      mode too, and may write exactly if it could. */
  lemma MarkedAccess(m0: Mem, m: Mem, root: int, virt: nat)
    requires SameButUser(Walk(m0, root, PathOf(virt)), Walk(m, root, PathOf(virt)))
    requires Walk(m0, root, PathOf(virt)).Mapped? ==>
               PageRights(m, root, PathOf(virt)) == PageRights(m0, root, PathOf(virt)).(user := true)
    ensures var before := Translate(m0, root, 4, virt);
            Translate(m, root, 4, virt) == if before.NoAccess? then NoAccess else before.(user := true)
  {
    hide Translate, Walk, PageRights, PathOf, PhysFrame;
    FromRoot(m0, root, virt);
    FromRoot(m, root, virt);
    var x, y := Walk(m0, root, PathOf(virt)), Walk(m, root, PathOf(virt));
    if x.Mapped? {
      SameFrame(PathOf(virt), x, y);
    }
  }
}
