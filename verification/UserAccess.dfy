/** Opening every mapped page to Ring 3: the walk that sets USER_ACCESSIBLE. */
module UserAccess {
  import opened Machine
  import opened Frames
  import opened Paging

  /** Memory `m` is `m0` with USER_ACCESSIBLE added to some of the present entries. */
  ghost predicate Marked(m0: Mem, m: Mem) {
    forall a :: Read(m, a) == Read(m0, a) || (Present(Read(m0, a)) && Read(m, a) == SetUser(Read(m0, a)))
  }

  /** A path of one to four indices names an entry; here is its address, if its table exists. */
  predicate EntryPath(q: Path) {
    1 <= |q| <= 4 && Indices(q)
  }

  function EntryOf(m: Mem, root: int, q: Path): Option<int>
    requires |q| >= 1
  {
    var t := Tab(m, root, q[..|q| - 1]);
    if t.Some? then Some(EntryAddr(t.value, q[|q| - 1])) else None
  }

  /** The entry that `q` names, if reached and present, is open to user mode. */
  ghost predicate Open(m: Mem, root: int, q: Path)
    requires |q| >= 1
  {
    var a := EntryOf(m, root, q);
    a.Some? && Present(Read(m, a.value)) ==> UserBit(Read(m, a.value))
  }

  /** Every changed word is an entry of a table that the walk reaches. */
  ghost predicate OnlyReached(m0: Mem, m: Mem, root: int) {
    forall a :: Read(m, a) != Read(m0, a) ==> exists q :: EntryPath(q) && EntryOf(m0, root, q) == Some(a)
  }

  lemma MarkedTwice(m0: Mem, m1: Mem, m2: Mem)
    requires Marked(m0, m1) && Marked(m1, m2)
    ensures Marked(m0, m2)
  {
    forall a ensures Read(m2, a) == Read(m0, a) || (Present(Read(m0, a)) && Read(m2, a) == SetUser(Read(m0, a))) {
      SetUserParts(Read(m0, a));
    }
  }

  /** Marking changes no table's address and no entry's role. */
  lemma {:induction false} MarkedTab(m0: Mem, m: Mem, root: int, q: Path)
    requires Marked(m0, m)
    ensures Tab(m, root, q) == Tab(m0, root, q)
    decreases |q|
  {
    if q != [] {
      MarkedTab(m0, m, root, q[..|q| - 1]);
      var t := Tab(m0, root, q[..|q| - 1]);
      if t.Some? {
        SetUserParts(EntryAt(m0, t.value, q[|q| - 1]));
      }
    }
  }

  lemma MarkedEntryOf(m0: Mem, m: Mem, root: int, q: Path)
    requires Marked(m0, m) && |q| >= 1
    ensures EntryOf(m, root, q) == EntryOf(m0, root, q)
  {
    MarkedTab(m0, m, root, q[..|q| - 1]);
  }

  lemma MarkedOpen(m0: Mem, m: Mem, root: int, q: Path)
    requires Marked(m0, m) && |q| >= 1 && Open(m0, root, q)
    ensures Open(m, root, q)
  {
    MarkedEntryOf(m0, m, root, q);
    var a := EntryOf(m0, root, q);
    if a.Some? {
      SetUserParts(Read(m0, a.value));
    }
  }

  lemma ReachedTwice(m0: Mem, m1: Mem, m2: Mem, root: int)
    requires Marked(m0, m1) && OnlyReached(m0, m1, root) && OnlyReached(m1, m2, root)
    ensures OnlyReached(m0, m2, root)
  {
    forall a | Read(m2, a) != Read(m0, a) ensures exists q :: EntryPath(q) && EntryOf(m0, root, q) == Some(a) {
      if Read(m1, a) == Read(m0, a) {
        var q :| EntryPath(q) && EntryOf(m1, root, q) == Some(a);
        MarkedEntryOf(m0, m1, root, q);
      }
    }
  }

  /** The same page walk, with the user flag added to the entry that ends it, or not. */
  predicate SameButUser(x: Translation, y: Translation) {
    if x.Fault? then y.Fault?
    else y.Mapped? && y.level == x.level && (y.entry == x.entry || y.entry == SetUser(x.entry))
  }

  /** Meaning is preserved: every page of every size translates to the same physical frame, with
      every flag but USER_ACCESSIBLE unchanged. */
  lemma {:induction false} MarkedWalk(m0: Mem, m: Mem, root: int, v: Path, d: nat)
    requires Marked(m0, m) && |v| == 4 && d <= 3
    ensures SameButUser(WalkFrom(m0, root, v, d), WalkFrom(m, root, v, d))
    decreases 3 - d
  {
    MarkedTab(m0, m, root, v[..d]);
    var t := Tab(m0, root, v[..d]);
    if t.Some? {
      SetUserParts(EntryAt(m0, t.value, v[d]));
    }
    if d < 3 {
      MarkedWalk(m0, m, root, v, d + 1);
    }
  }

  lemma SameFrame(v: Path, x: Translation, y: Translation)
    requires |v| == 4 && SameButUser(x, y) && x.Mapped?
    ensures y.Mapped? && PhysFrame(v, y) == PhysFrame(v, x)
    ensures Flags(y.entry) == Flags(x.entry) || Flags(y.entry) == Flags(x.entry) + USER
  {
    SetUserParts(x.entry);
  }

  /** Marking keeps every page's right to be written; once everything is open, every mapped page may
      be used from user mode, whatever page size maps it. */
  lemma {:induction false} MarkedRights(m0: Mem, m: Mem, root: int, v: Path, d: nat)
    requires Marked(m0, m) && |v| == 4 && Indices(v) && d <= 3 && Tab(m0, root, v[..d]).Some?
    requires forall q :: EntryPath(q) ==> Open(m, root, q)
    ensures RightsFrom(m, root, v, d)
         == if WalkFrom(m0, root, v, d).Mapped? then RightsFrom(m0, root, v, d).(user := true) else NONE
    decreases 3 - d
  {
    hide Marked, Present, WritableBit, UserBit, HugeBit, SetUser, EntryAt;
    MarkedTab(m0, m, root, v[..d]);
    var t := Tab(m0, root, v[..d]).value;
    MarkedEntry(m0, m, t, v[d]);
    var q := v[..d + 1];
    assert q[..|q| - 1] == v[..d] && q[|q| - 1] == v[d];
    assert EntryPath(q) && Open(m, root, q);
    assert EntryOf(m, root, q) == Some(EntryAddr(t, v[d]));
    OpenEntry(m, root, q, t, v[d]);
    if d < 3 && LeadsOn(EntryAt(m0, t, v[d]), d + 1) {
      MarkedRights(m0, m, root, v, d + 1);
    }
  }

  lemma OpenEntry(m: Mem, root: int, q: Path, t: int, i: int)
    requires |q| >= 1 && Open(m, root, q) && EntryOf(m, root, q) == Some(EntryAddr(t, i))
    ensures Present(EntryAt(m, t, i)) ==> UserBit(EntryAt(m, t, i))
  {
  }

  lemma MarkedEntry(m0: Mem, m: Mem, t: int, i: int)
    requires Marked(m0, m)
    ensures var e0, e := EntryAt(m0, t, i), EntryAt(m, t, i);
            Present(e) == Present(e0) && HugeBit(e) == HugeBit(e0) && WritableBit(e) == WritableBit(e0)
  {
    SetUserParts(EntryAt(m0, t, i));
  }

  /** A word marked in place. */
  lemma MarkOne(m: Mem, root: int, q: Path)
    requires EntryPath(q) && EntryOf(m, root, q).Some?
    requires Present(Read(m, EntryOf(m, root, q).value))
    ensures var a := EntryOf(m, root, q).value;
            var m' := m[a := SetUser(Read(m, a))];
            Marked(m, m') && OnlyReached(m, m', root) && Open(m', root, q)
  {
    var a := EntryOf(m, root, q).value;
    var m' := m[a := SetUser(Read(m, a))];
    SetUserParts(Read(m, a));
    assert Marked(m, m');
    MarkedEntryOf(m, m', root, q);
  }

  predicate Below(p: Path, q: Path) {
    |q| > |p| && q[..|p|] == p
  }

  /** All entries below `p` with an index under `n` at `p`'s own table are open. */
  ghost predicate OpenBelow(m: Mem, root: int, p: Path, n: int) {
    forall q :: EntryPath(q) && Below(p, q) && q[|p|] < n ==> Open(m, root, q)
  }

  lemma {:induction false} NoTabBelow(m: Mem, root: int, p: Path, q: Path)
    requires Tab(m, root, p).None? && |q| >= |p| && q[..|p|] == p
    ensures Tab(m, root, q).None?
    decreases |q|
  {
    if |q| > |p| {
      assert q[..|q| - 1][..|p|] == p;
      NoTabBelow(m, root, p, q[..|q| - 1]);
    } else {
      assert q == p;
    }
  }

  /** Where no table hangs, everything below is vacuously open. */
  lemma OpenWithoutTable(m: Mem, root: int, p: Path)
    requires |p| == 4 || Tab(m, root, p).None?
    ensures OpenBelow(m, root, p, ENTRIES)
  {
    forall q | EntryPath(q) && Below(p, q) ensures Open(m, root, q) {
      assert q[..|q| - 1][..|p|] == p;
      NoTabBelow(m, root, p, q[..|q| - 1]);
    }
  }

  /** One more entry, and what hangs under it. */
  lemma OpenNext(m: Mem, root: int, p: Path, i: nat)
    requires OpenBelow(m, root, p, i) && Open(m, root, p + [i]) && OpenBelow(m, root, p + [i], ENTRIES)
    ensures OpenBelow(m, root, p, i + 1)
  {
    forall q | EntryPath(q) && Below(p, q) && q[|p|] < i + 1 ensures Open(m, root, q) {
      if q[|p|] == i {
        assert q[..|p| + 1] == p + [i];
        if |q| == |p| + 1 {
          assert q == p + [i];
        }
      }
    }
  }

  lemma OpenKept(m: Mem, m': Mem, root: int, p: Path, n: int)
    requires OpenBelow(m, root, p, n) && Marked(m, m')
    ensures OpenBelow(m', root, p, n)
  {
    forall q | EntryPath(q) && Below(p, q) && q[|p|] < n ensures Open(m', root, q) {
      MarkedOpen(m, m', root, q);
    }
  }

  class UserMarker {
    var mem: Mem
    const root: int

    constructor (mem: Mem, root: int)
      ensures this.mem == mem && this.root == root
    {
      this.mem, this.root := mem, root;
    }

    /** Set the user flag on every present entry of the table at `t`, of level 4 to 1, and of all
        tables below it. Path `p` leads to the table. */
    method MarkTable(t: int, level: nat, ghost p: Path)
      requires 1 <= level <= 4 && |p| == 4 - level && Indices(p) && Tab(mem, root, p) == Some(t)
      modifies this`mem
      ensures Marked(old(mem), mem) && OnlyReached(old(mem), mem, root)
      ensures OpenBelow(mem, root, p, ENTRIES)
      decreases level
    {
      hide Tab, OpenBelow, OnlyReached, Marked;
      NothingMarked(mem, root, p);
      var i := 0;
      while i < ENTRIES
        invariant 0 <= i <= ENTRIES
        invariant Marked(old(mem), mem) && OnlyReached(old(mem), mem, root)
        invariant Tab(mem, root, p) == Some(t) && OpenBelow(mem, root, p, i)
      {
        ghost var m1 := mem;
        MarkEntry(t, level, i, p);
        ReachedTwice(old(mem), m1, mem, root);
        MarkedTwice(old(mem), m1, mem);
        MarkedTab(m1, mem, root, p);
        i := i + 1;
      }
    }

    /** One round of the loop: entry `i`, and the table below it if there is one. */
    method MarkEntry(t: int, level: nat, i: nat, ghost p: Path)
      requires 1 <= level <= 4 && |p| == 4 - level && Indices(p) && Tab(mem, root, p) == Some(t) && i < ENTRIES
      requires OpenBelow(mem, root, p, i)
      modifies this`mem
      ensures Marked(old(mem), mem) && OnlyReached(old(mem), mem, root)
      ensures OpenBelow(mem, root, p, i + 1)
      decreases level, 0
    {
      hide OpenBelow, OnlyReached, Marked;
      assert (p + [i])[..|p|] == p;
      var entry := EntryAt(mem, t, i);
      if Present(entry) {
        MarkOne(mem, root, p + [i]);
        SetUserParts(entry);
        mem := mem[EntryAddr(t, i) := SetUser(entry)];
        ghost var m1 := mem;
        MarkedTab(old(mem), m1, root, p);
        EntryWritten(old(mem), t, i);
        if level > 1 && (level == 4 || !HugeBit(entry)) {
          MarkTable(Addr(entry), level - 1, p + [i]);
          ReachedTwice(old(mem), m1, mem, root);
          MarkedTwice(old(mem), m1, mem);
          MarkedOpen(m1, mem, root, p + [i]);
        } else {
          OpenWithoutTable(mem, root, p + [i]);
        }
        OpenKept(old(mem), mem, root, p, i);
      } else {
        OpenWithoutTable(mem, root, p + [i]);
        NothingMarked(mem, root, p);
      }
      OpenNext(mem, root, p, i);
    }

    /** The whole hierarchy. Every page translates as before but for the user flag, every mapped page
        may be used from user mode and written exactly if it could be before, every present entry
        reached is open, no other word changes, and a second run changes nothing. */
    method MarkAllUserAccessible()
      modifies this`mem
      ensures forall v :: |v| == 4 ==> SameButUser(Walk(old(mem), root, v), Walk(mem, root, v))
      ensures forall q :: EntryPath(q) ==> Open(mem, root, q)
      ensures forall v :: |v| == 4 && Indices(v) && Walk(old(mem), root, v).Mapped? ==>
                PageRights(mem, root, v) == PageRights(old(mem), root, v).(user := true)
      ensures OnlyReached(old(mem), mem, root)
      ensures forall a :: Read(mem, a) != Read(old(mem), a) ==>
                Present(Read(old(mem), a)) && Read(mem, a) == SetUser(Read(old(mem), a))
      ensures (forall q :: EntryPath(q) ==> Open(old(mem), root, q)) ==> forall a :: Read(mem, a) == Read(old(mem), a)
    {
      MarkTable(root, 4, []);
      forall v | |v| == 4 ensures SameButUser(Walk(old(mem), root, v), Walk(mem, root, v)) {
        MarkedWalk(old(mem), mem, root, v, 0);
      }
      forall q | EntryPath(q) ensures Open(mem, root, q) {
        assert Below([], q);
      }
      forall v | |v| == 4 && Indices(v) && Walk(old(mem), root, v).Mapped?
        ensures PageRights(mem, root, v) == PageRights(old(mem), root, v).(user := true)
      {
        assert v[..0] == [];
        MarkedRights(old(mem), mem, root, v, 0);
      }
      SecondRun(old(mem), mem, root);
    }
  }

  /** The entry just written, read back. */
  lemma EntryWritten(m: Mem, t: int, i: int)
    ensures var e := SetUser(EntryAt(m, t, i)); EntryAt(m[EntryAddr(t, i) := e], t, i) == e
  {
  }

  lemma NothingMarked(m: Mem, root: int, p: Path)
    ensures Marked(m, m) && OnlyReached(m, m, root) && OpenBelow(m, root, p, 0)
  {
    forall q | EntryPath(q) && Below(p, q) ensures q[|p|] >= 0 {
    }
  }

  lemma SecondRun(m0: Mem, m: Mem, root: int)
    requires Marked(m0, m) && OnlyReached(m0, m, root)
    ensures (forall q :: EntryPath(q) ==> Open(m0, root, q)) ==> forall a :: Read(m, a) == Read(m0, a)
  {
    if forall q :: EntryPath(q) ==> Open(m0, root, q) {
      forall a ensures Read(m, a) == Read(m0, a) {
        if q :| EntryPath(q) && EntryOf(m0, root, q) == Some(a) {
          assert Open(m0, root, q);
        }
      }
    }
  }
}
