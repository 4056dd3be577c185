/** Window tiling: one master window on the left, the others stacked on the right, a dock below. */
module Tiling {
  import opened Arithmetic
  import opened Machine

  const GAP := 10
  const DOCK := 60

  datatype Window = Window(id: U64, x: nat, y: nat, w: nat, h: nat)

  datatype Size = Size(w: nat, h: nat)

  /** No subtraction in the layout of `n` windows goes below zero. */
  predicate RoomFor(s: Size, n: nat) {
    if n == 0 then true
    else if n == 1 then s.h >= DOCK + 2 * GAP && s.w >= 2 * GAP
    else s.h >= DOCK + 2 * GAP + (n - 2) * GAP && s.w / 2 >= GAP + GAP / 2
  }

  lemma RoomForFewer(s: Size, n: nat)
    requires RoomFor(s, n)
    ensures n > 0 ==> RoomFor(s, n - 1)
  {
  }

  /** Height of one cell of a stack of `count` windows. */
  function Cell(s: Size, count: nat): nat
    requires count > 0 && RoomFor(s, count + 1)
  {
    (s.h - DOCK - 2 * GAP - (count - 1) * GAP) / count
  }

  function Top(cell: nat, i: nat): nat
    requires i >= 1
  {
    GAP + (i - 1) * (cell + GAP)
  }

  /** Where window `i` of `n` goes. */
  function Tile(s: Size, id: U64, i: nat, n: nat): Window
    requires i < n && RoomFor(s, n)
  {
    if n == 1 then Window(id, GAP, GAP, s.w - GAP * 2, s.h - DOCK - GAP * 2)
    else if i == 0 then Window(id, GAP, GAP, s.w / 2 - GAP - GAP / 2, s.h - DOCK - GAP * 2)
    else Window(id, s.w / 2 + GAP / 2, Top(Cell(s, n - 1), i), s.w / 2 - GAP - GAP / 2, Cell(s, n - 1))
  }

  function Tiled(s: Size, ids: seq<U64>): (ws: seq<Window>)
    requires RoomFor(s, |ids|)
    ensures |ws| == |ids| && forall i :: 0 <= i < |ids| ==> ws[i] == Tile(s, ids[i], i, |ids|)
  {
    seq(|ids|, i requires 0 <= i < |ids| => Tile(s, ids[i], i, |ids|))
  }

  function DockRect(s: Size): Window
    requires s.w >= 40 && s.h >= DOCK
  {
    var w := if s.w - 40 < 450 then s.w - 40 else 450;
    Window(0, (s.w - w) / 2, s.h - DOCK + 10, w, DOCK - 20)
  }

  // ----- what the layout promises -----

  predicate Unique(ids: seq<U64>) {
    forall i, j :: 0 <= i < j < |ids| ==> ids[i] != ids[j]
  }

  function Ids(ws: seq<Window>): (ids: seq<U64>)
    ensures |ids| == |ws| && forall i :: 0 <= i < |ws| ==> ids[i] == ws[i].id
  {
    seq(|ws|, i requires 0 <= i < |ws| => ws[i].id)
  }

  /** Inside the screen above the dock, a gap away from every edge. */
  predicate InWorkArea(s: Size, w: Window) {
    10 <= w.x && 10 <= w.y && w.x + w.w + 10 <= s.w && w.y + w.h + 10 <= s.h - 60
  }

  /** Disjoint, with at least a gap between them. */
  predicate Apart(a: Window, b: Window) {
    a.x + a.w + 10 <= b.x || b.x + b.w + 10 <= a.x || a.y + a.h + 10 <= b.y || b.y + b.h + 10 <= a.y
  }

  predicate WellTiled(s: Size, ws: seq<Window>) {
    Unique(Ids(ws))
    && (forall i :: 0 <= i < |ws| ==> InWorkArea(s, ws[i]))
    && (forall i, j :: 0 <= i < j < |ws| ==> Apart(ws[i], ws[j]))
    && (s.w >= 40 && ws != [] ==> forall i :: 0 <= i < |ws| ==> Apart(ws[i], DockRect(s)))
    && (|ws| == 1 ==> ws[0] == Window(ws[0].id, 10, 10, s.w - 20, s.h - 80))
    && (|ws| >= 2 ==> MasterAndStack(s, ws))
  }

  /** The master fills the left half's height; beside it the stack, in cells of one size that begin
      at the top, follow each other at a gap and leave fewer pixels than there are cells; together
      the two columns use all the width, but for one pixel of an odd one. */
  predicate MasterAndStack(s: Size, ws: seq<Window>)
    requires |ws| >= 2
  {
    var last := ws[|ws| - 1];
    && ws[0].x == 10 && ws[0].y == 10 && ws[0].h == s.h - 80 && 2 * ws[0].w + 30 + s.w % 2 == s.w
    && ws[1].y == 10 && s.h - 70 < last.y + last.h + (|ws| - 1)
    && (forall i :: 1 <= i < |ws| ==> ws[i].x == ws[0].x + ws[0].w + 10 && ws[i].w == ws[0].w && ws[i].h == ws[1].h)
    && (forall i :: 2 <= i < |ws| ==> ws[i].y == ws[i - 1].y + ws[i - 1].h + 10)
  }

  /** The `i`-th cell ends a gap before the next begins, and the last within one pixel per cell of
      the bottom of the work area. */
  lemma StackFits(s: Size, count: nat, i: nat)
    requires count > 0 && RoomFor(s, count + 1) && 1 <= i <= count
    ensures var cell := Cell(s, count);
            Top(cell, i) >= GAP
            && Top(cell, i) + cell + GAP <= s.h - DOCK
            && (i == count ==> s.h - DOCK - GAP < Top(cell, i) + cell + count)
  {
    hide Cell;
    CellShare(s, count);
    StackHeight(s.h - DOCK - 2 * GAP - (count - 1) * GAP, count, Cell(s, count), i);
  }

  /** The cells share the height that the gaps leave, up to a remainder below their number. */
  lemma CellShare(s: Size, count: nat)
    requires count > 0 && RoomFor(s, count + 1)
    ensures var total := s.h - DOCK - 2 * GAP - (count - 1) * GAP;
            count * Cell(s, count) <= total < count * Cell(s, count) + count
  {
    Quotient(s.h - DOCK - 2 * GAP - (count - 1) * GAP, count);
  }

  lemma StackHeight(total: nat, count: nat, cell: nat, i: nat)
    requires 1 <= i <= count && count * cell <= total < count * cell + count
    ensures (i - 1) * (cell + GAP) + cell <= total + (count - 1) * GAP
    ensures i == count ==> total + (count - 1) * GAP < (i - 1) * (cell + GAP) + cell + count
  {
    Scale(i - 1, count - 1, cell + GAP);
    assert (count - 1) * (cell + GAP) == count * cell - cell + (count - 1) * GAP;
  }

  lemma StackApart(cell: nat, i: nat, j: nat)
    requires 1 <= i < j
    ensures Top(cell, i) + cell + GAP <= Top(cell, j)
  {
    Scale(i, j - 1, cell + GAP);
    assert i * (cell + GAP) == (i - 1) * (cell + GAP) + (cell + GAP);
  }

  lemma TileInside(s: Size, id: U64, i: nat, n: nat)
    requires i < n && RoomFor(s, n)
    ensures InWorkArea(s, Tile(s, id, i, n))
  {
    if n >= 2 && i >= 1 {
      StackFits(s, n - 1, i);
    }
  }

  lemma TilesApart(s: Size, a: U64, b: U64, i: nat, j: nat, n: nat)
    requires i < j < n && RoomFor(s, n)
    ensures Apart(Tile(s, a, i, n), Tile(s, b, j, n))
  {
    if i >= 1 {
      StackApart(Cell(s, n - 1), i, j);
    }
  }

  /** The layout computed for any windows of distinct ids is a good one. */
  lemma TiledWell(s: Size, ids: seq<U64>)
    requires RoomFor(s, |ids|) && Unique(ids)
    ensures WellTiled(s, Tiled(s, ids)) && Ids(Tiled(s, ids)) == ids
  {
    hide RoomFor, InWorkArea, Apart;
    var ws, n := Tiled(s, ids), |ids|;
    assert Ids(ws) == ids;
    forall i | 0 <= i < n ensures InWorkArea(s, ws[i]) && (s.w >= 40 ==> s.h >= DOCK && Apart(ws[i], DockRect(s))) {
      TileInside(s, ids[i], i, n);
      AboveDock(s, ws[i]);
    }
    forall i, j | 0 <= i < j < n ensures Apart(ws[i], ws[j]) {
      TilesApart(s, ids[i], ids[j], i, j, n);
    }
    if n >= 2 {
      StackFits(s, n - 1, n - 1);
      forall i | 2 <= i < n ensures ws[i].y == ws[i - 1].y + ws[i - 1].h + 10 {
        NextCell(Cell(s, n - 1), i - 1);
      }
      HalfWidth(s, n);
    }
  }

  lemma NextCell(cell: nat, i: nat)
    requires i >= 1
    ensures Top(cell, i + 1) == Top(cell, i) + cell + 10
  {
    assert i * (cell + GAP) == (i - 1) * (cell + GAP) + (cell + GAP);
  }

  lemma HalfWidth(s: Size, n: nat)
    requires n >= 2 && RoomFor(s, n)
    ensures s.w / 2 >= 15 && 2 * (s.w / 2 - 15) + 30 + s.w % 2 == s.w && s.h >= 80
  {
  }

  lemma AboveDock(s: Size, w: Window)
    requires InWorkArea(s, w)
    ensures s.w >= 40 ==> s.h >= DOCK && Apart(w, DockRect(s))
  {
  }

  // ----- runs -----

  datatype Request = Add(id: U64) | Remove(id: U64)

  /** Position of an id, or the length. */
  function Position(ids: seq<U64>, id: U64): (k: nat)
    ensures k <= |ids| && (k < |ids| ==> ids[k] == id) && (forall j :: 0 <= j < k ==> ids[j] != id)
    decreases |ids|
  {
    if ids == [] || ids[0] == id then 0 else 1 + Position(ids[1..], id)
  }

  function Added(ids: seq<U64>, id: U64): seq<U64> {
    if id in ids then ids else ids + [id]
  }

  function Removed(ids: seq<U64>, id: U64): seq<U64> {
    var k := Position(ids, id);
    if k == |ids| then ids else ids[..k] + ids[k + 1..]
  }

  function After(ids: seq<U64>, rs: seq<Request>): seq<U64>
    decreases |rs|
  {
    if rs == [] then ids
    else After(if rs[0].Add? then Added(ids, rs[0].id) else Removed(ids, rs[0].id), rs[1..])
  }

  /** Adding a known id changes nothing; a new one goes last. */
  lemma AddedUnique(ids: seq<U64>, id: U64)
    requires Unique(ids)
    ensures Unique(Added(ids, id)) && id in Added(ids, id) && ids <= Added(ids, id)
  {
  }

  /** Removing takes out that id and no other, and keeps the rest in order. */
  lemma RemovedUnique(ids: seq<U64>, id: U64)
    requires Unique(ids)
    ensures Unique(Removed(ids, id)) && id !in Removed(ids, id)
    ensures forall x :: x != id ==> (x in Removed(ids, id) <==> x in ids)
  {
    var k := Position(ids, id);
    if k < |ids| {
      assert ids == ids[..k] + [id] + ids[k + 1..];
      Without(ids[..k], id, ids[k + 1..]);
    }
  }

  lemma Without(a: seq<U64>, id: U64, b: seq<U64>)
    requires Unique(a + [id] + b)
    ensures Unique(a + b) && id !in a + b
    ensures forall x :: x != id ==> (x in a + b <==> x in a + [id] + b)
  {
    var all, rest := a + [id] + b, a + b;
    assert all[|a|] == id;
    forall i | 0 <= i < |rest| ensures rest[i] == all[if i < |a| then i else i + 1] && rest[i] != id {
    }
    hide Unique;
    assert forall x :: x in all <==> x in a || x == id || x in b;
  }

  lemma {:induction false} AfterUnique(ids: seq<U64>, rs: seq<Request>)
    requires Unique(ids)
    ensures Unique(After(ids, rs))
    decreases |rs|
  {
    if rs != [] {
      hide Added, Removed, Unique;
      AddedUnique(ids, rs[0].id);
      RemovedUnique(ids, rs[0].id);
      AfterUnique(if rs[0].Add? then Added(ids, rs[0].id) else Removed(ids, rs[0].id), rs[1..]);
    }
  }

  /** After any sequence of windows opened and closed, the layout is a good one, as long as the
      screen has room for that many. */
  lemma AlwaysWellTiled(s: Size, rs: seq<Request>)
    requires RoomFor(s, |After([], rs)|)
    ensures WellTiled(s, Tiled(s, After([], rs)))
  {
    AfterUnique([], rs);
    TiledWell(s, After([], rs));
  }

  // ----- the code -----

  class LayoutManager {
    const screenW: nat
    const screenH: nat
    var windows: seq<Window>

    function Screen(): Size { Size(screenW, screenH) }

    function Names(): seq<U64>
      reads this
    {
      Ids(windows)
    }

    ghost predicate Valid()
      reads this
    {
      Unique(Names()) && RoomFor(Screen(), |windows|) && windows == Tiled(Screen(), Names())
    }

    constructor (screenW: nat, screenH: nat)
      ensures Valid() && windows == [] && Screen() == Size(screenW, screenH)
    {
      this.screenW, this.screenH := screenW, screenH;
      windows := [];
    }

    method AddWindow(id: U64)
      requires Valid() && RoomFor(Screen(), |Added(Names(), id)|)
      modifies this
      ensures Valid() && Names() == Added(old(Names()), id)
      ensures WellTiled(Screen(), windows)
    {
      hide RoomFor, Tile, WellTiled;
      AddedUnique(Names(), id);
      var known := false;
      var i := 0;
      while i < |windows|
        invariant 0 <= i <= |windows| && !known
        invariant forall k :: 0 <= k < i ==> windows[k].id != id
      {
        if windows[i].id == id {
          known := true;
          break;
        }
        i := i + 1;
      }
      assert known <==> id in Names();
      if !known {
        windows := windows + [Window(id, 0, 0, 0, 0)];
        assert Names() == Added(old(Names()), id);
        Recalculate();
      }
      TiledWell(Screen(), Names());
    }

    method RemoveWindow(id: U64)
      requires Valid()
      modifies this
      ensures Valid() && Names() == Removed(old(Names()), id)
      ensures WellTiled(Screen(), windows)
    {
      hide RoomFor, Tile, WellTiled, Unique;
      RemovedUnique(Names(), id);
      RoomForFewer(Screen(), |windows|);
      var pos := 0;
      while pos < |windows| && windows[pos].id != id
        invariant 0 <= pos <= |windows|
        invariant forall k :: 0 <= k < pos ==> windows[k].id != id
      {
        pos := pos + 1;
      }
      assert pos == Position(Names(), id);
      if pos < |windows| {
        windows := windows[..pos] + windows[pos + 1..];
        assert Names() == Removed(old(Names()), id);
        Recalculate();
      }
      TiledWell(Screen(), Names());
    }

    method Recalculate()
      requires RoomFor(Screen(), |windows|)
      modifies this
      ensures Names() == old(Names()) && windows == Tiled(Screen(), Names())
    {
      var n := |windows|;
      if n == 0 {
        return;
      }
      ghost var ids := Names();
      var usableH := screenH - DOCK;
      if n == 1 {
        windows := [windows[0].(x := GAP, y := GAP, w := screenW - GAP * 2, h := usableH - GAP * 2)];
      } else {
        var masterW := screenW / 2 - GAP - GAP / 2;
        windows := windows[0 := windows[0].(x := GAP, y := GAP, w := masterW, h := usableH - GAP * 2)];
        var stackX := screenW / 2 + GAP / 2;
        var stackW := screenW / 2 - GAP - GAP / 2;
        var stackCount := n - 1;
        var totalGaps := (stackCount - 1) * GAP;
        var cellH := (usableH - GAP * 2 - totalGaps) / stackCount;
        assert cellH == Cell(Screen(), stackCount);
        var i := 1;
        while i < n
          invariant 1 <= i <= n == |windows| && Ids(windows) == ids
          invariant forall k :: 0 <= k < i ==> windows[k] == Tile(Screen(), ids[k], k, n)
        {
          windows := windows[i := Window(windows[i].id, stackX, GAP + (i - 1) * (cellH + GAP), stackW, cellH)];
          i := i + 1;
        }
      }
      assert Ids(windows) == ids;
    }

    method GetDockRect() returns (x: nat, y: nat, w: nat, h: nat)
      requires screenW >= 40 && screenH >= DOCK
      ensures Window(0, x, y, w, h) == DockRect(Screen())
      ensures x + w <= screenW && y + h + 10 == screenH && h == 40 && 0 <= (screenW - (x + w)) - x <= 1
      ensures w == 450 || (w < 450 && w + 40 == screenW)
    {
      w := if 450 < screenW - 40 then 450 else screenW - 40;
      x := (screenW - w) / 2;
      y := screenH - DOCK + 10;
      h := DOCK - 20;
    }
  }
}
