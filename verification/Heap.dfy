/** The free-list heap allocator, with the list threaded through the heap memory. */
module Heap {
  import opened Arithmetic
  import opened Machine
  import opened Bits

  /** `size_of::<FreeNode>()`: the size word, then the next word. */
  const NODE: nat := 16
  const NEXT: nat := 8

  datatype Layout = Layout(size: nat, align: nat)

  /** A stretch of heap bytes, header included. */
  datatype Extent = Extent(start: nat, size: nat) {
    function End(): nat { start + size }

    predicate Contains(a: int) {
      start <= a < End()
    }
  }

  /** A block handed out. */
  datatype Block = Block(ptr: nat, layout: Layout)

  ghost predicate ValidLayout(l: Layout) {
    IsPow2(l.align) && l.size + 2 * NODE <= MAX_WORD && l.align + NODE <= MAX_WORD
  }

  /** No address computed for this request can wrap around. */
  ghost predicate NoOverflow(l: Layout, hi: nat) {
    ValidLayout(l) && hi + l.align + l.size + 4 * NODE <= MAX_WORD
  }

  function Rounded(l: Layout): nat {
    AlignUp(l.size, NODE)
  }

  function Alignment(l: Layout): nat {
    AlignUp(l.align, NODE)
  }

  lemma PowNode()
    ensures IsPow2(NODE)
  {
    assert Pow2(4) == NODE;
  }

  lemma RoundedLeast(l: Layout)
    requires ValidLayout(l)
    ensures Rounded(l) % NODE == 0 && l.size <= Rounded(l) < l.size + NODE
  {
    PowNode();
    AlignUpLeast(l.size, NODE);
  }

  /** Powers of two below 16 divide 16, and the others are multiples of it. */
  lemma PowSplit(a: nat)
    requires IsPow2(a)
    ensures a >= 1
    ensures a < NODE ==> forall x: nat :: x % NODE == 0 ==> x % a == 0
    ensures a >= NODE ==> forall x: nat :: x % a == 0 ==> x % NODE == 0
  {
    var k: nat :| a == Pow2(k);
    assert Pow2(4) == NODE;
    if k < 4 {
      Pow2Monotone(k, 3);
      assert Pow2(3) == 8;
      forall x: nat | x % NODE == 0 ensures x % a == 0 {
        Pow2Divides(k, 4, x);
      }
    } else {
      Pow2Monotone(4, k);
      forall x: nat | x % a == 0 ensures x % NODE == 0 {
        Pow2Divides(4, k, x);
      }
    }
  }

  /** The alignment used is the requested one, raised to 16. */
  lemma AlignmentIs(l: Layout)
    requires ValidLayout(l)
    ensures l.align >= 1 && Alignment(l) == (if l.align < NODE then NODE else l.align)
    ensures IsPow2(Alignment(l))
    ensures forall x: nat :: x % Alignment(l) == 0 ==> x % l.align == 0 && x % NODE == 0
  {
    hide AlignUp, IsPow2;
    PowNode();
    AlignUpLeast(l.align, NODE);
    PowSplit(l.align);
    assert l.align % l.align == 0;
  }

  // ----- the allocator on extents -----

  /** `alloc_start` for a node at the start of `e`. */
  function FitStart(e: Extent, l: Layout): nat {
    AlignUp(e.start + NODE, Alignment(l))
  }

  function Needed(e: Extent, l: Layout): int {
    FitStart(e, l) - e.start + Rounded(l)
  }

  predicate Fits(e: Extent, l: Layout) {
    e.size >= Needed(e, l)
  }

  /** Index of the first free extent from `i` on that fits, or the length of the list. */
  function FirstFit(free: seq<Extent>, l: Layout, i: nat): (r: nat)
    requires i <= |free|
    ensures i <= r <= |free|
    ensures r < |free| ==> Fits(free[r], l)
    ensures forall j :: i <= j < r ==> !Fits(free[j], l)
    decreases |free| - i
  {
    if i == |free| || Fits(free[i], l) then i else FirstFit(free, l, i + 1)
  }

  /** What is left of a free extent behind the block, if it is worth a node of its own. */
  function Rest(e: Extent, l: Layout): seq<Extent>
    requires Fits(e, l)
  {
    var remaining := e.size - Needed(e, l);
    if remaining >= NODE + 16 then [Extent(FitStart(e, l) + Rounded(l), remaining)] else []
  }

  /** The free list and the pointer after `alloc`. */
  function AllocFrom(free: seq<Extent>, l: Layout): (seq<Extent>, Option<nat>) {
    var i := FirstFit(free, l, 0);
    if i == |free| then (free, None)
    else (free[..i] + Rest(free[i], l) + free[i + 1..], Some(FitStart(free[i], l)))
  }

  function BlockExtent(b: Block): Extent
    requires b.ptr >= NODE
  {
    Extent(b.ptr - NODE, NODE + Rounded(b.layout))
  }

  // ----- the invariant -----

  predicate Apart(a: Extent, b: Extent) {
    a.End() <= b.start || b.End() <= a.start
  }

  /** The heap is `[lo, hi)`. Every extent holds a node, lies in the heap and is word aligned. */
  predicate InHeap(e: Extent, lo: nat, hi: nat) {
    lo <= e.start && e.End() <= hi && e.size >= NODE && e.start % 8 == 0
  }

  predicate BlockOk(b: Block, lo: nat, hi: nat) {
    && b.ptr >= NODE && InHeap(BlockExtent(b), lo, hi)
    && b.layout.align > 0 && b.ptr % b.layout.align == 0 && b.ptr % NODE == 0
    && b.layout.size <= Rounded(b.layout)
  }

  ghost predicate HeapInv(lo: nat, hi: nat, free: seq<Extent>, live: seq<Block>) {
    && 0 < lo
    && (forall i :: 0 <= i < |free| ==> InHeap(free[i], lo, hi))
    && (forall i :: 0 <= i < |live| ==> BlockOk(live[i], lo, hi))
    && (forall i, j :: 0 <= i < j < |free| ==> Apart(free[i], free[j]))
    && (forall i, j :: 0 <= i < j < |live| ==> Apart(BlockExtent(live[i]), BlockExtent(live[j])))
    && (forall i, j :: 0 <= i < |free| && 0 <= j < |live| ==> Apart(free[i], BlockExtent(live[j])))
  }

  lemma WordAligned(p: nat, n: nat)
    requires p >= NODE && p % NODE == 0 && n % NODE == 0
    ensures (p - NODE) % 8 == 0 && (p + n) % 8 == 0
  {
    var q, r := p / 16, n / 16;
    assert p - NODE == 8 * (2 * q - 2);
    assert p + n == 8 * (2 * q + 2 * r);
  }

  /** Where a fitting request lands in extent `e`. */
  lemma FitStartIs(e: Extent, l: Layout, hi: nat)
    requires e.End() <= hi && NoOverflow(l, hi)
    ensures var p := FitStart(e, l);
            && e.start + NODE <= p <= MAX_WORD && p % NODE == 0
            && l.align > 0 && p % l.align == 0
            && p < e.start + NODE + (if l.align < NODE then NODE else l.align)
    ensures Rounded(l) % NODE == 0 && l.size <= Rounded(l) < l.size + NODE
  {
    hide AlignUp, IsPow2, Alignment, Rounded;
    AlignmentIs(l);
    RoundedLeast(l);
    AlignUpLeast(e.start + NODE, Alignment(l));
  }

  /** A block for request `l` could start at `p` and take up `r` bytes in extent `e`: behind a
      header, aligned as asked and to 16, of at least the size asked, in multiples of 16. */
  predicate Placeable(e: Extent, l: Layout, p: nat, r: nat) {
    && p >= e.start + 16 && l.align > 0 && p % l.align == 0 && p % 16 == 0
    && r >= l.size && r % 16 == 0 && p + r <= e.End()
  }

  ghost predicate CanHold(e: Extent, l: Layout) {
    exists p: nat, r: nat :: Placeable(e, l, p, r)
  }

  /** What an extent that could hold the request has at least, and where it would start. */
  lemma PlaceableFits(e: Extent, l: Layout, hi: nat, p: nat, r: nat)
    requires e.End() <= hi && NoOverflow(l, hi) && Placeable(e, l, p, r)
    ensures Fits(e, l) && FitStart(e, l) <= p && Rounded(l) <= r
  {
    hide AlignUp, IsPow2, Rounded, Alignment;
    FitStartLeast(e, l, hi, p);
    RoundedLeast(l);
    MultipleOf16(r, Rounded(l));
  }

  lemma MultipleOf16(r: nat, s: nat)
    requires r % 16 == 0 && s % 16 == 0 && r + 16 > s
    ensures r >= s
  {
  }

  /** The start chosen is the least aligned address behind the header. */
  lemma FitStartLeast(e: Extent, l: Layout, hi: nat, p: nat)
    requires e.End() <= hi && NoOverflow(l, hi) && p >= e.start + NODE && p <= hi
    requires l.align > 0 && p % l.align == 0 && p % NODE == 0
    ensures FitStart(e, l) <= p
  {
    hide AlignUp, IsPow2, Alignment;
    AlignmentIs(l);
    AlignUpLeast(e.start + NODE, Alignment(l));
    var a, x := Alignment(l), FitStart(e, l);
    assert p % a == 0;
    NoMultipleBetween(p, x, a);
  }

  lemma NoMultipleBetween(p: nat, x: nat, a: nat)
    requires a > 0 && p % a == 0 && x % a == 0 && x < p + a
    ensures x <= p
  {
    var m, n := p / a, x / a;
    assert p == m * a && x == n * a by {
      Quotient(p, a);
      Quotient(x, a);
    }
    ScaleBoth(m, n, a);
  }

  lemma ScaleBoth(m: nat, n: nat, a: nat)
    ensures if n > m then m * a + a <= n * a else n * a <= m * a
  {
    if n > m {
      Scale(m + 1, n, a);
    } else {
      Scale(n, m, a);
    }
  }

  /** What it means for the allocator that a request fits: exactly that the extent could hold it; and
      of all places it takes the lowest, with as few bytes as possible. */
  lemma FitsIs(e: Extent, l: Layout, hi: nat)
    requires e.End() <= hi && NoOverflow(l, hi)
    ensures Fits(e, l) <==> CanHold(e, l)
    ensures Fits(e, l) ==> Placeable(e, l, FitStart(e, l), Rounded(l))
    ensures forall p: nat, r: nat :: Placeable(e, l, p, r) ==> FitStart(e, l) <= p && Rounded(l) <= r
  {
    hide FitStart, Rounded, NoOverflow;
    FitStartIs(e, l, hi);
    forall p: nat, r: nat | Placeable(e, l, p, r) ensures Fits(e, l) && FitStart(e, l) <= p && Rounded(l) <= r {
      PlaceableFits(e, l, hi, p, r);
    }
    if Fits(e, l) {
      assert Placeable(e, l, FitStart(e, l), Rounded(l));
    }
  }

  /** `alloc` fails exactly if no free extent could hold the request. Otherwise it serves it from the
      first that could, at the lowest address possible there. */
  lemma AllocExactly(free: seq<Extent>, l: Layout, hi: nat)
    requires NoOverflow(l, hi) && forall i :: 0 <= i < |free| ==> free[i].End() <= hi
    ensures AllocFrom(free, l).1.None? <==> forall i :: 0 <= i < |free| ==> !CanHold(free[i], l)
    ensures var p := AllocFrom(free, l).1;
            p.Some? ==>
              var i := FirstFit(free, l, 0);
              && i < |free| && (forall j :: 0 <= j < i ==> !CanHold(free[j], l))
              && Placeable(free[i], l, p.value, Rounded(l))
              && forall q: nat, r: nat :: Placeable(free[i], l, q, r) ==> p.value <= q && Rounded(l) <= r
  {
    hide FitStart, Rounded, NoOverflow, CanHold, Fits, Placeable, Rest;
    forall i | 0 <= i < |free|
      ensures Fits(free[i], l) <==> CanHold(free[i], l)
      ensures Fits(free[i], l) ==> Placeable(free[i], l, FitStart(free[i], l), Rounded(l))
      ensures forall q: nat, r: nat :: Placeable(free[i], l, q, r) ==> FitStart(free[i], l) <= q && Rounded(l) <= r
    {
      FitsIs(free[i], l, hi);
    }
  }

  /** The block cut from a fitting extent and the rest lie inside it, apart from each other. */
  lemma CutInside(e: Extent, l: Layout, lo: nat, hi: nat)
    requires InHeap(e, lo, hi) && NoOverflow(l, hi) && Fits(e, l)
    ensures var b := Block(FitStart(e, l), l);
            && BlockOk(b, lo, hi) && BlockExtent(b).start >= e.start && BlockExtent(b).End() <= e.End()
            && forall r :: r in Rest(e, l) ==>
                 InHeap(r, lo, hi) && r.start >= BlockExtent(b).End() && r.End() <= e.End()
  {
    hide FitStart, Rounded, NoOverflow;
    FitStartIs(e, l, hi);
    WordAligned(FitStart(e, l), Rounded(l));
  }

  /** `alloc` keeps the invariant, whichever extent is taken. */
  lemma AllocKeepsInv(lo: nat, hi: nat, free: seq<Extent>, live: seq<Block>, l: Layout)
    requires HeapInv(lo, hi, free, live) && NoOverflow(l, hi)
    ensures var (free', p) := AllocFrom(free, l);
            HeapInv(lo, hi, free', if p.Some? then live + [Block(p.value, l)] else live)
  {
    hide Rest, FitStart, Rounded, Needed, Fits, NoOverflow;
    var i := FirstFit(free, l, 0);
    if i < |free| {
      CutInside(free[i], l, lo, hi);
      RestShort(free[i], l);
      CutKeepsInv(lo, hi, free, live, i, Rest(free[i], l), Block(FitStart(free[i], l), l));
    }
  }

  lemma CutKeepsInv(lo: nat, hi: nat, free: seq<Extent>, live: seq<Block>, i: nat, rest: seq<Extent>, b: Block)
    requires HeapInv(lo, hi, free, live) && i < |free| && |rest| <= 1 && BlockOk(b, lo, hi)
    requires free[i].start <= BlockExtent(b).start && BlockExtent(b).End() <= free[i].End()
    requires forall r :: r in rest ==>
               InHeap(r, lo, hi) && BlockExtent(b).End() <= r.start && r.End() <= free[i].End()
    ensures HeapInv(lo, hi, free[..i] + rest + free[i + 1..], live + [b])
  {
    hide Rounded;
    var free', live' := free[..i] + rest + free[i + 1..], live + [b];
    CutFree(lo, hi, free, i, rest);
    forall j, n | 0 <= j < |free'| && 0 <= n < |live'|
      ensures Apart(free'[j], BlockExtent(live'[n]))
    {
      var m := if j < i then j else if j < i + |rest| then i else j + 1 - |rest|;
      assert m == i ==> free'[j] in rest;
      assert m != i ==> free'[j] == free[m];
      if n < |live| {
        assert Apart(free[m], BlockExtent(live[n]));
      } else if m != i {
        assert if m < i then Apart(free[m], free[i]) else Apart(free[i], free[m]);
      }
    }
    forall n | 0 <= n < |live| ensures Apart(BlockExtent(live[n]), BlockExtent(b)) {
      assert Apart(free[i], BlockExtent(live[n]));
    }
    assert forall n :: 0 <= n < |live'| ==> live'[n] == if n < |live| then live[n] else b;
  }

  lemma FirstFitIs(free: seq<Extent>, l: Layout, i: nat)
    requires i <= |free| && (i < |free| ==> Fits(free[i], l)) && forall j :: 0 <= j < i ==> !Fits(free[j], l)
    ensures FirstFit(free, l, 0) == i
  {
  }

  lemma RestShort(e: Extent, l: Layout)
    requires Fits(e, l)
    ensures |Rest(e, l)| <= 1
  {
  }

  /** Replacing a free extent by at most one extent inside it keeps the free extents apart. */
  lemma CutFree(lo: nat, hi: nat, free: seq<Extent>, i: nat, rest: seq<Extent>)
    requires i < |free| && |rest| <= 1
    requires forall j :: 0 <= j < |free| ==> InHeap(free[j], lo, hi)
    requires forall j, k :: 0 <= j < k < |free| ==> Apart(free[j], free[k])
    requires forall r :: r in rest ==> InHeap(r, lo, hi) && free[i].start <= r.start && r.End() <= free[i].End()
    ensures var free' := free[..i] + rest + free[i + 1..];
            && (forall j :: 0 <= j < |free'| ==> InHeap(free'[j], lo, hi))
            && (forall j, k :: 0 <= j < k < |free'| ==> Apart(free'[j], free'[k]))
  {
    var free' := free[..i] + rest + free[i + 1..];
    forall j | 0 <= j < |free'| ensures InHeap(free'[j], lo, hi) {
      assert free'[j] in rest || free'[j] == free[if j < i then j else j + 1 - |rest|];
    }
    forall j, k | 0 <= j < k < |free'| ensures Apart(free'[j], free'[k]) {
      var m := if j < i then j else if j < i + |rest| then i else j + 1 - |rest|;
      var n := if k < i then k else if k < i + |rest| then i else k + 1 - |rest|;
      assert Apart(free[m], free[n]);
      assert m == i ==> free'[j] in rest;
      assert n == i ==> free'[k] in rest;
    }
  }

  /** `dealloc` keeps the invariant. */
  lemma DeallocKeepsInv(lo: nat, hi: nat, free: seq<Extent>, live: seq<Block>, k: nat)
    requires HeapInv(lo, hi, free, live) && k < |live|
    ensures HeapInv(lo, hi, [BlockExtent(live[k])] + free, live[..k] + live[k + 1..])
  {
    var free', live' := [BlockExtent(live[k])] + free, live[..k] + live[k + 1..];
    forall j | 0 <= j < |live'| ensures live'[j] == live[if j < k then j else j + 1] {
    }
    forall i, j | 0 <= i < |free'| && 0 <= j < |live'| ensures Apart(free'[i], BlockExtent(live'[j])) {
      var n := if j < k then j else j + 1;
      assert if n < k then Apart(BlockExtent(live[n]), BlockExtent(live[k])) else Apart(BlockExtent(live[k]),
          BlockExtent(live[n]));
    }
    forall i | 0 <= i < |free| ensures Apart(BlockExtent(live[k]), free[i]) {
      assert Apart(free[i], BlockExtent(live[k]));
    }
  }

  // ----- runs of requests -----

  /** The allocator's view of itself: free extents in list order, blocks handed out, and the
      count of bytes in use. */
  datatype HeapView = HeapView(free: seq<Extent>, live: seq<Block>, used: int)

  datatype Op = Alloc(layout: Layout) | Dealloc(k: nat)

  function Apply(v: HeapView, op: Op): HeapView
    requires op.Dealloc? ==> op.k < |v.live| && v.live[op.k].ptr >= NODE
  {
    match op
    case Alloc(l) =>
      var (free', p) := AllocFrom(v.free, l);
      if p.Some? then HeapView(free', v.live + [Block(p.value, l)], v.used + l.size) else v
    case Dealloc(k) =>
      HeapView([BlockExtent(v.live[k])] + v.free, v.live[..k] + v.live[k + 1..], v.used - v.live[k].layout.size)
  }

  function Requested(live: seq<Block>): nat {
    if live == [] then 0 else Requested(live[..|live| - 1]) + live[|live| - 1].layout.size
  }

  function Bytes(es: seq<Extent>): nat {
    if es == [] then 0 else Bytes(es[..|es| - 1]) + es[|es| - 1].size
  }

  function BlockBytes(live: seq<Block>): nat {
    if live == [] then 0 else BlockBytes(live[..|live| - 1]) + NODE + Rounded(live[|live| - 1].layout)
  }

  lemma {:induction false} BytesSplit(a: seq<Extent>, b: seq<Extent>)
    ensures Bytes(a + b) == Bytes(a) + Bytes(b)
    decreases |b|
  {
    if b == [] {
      assert a + b == a;
    } else {
      assert (a + b)[..|a + b| - 1] == a + b[..|b| - 1];
      BytesSplit(a, b[..|b| - 1]);
    }
  }

  lemma {:induction false} RemoveBlock(live: seq<Block>, k: nat)
    requires k < |live|
    ensures Requested(live[..k] + live[k + 1..]) + live[k].layout.size == Requested(live)
    ensures BlockBytes(live[..k] + live[k + 1..]) + NODE + Rounded(live[k].layout) == BlockBytes(live)
    decreases |live|
  {
    var n := |live| - 1;
    var rest := live[..k] + live[k + 1..];
    if k == n {
      assert rest == live[..n];
    } else {
      assert rest[..|rest| - 1] == live[..n][..k] + live[..n][k + 1..];
      RemoveBlock(live[..n], k);
    }
  }

  lemma AddBlock(live: seq<Block>, b: Block)
    ensures Requested(live + [b]) == Requested(live) + b.layout.size
    ensures BlockBytes(live + [b]) == BlockBytes(live) + NODE + Rounded(b.layout)
  {
    assert (live + [b])[..|live|] == live;
  }

  /** Bytes the allocator gives up for good when it serves `l` from `e`: the padding in front of
      the block's header and a rest too small for a node. */
  function Waste(e: Extent, l: Layout): int
    requires Fits(e, l)
  {
    var tail := e.End() - (FitStart(e, l) + Rounded(l));
    FitStart(e, l) - 16 - e.start + if tail >= 32 then 0 else tail
  }

  lemma CutBytes(free: seq<Extent>, i: nat, rest: seq<Extent>)
    requires i < |free|
    ensures Bytes(free[..i] + rest + free[i + 1..]) + free[i].size == Bytes(free) + Bytes(rest)
  {
    assert free == free[..i] + [free[i]] + free[i + 1..];
    BytesSplit(free[..i] + [free[i]], free[i + 1..]);
    BytesSplit(free[..i], [free[i]]);
    BytesSplit(free[..i] + rest, free[i + 1..]);
    BytesSplit(free[..i], rest);
    assert Bytes([free[i]]) == free[i].size by { assert [free[i]][..0] == []; }
  }

  lemma RestBytes(e: Extent, l: Layout)
    requires Fits(e, l)
    ensures var tail := e.End() - (FitStart(e, l) + Rounded(l)); Bytes(Rest(e, l)) == if tail >= 32 then tail else 0
  {
    var r := Rest(e, l);
    if r != [] {
      assert r[..0] == [];
    }
  }

  /** First fit, and conservation: a request fails only if no free extent fits; otherwise it is
      served from the first that does, and free plus live bytes drop by exactly the waste. */
  lemma AllocConserves(v: HeapView, l: Layout)
    ensures var (free', p) := AllocFrom(v.free, l);
            var v' := Apply(v, Alloc(l));
            if p.None? then v' == v && forall e :: e in v.free ==> !Fits(e, l)
            else var i := FirstFit(v.free, l, 0);
                 && i < |v.free| && Fits(v.free[i], l) && (forall j :: 0 <= j < i ==> !Fits(v.free[j], l))
                 && p.value == FitStart(v.free[i], l)
                 && Bytes(v'.free) + BlockBytes(v'.live) + Waste(v.free[i], l) == Bytes(v.free) + BlockBytes(v.live)
  {
    hide FitStart, Rounded;
    var i := FirstFit(v.free, l, 0);
    if i < |v.free| {
      CutBytes(v.free, i, Rest(v.free[i], l));
      RestBytes(v.free[i], l);
      AddBlock(v.live, Block(FitStart(v.free[i], l), l));
    }
  }

  /** Freeing a block conserves bytes exactly. */
  lemma DeallocConserves(v: HeapView, k: nat)
    requires k < |v.live| && v.live[k].ptr >= NODE
    ensures var v' := Apply(v, Dealloc(k));
            Bytes(v'.free) + BlockBytes(v'.live) == Bytes(v.free) + BlockBytes(v.live)
  {
    var e := BlockExtent(v.live[k]);
    BytesSplit([e], v.free);
    assert Bytes([e]) == e.size by { assert [e][..0] == []; }
    RemoveBlock(v.live, k);
  }

  /** Any run of requests from a freshly initialised heap, where blocks are freed once each. */
  ghost predicate Run(vs: seq<HeapView>, ops: seq<Op>, hi: nat) {
    && |vs| == |ops| + 1
    && (forall n :: 0 <= n < |vs| ==> forall k :: 0 <= k < |vs[n].live| ==> vs[n].live[k].ptr >= NODE)
    && (forall n :: 0 <= n < |ops| ==>
          && (ops[n].Dealloc? ==> ops[n].k < |vs[n].live|) && (ops[n].Alloc? ==> NoOverflow(ops[n].layout, hi))
          && vs[n + 1] == Apply(vs[n], ops[n]))
  }

  ghost predicate ViewInv(v: HeapView, lo: nat, hi: nat) {
    && HeapInv(lo, hi, v.free, v.live) && v.used == Requested(v.live)
    && Bytes(v.free) + BlockBytes(v.live) <= hi - lo
  }

  lemma ApplyKeeps(v: HeapView, op: Op, lo: nat, hi: nat)
    requires ViewInv(v, lo, hi)
    requires op.Dealloc? ==> op.k < |v.live|
    requires op.Alloc? ==> NoOverflow(op.layout, hi)
    ensures ViewInv(Apply(v, op), lo, hi)
    ensures Bytes(Apply(v, op).free) + BlockBytes(Apply(v, op).live) <= Bytes(v.free) + BlockBytes(v.live)
  {
    hide FitStart, Rounded, HeapInv;
    match op
    case Alloc(l) =>
      AllocKeepsInv(lo, hi, v.free, v.live, l);
      AllocConserves(v, l);
      var i := FirstFit(v.free, l, 0);
      if i < |v.free| {
        AddBlock(v.live, Block(FitStart(v.free[i], l), l));
        WasteNonnegative(v, lo, hi, i, l);
      }
    case Dealloc(k) =>
      FreeablePtr(v, lo, hi, k);
      DeallocKeepsInv(lo, hi, v.free, v.live, k);
      DeallocConserves(v, k);
      RemoveBlock(v.live, k);
  }

  lemma FreeablePtr(v: HeapView, lo: nat, hi: nat, k: nat)
    requires HeapInv(lo, hi, v.free, v.live) && k < |v.live|
    ensures v.live[k].ptr >= NODE
  {
  }

  lemma WasteNonnegative(v: HeapView, lo: nat, hi: nat, i: nat, l: Layout)
    requires HeapInv(lo, hi, v.free, v.live) && i < |v.free| && Fits(v.free[i], l) && NoOverflow(l, hi)
    ensures Waste(v.free[i], l) >= 0
  {
    hide FitStart, Rounded, NoOverflow;
    FitStartIs(v.free[i], l, hi);
  }

  /** Over any run: the free list and the blocks stay disjoint and inside the heap, every block is
      aligned as asked, the counter is the sum of live request sizes, and no byte is ever created. */
  lemma {:induction false} HeapSafety(vs: seq<HeapView>, ops: seq<Op>, lo: nat, hi: nat, n: nat)
    requires Run(vs, ops, hi) && ViewInv(vs[0], lo, hi) && n < |vs|
    ensures ViewInv(vs[n], lo, hi)
    ensures Bytes(vs[n].free) + BlockBytes(vs[n].live) <= Bytes(vs[0].free) + BlockBytes(vs[0].live)
    decreases n
  {
    hide Apply, ViewInv;
    if n > 0 {
      HeapSafety(vs, ops, lo, hi, n - 1);
      ApplyKeeps(vs[n - 1], ops[n - 1], lo, hi);
    }
  }

  // ----- the list in memory -----

  /** Address of the i-th node, or null behind the last. */
  function NodeAt(free: seq<Extent>, i: nat): int {
    if i < |free| then free[i].start else 0
  }

  predicate NodeOk(m: Mem, free: seq<Extent>, i: nat)
    requires i < |free|
  {
    Read(m, free[i].start) == free[i].size - NODE && Read(m, free[i].start + NEXT) == NodeAt(free, i + 1)
  }

  /** From `head` on, the nodes in memory are the extents of `free`, in order. */
  ghost predicate Linked(m: Mem, head: int, free: seq<Extent>) {
    head == NodeAt(free, 0) && forall i :: 0 <= i < |free| ==> NodeOk(m, free, i)
  }

  /** Memory and head after unlinking node `i` in favour of `rest`, written by three stores. */
  ghost predicate Relinks(m: Mem, head: int, m': Mem, head': int, free: seq<Extent>, i: nat, rest: seq<Extent>)
    requires i < |free|
  {
    var target := if rest == [] then NodeAt(free, i + 1) else rest[0].start;
    && head' == (if i == 0 then target else head)
    && forall a :: Read(m', a) ==
         if i > 0 && a == free[i - 1].start + NEXT then target
         else if rest != [] && a == rest[0].start then rest[0].size - NODE
         else if rest != [] && a == rest[0].start + NEXT then NodeAt(free, i + 1)
         else Read(m, a)
  }

  /** Both words of a node lie in its own extent, hence outside every other. */
  lemma NodeWords(a: Extent, b: Extent)
    requires a.size >= NODE && Apart(a, b)
    ensures a.Contains(a.start) && a.Contains(a.start + NEXT) && !b.Contains(a.start) && !b.Contains(a.start + NEXT)
  {
  }

  /** A node other than the one replaced: only the node in front of it gets a new successor. */
  lemma RelinkedNode(m: Mem, head: int, m': Mem, head': int, free: seq<Extent>, i: nat, rest: seq<Extent>, n: nat)
    requires i < |free| && |rest| <= 1 && Linked(m, head, free) && Relinks(m, head, m', head', free, i, rest)
    requires forall j :: 0 <= j < |free| ==> free[j].size >= NODE
    requires forall j, k :: 0 <= j < k < |free| ==> Apart(free[j], free[k])
    requires rest != [] ==> rest[0].size >= NODE && free[i].start <= rest[0].start && rest[0].End() <= free[i].End()
    requires n < |free| && n != i
    ensures Read(m', free[n].start) == free[n].size - NODE
    ensures Read(m', free[n].start + NEXT)
         == if n + 1 == i then (if rest == [] then NodeAt(free, i + 1) else rest[0].start) else NodeAt(free, n + 1)
  {
    hide NodeAt;
    assert NodeOk(m, free, n);
    NodeWords(free[n], free[i]) by { assert if n < i then Apart(free[n], free[i]) else Apart(free[i], free[n]); }
    if i > 0 && n != i - 1 {
      NodeWords(free[n], free[i - 1]) by {
        assert if n < i - 1 then Apart(free[n], free[i - 1]) else Apart(free[i - 1], free[n]);
      }
      assert free[i - 1].Contains(free[i - 1].start + NEXT);
    }
  }

  lemma RelinkedRest(m: Mem, head: int, m': Mem, head': int, free: seq<Extent>, i: nat, rest: seq<Extent>)
    requires i < |free| && |rest| == 1 && Relinks(m, head, m', head', free, i, rest)
    requires forall j :: 0 <= j < |free| ==> free[j].size >= NODE
    requires forall j, k :: 0 <= j < k < |free| ==> Apart(free[j], free[k])
    requires rest[0].size >= NODE && free[i].start <= rest[0].start && rest[0].End() <= free[i].End()
    ensures Read(m', rest[0].start) == rest[0].size - NODE && Read(m', rest[0].start + NEXT) == NodeAt(free, i + 1)
  {
    hide NodeAt;
    if i > 0 {
      NodeWords(free[i - 1], free[i]);
    }
  }

  lemma RelinkedList(m: Mem, head: int, m': Mem, head': int, free: seq<Extent>, i: nat, rest: seq<Extent>)
    requires i < |free| && |rest| <= 1 && Linked(m, head, free) && Relinks(m, head, m', head', free, i, rest)
    requires forall j :: 0 <= j < |free| ==> free[j].size >= NODE
    requires forall j, k :: 0 <= j < k < |free| ==> Apart(free[j], free[k])
    requires rest != [] ==> rest[0].size >= NODE && free[i].start <= rest[0].start && rest[0].End() <= free[i].End()
    ensures Linked(m', head', free[..i] + rest + free[i + 1..])
  {
    hide Apart;
    var free' := free[..i] + rest + free[i + 1..];
    forall j | 0 <= j < |free'| ensures NodeOk(m', free', j) {
      if i <= j < i + |rest| {
        RelinkedRest(m, head, m', head', free, i, rest);
      } else {
        var n := if j < i then j else j + 1 - |rest|;
        assert free'[j] == free[n];
        RelinkedNode(m, head, m', head', free, i, rest, n);
      }
    }
  }

  /** Relinking stores into free extents only, so no payload changes. */
  lemma RelinkSparesPayload(m: Mem, head: int, m': Mem, head': int, free: seq<Extent>, i: nat, rest: seq<Extent>,
                            live: seq<Block>, lo: nat, hi: nat)
    requires HeapInv(lo, hi, free, live) && i < |free| && |rest| <= 1
    requires forall r :: r in rest ==> InHeap(r, lo, hi) && free[i].start <= r.start && r.End() <= free[i].End()
    requires Relinks(m, head, m', head', free, i, rest)
    ensures PayloadsKept(m, m', live)
  {
    hide Rounded;
    forall k, a | 0 <= k < |live| && InPayload(live[k], a) ensures Read(m', a) == Read(m, a) {
      assert BlockOk(live[k], lo, hi);
      assert Apart(free[i], BlockExtent(live[k]));
      assert i > 0 ==> Apart(free[i - 1], BlockExtent(live[k])) && InHeap(free[i - 1], lo, hi);
      assert rest != [] ==> rest[0] in rest;
    }
  }

  predicate InPayload(b: Block, a: int) {
    b.ptr <= a < b.ptr + Rounded(b.layout)
  }

  /** The 8-byte word at `a` lies wholly inside the block's payload. */
  predicate WordInPayload(b: Block, a: int) {
    a % 8 == 0 && b.ptr <= a && a + 8 <= b.ptr + Rounded(b.layout)
  }

  ghost predicate PayloadsKept(m: Mem, m': Mem, live: seq<Block>) {
    forall k, a :: 0 <= k < |live| && InPayload(live[k], a) ==> Read(m', a) == Read(m, a)
  }

  lemma FreeInHeap(v: HeapView, lo: nat, hi: nat)
    requires HeapInv(lo, hi, v.free, v.live)
    ensures forall j :: 0 <= j < |v.free| ==> InHeap(v.free[j], lo, hi)
    ensures forall j, k :: 0 <= j < k < |v.free| ==> Apart(v.free[j], v.free[k])
  {
  }

  /** Serving a request from node `i` leaves a linked list of the new free extents, keeps the
      invariant and spares every payload. */
  lemma Served(m: Mem, head: int, m': Mem, head': int, v: HeapView, i: nat, l: Layout, lo: nat, hi: nat)
    requires ViewInv(v, lo, hi) && Linked(m, head, v.free) && NoOverflow(l, hi)
    requires i < |v.free| && Fits(v.free[i], l) && FirstFit(v.free, l, 0) == i
    requires Relinks(m, head, m', head', v.free, i, Rest(v.free[i], l))
    ensures var v' := Apply(v, Op.Alloc(l));
            ViewInv(v', lo, hi) && Linked(m', head', v'.free) && PayloadsKept(m, m', v.live)
  {
    hide FitStart, Rounded, Relinks, Linked, Needed, NoOverflow, HeapInv, PayloadsKept, Bytes, BlockBytes, Requested;
    var rest := Rest(v.free[i], l);
    FreeInHeap(v, lo, hi);
    CutInside(v.free[i], l, lo, hi);
    RestShort(v.free[i], l);
    ApplyKeeps(v, Op.Alloc(l), lo, hi);
    assert rest != [] ==> rest[0] in rest;
    RelinkedList(m, head, m', head', v.free, i, rest);
    RelinkSparesPayload(m, head, m', head', v.free, i, rest, v.live, lo, hi);
  }

  lemma EndsInHeap(v: HeapView, lo: nat, hi: nat)
    requires ViewInv(v, lo, hi)
    ensures forall i :: 0 <= i < |v.free| ==> v.free[i].End() <= hi
  {
    assert forall i :: 0 <= i < |v.free| ==> InHeap(v.free[i], lo, hi);
  }

  lemma NodesPositive(v: HeapView, lo: nat, hi: nat, i: nat)
    requires ViewInv(v, lo, hi) && i < |v.free|
    ensures v.free[i].start > 0 && (i > 0 ==> v.free[i - 1].start > 0)
  {
    assert InHeap(v.free[i], lo, hi) && (i > 0 ==> InHeap(v.free[i - 1], lo, hi));
  }

  /** The stores of `alloc`: the rest's node if there is one, then the link in front. */
  lemma StoresRelink(m: Mem, head: int, m': Mem, head': int, free: seq<Extent>, i: nat, rest: seq<Extent>)
    requires i < |free| && |rest| <= 1
    requires var m1 := if rest == [] then m
                       else m[rest[0].start := rest[0].size - NODE][rest[0].start + NEXT := NodeAt(free, i + 1)];
             var target := if rest == [] then NodeAt(free, i + 1) else rest[0].start;
             if i == 0 then m' == m1 && head' == target
             else m' == m1[free[i - 1].start + NEXT := target] && head' == head
    ensures Relinks(m, head, m', head', free, i, rest)
  {
    hide NodeAt;
  }

  class HeapAllocator {
    var mem: Mem
    var headNext: int
    var initialized: bool
    var usedMemory: int
    ghost var lo: nat
    ghost var hi: nat
    ghost var free: seq<Extent>
    ghost var live: seq<Block>

    ghost predicate Valid()
      reads this
    {
      initialized && Linked(mem, headNext, free) && ViewInv(View(), lo, hi)
    }

    ghost function View(): HeapView
      reads this
    {
      HeapView(free, live, usedMemory)
    }

    constructor ()
      ensures !initialized && headNext == 0 && usedMemory == 0 && live == []
    {
      mem, headNext, initialized, usedMemory := map[], 0, false, 0;
      lo, hi, free, live := 0, 0, [], [];
    }

    /** The whole heap becomes one free node, unless the heap is already set up. */
    method Init(start: nat, size: nat)
      requires start > 0 && start % 8 == 0 && size >= NODE
      requires !initialized ==> live == [] && usedMemory == 0
      modifies this
      ensures old(initialized) ==>
                mem == old(mem) && headNext == old(headNext) && View() == old(View()) && lo == old(lo) && hi == old(hi)
      ensures !old(initialized) ==>
                Valid() && lo == start && hi == start + size && View() == HeapView([Extent(start, size)], [], 0)
      ensures initialized
    {
      if initialized {
        return;
      }
      mem := mem[start := size - NODE][start + NEXT := 0];
      headNext := start;
      initialized := true;
      lo, hi, free, live := start, start + size, [Extent(start, size)], [];
      assert free[..0] == [];
    }

    /** Serve a request from node `curr`, the i-th: give the rest back as a node or unlink the node. */
    method CarveNode(prev: int, curr: int, allocStart: nat, size: nat, layout: Layout, ghost i: nat)
      requires Valid() && NoOverflow(layout, hi) && i < |free| && Fits(free[i], layout)
      requires forall j :: 0 <= j < i ==> !Fits(free[j], layout)
      requires curr == free[i].start && prev == (if i == 0 then 0 else free[i - 1].start)
      requires allocStart == FitStart(free[i], layout) && size == Rounded(layout)
      modifies this`mem, this`headNext, this`usedMemory, this`free, this`live
      ensures Valid() && View() == Apply(old(View()), Op.Alloc(layout)) && FirstFit(old(free), layout, 0) == i
      ensures PayloadsKept(old(mem), mem, old(live))
    {
      hide FitStart, Rounded, ViewInv, NoOverflow, PayloadsKept, Relinks, NodeAt, FirstFit;
      assert NodeOk(mem, free, i);
      NodesPositive(View(), lo, hi, i);
      FirstFitIs(free, layout, i);
      ghost var rest := Rest(free[i], layout);
      var nextNode := Read(mem, curr + NEXT);
      var remaining := Read(mem, curr) + NODE - (allocStart - curr + size);
      if remaining >= NODE + 16 {
        var newNode := allocStart + size;
        mem := mem[newNode := remaining - NODE][newNode + NEXT := nextNode];
        LinkPrev(prev, newNode);
      } else {
        LinkPrev(prev, nextNode);
      }
      usedMemory := usedMemory + layout.size;
      StoresRelink(old(mem), old(headNext), mem, headNext, free, i, rest);
      Served(old(mem), old(headNext), mem, headNext, old(View()), i, layout, lo, hi);
      free := free[..i] + rest + free[i + 1..];
      live := live + [Block(allocStart, layout)];
    }

    /** First fit along the list. */
    method Alloc(layout: Layout) returns (p: Option<nat>)
      requires Valid() && NoOverflow(layout, hi)
      modifies this`mem, this`headNext, this`usedMemory, this`free, this`live
      ensures Valid() && View() == Apply(old(View()), Op.Alloc(layout))
      ensures p == AllocFrom(old(free), layout).1
      ensures p.None? <==> forall i :: 0 <= i < |old(free)| ==> !CanHold(old(free)[i], layout)
      ensures PayloadsKept(old(mem), mem, old(live))
    {
      hide AlignUp, ViewInv, NoOverflow, CanHold;
      EndsInHeap(View(), lo, hi);
      AllocExactly(free, layout, hi);
      var size := AlignUp(layout.size, 16);
      var align := AlignUp(layout.align, 16);
      var prev, curr := 0, headNext;
      ghost var i: nat := 0;
      while curr != 0
        invariant Valid() && free == old(free) && live == old(live) && usedMemory == old(usedMemory) && mem == old(mem)
        invariant i <= |free| && curr == NodeAt(free, i) && prev == (if i == 0 then 0 else free[i - 1].start)
        invariant forall j :: 0 <= j < i ==> !Fits(free[j], layout)
        decreases |free| - i
      {
        assert NodeOk(mem, free, i);
        var nodeSize := Read(mem, curr);
        var allocStart := AlignUp(curr + NODE, align);
        var neededSpace := allocStart - curr + size;
        if nodeSize + NODE >= neededSpace {
          CarveNode(prev, curr, allocStart, size, layout, i);
          return Some(allocStart);
        }
        prev := curr;
        curr := Read(mem, curr + NEXT);
        i := i + 1;
      }
      if i < |free| {
        NodesPositive(View(), lo, hi, i);
      }
      FirstFitIs(free, layout, |free|);
      p := None;
    }

    /** `(*prev).next = target`, where a null `prev` stands for the list head. */
    method LinkPrev(prev: int, target: int)
      modifies this`mem, this`headNext
      ensures prev == 0 ==> headNext == target && mem == old(mem)
      ensures prev != 0 ==> headNext == old(headNext) && mem == old(mem)[prev + NEXT := target]
    {
      if prev == 0 {
        headNext := target;
      } else {
        mem := mem[prev + NEXT := target];
      }
    }

    /** Give block `k` back, with the pointer and layout it was handed out with. */
    method Dealloc(ptr: nat, layout: Layout, ghost k: nat)
      requires Valid() && k < |live| && live[k] == Block(ptr, layout)
      modifies this`mem, this`headNext, this`usedMemory, this`free, this`live
      ensures old(live)[k].ptr >= NODE
      ensures Valid() && View() == Apply(old(View()), Op.Dealloc(k))
      ensures PayloadsKept(old(mem), mem, live)
    {
      hide ViewInv, Linked, PayloadsKept;
      Freed(mem, headNext, View(), k, lo, hi);
      var nodePtr := ptr - NODE;
      var size := AlignUp(layout.size, 16);
      mem := mem[nodePtr := size][nodePtr + NEXT := headNext];
      headNext := nodePtr;
      usedMemory := usedMemory - layout.size;
      free := [BlockExtent(live[k])] + free;
      live := live[..k] + live[k + 1..];
    }

    /** What the owner of a block may do to it keeps the list intact. */
    method Store(a: int, v: int, ghost k: nat)
      requires Valid() && k < |live| && WordInPayload(live[k], a)
      modifies this`mem
      ensures Valid() && mem == old(mem)[a := v]
    {
      mem := mem[a := v];
      StoreSparesList(old(mem), headNext, free, live, k, a, v, lo, hi);
    }
  }

  lemma PushedNode(m: Mem, head: int, free: seq<Extent>, e: Extent)
    requires Linked(m, head, free) && e.size >= NODE
    requires forall j :: 0 <= j < |free| ==> free[j].size >= NODE && Apart(free[j], e)
    ensures Linked(m[e.start := e.size - NODE][e.start + NEXT := head], e.start, [e] + free)
  {
    var m' := m[e.start := e.size - NODE][e.start + NEXT := head];
    var free' := [e] + free;
    forall i | 0 <= i < |free'| ensures NodeOk(m', free', i) {
      if i > 0 {
        assert NodeOk(m, free, i - 1);
        NodeWords(free[i - 1], e);
        NodeWords(e, free[i - 1]);
      }
    }
  }

  lemma FreedSparesPayload(m: Mem, free: seq<Extent>, live: seq<Block>, k: nat, x: int, y: int, lo: nat, hi: nat)
    requires HeapInv(lo, hi, free, live) && k < |live| && live[k].ptr >= NODE
    ensures PayloadsKept(m, m[live[k].ptr - NODE := x][live[k].ptr - NODE + NEXT := y], live[..k] + live[k + 1..])
  {
    hide Rounded;
    var e := BlockExtent(live[k]);
    var live' := live[..k] + live[k + 1..];
    forall n, a | 0 <= n < |live'| && InPayload(live'[n], a) ensures !e.Contains(a) {
      var j := if n < k then n else n + 1;
      assert live'[n] == live[j] && BlockOk(live[j], lo, hi);
      assert if j < k then Apart(BlockExtent(live[j]), e) else Apart(e, BlockExtent(live[j]));
    }
  }

  lemma FreeApart(v: HeapView, lo: nat, hi: nat, k: nat)
    requires HeapInv(lo, hi, v.free, v.live) && k < |v.live| && v.live[k].ptr >= NODE
    ensures forall j :: 0 <= j < |v.free| ==> v.free[j].size >= NODE && Apart(v.free[j], BlockExtent(v.live[k]))
  {
    hide Rounded;
    assert forall j :: 0 <= j < |v.free| ==> InHeap(v.free[j], lo, hi);
  }

  /** Pushing a freed block in front of the list. */
  lemma Freed(m: Mem, head: int, v: HeapView, k: nat, lo: nat, hi: nat)
    requires ViewInv(v, lo, hi) && Linked(m, head, v.free) && k < |v.live|
    ensures v.live[k].ptr >= NODE
    ensures var node := v.live[k].ptr - NODE;
            var m' := m[node := Rounded(v.live[k].layout)][node + NEXT := head];
            var v' := Apply(v, Op.Dealloc(k));
            ViewInv(v', lo, hi) && Linked(m', node, v'.free) && PayloadsKept(m, m', v'.live)
  {
    hide Rounded, Linked, PayloadsKept, HeapInv, Bytes, BlockBytes, Requested;
    FreeablePtr(v, lo, hi, k);
    FreeApart(v, lo, hi, k);
    ApplyKeeps(v, Op.Dealloc(k), lo, hi);
    PushedNode(m, head, v.free, BlockExtent(v.live[k]));
    FreedSparesPayload(m, v.free, v.live, k, Rounded(v.live[k].layout), head, lo, hi);
  }

  lemma StoreSparesList(m: Mem, head: int, free: seq<Extent>, live: seq<Block>, k: nat, a: int, v: int, lo: nat,
      hi: nat)
    requires HeapInv(lo, hi, free, live) && Linked(m, head, free) && k < |live| && WordInPayload(live[k], a)
    ensures Linked(m[a := v], head, free)
  {
    hide Rounded;
    assert BlockOk(live[k], lo, hi);
    var m' := m[a := v];
    forall i | 0 <= i < |free| ensures NodeOk(m', free, i) {
      assert NodeOk(m, free, i);
      assert Apart(free[i], BlockExtent(live[k])) && InHeap(free[i], lo, hi);
    }
  }
}
