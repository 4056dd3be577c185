/** The boot frame allocator: a cursor over the usable memory regions. */
module Frames {
  import opened Machine

  const PAGE: nat := 4096

  datatype Region = Region(usable: bool, start: nat, end: nat) {
    /** Number of the first whole frame, `(start + 0xFFF) >> 12`. */
    function First(): nat {
      (start + 0xFFF) / PAGE
    }

    function Limit(): nat {
      end / PAGE
    }

    /** The whole frames of a usable region, in order. */
    function Frames(): (fs: seq<nat>)
      ensures !usable ==> fs == []
      ensures usable ==> |fs| == if First() < Limit() then Limit() - First() else 0
      ensures forall k :: 0 <= k < |fs| ==> fs[k] == First() + k
    {
      if usable && First() < Limit() then seq(Limit() - First(), k => First() + k) else []
    }
  }

  /** What is still to come when the cursor stands before frame `frame` of region `region`. */
  function Remaining(regions: seq<Region>, region: nat, frame: nat): seq<nat>
    decreases |regions| - region
  {
    if region >= |regions| then []
    else
      var fs := regions[region].Frames();
      (if frame <= |fs| then fs[frame..] else []) + Remaining(regions, region + 1, 0)
  }

  function AllFrames(regions: seq<Region>): seq<nat> {
    Remaining(regions, 0, 0)
  }

  /** The cursor moves past a region that has nothing (more) to give. */
  lemma SkipRegion(regions: seq<Region>, region: nat, frame: nat)
    requires region < |regions| && (regions[region].usable ==> frame >= |regions[region].Frames()|)
    ensures Remaining(regions, region, frame) == Remaining(regions, region + 1, 0)
  {
  }

  /** The cursor moves past one frame. */
  lemma TakeFrame(regions: seq<Region>, region: nat, frame: nat)
    requires region < |regions| && frame < |regions[region].Frames()|
    ensures Remaining(regions, region, frame)
         == [regions[region].First() + frame] + Remaining(regions, region, frame + 1)
  {
    SplitFirst(regions[region].Frames(), frame, Remaining(regions, region + 1, 0));
  }

  lemma SplitFirst(fs: seq<nat>, k: nat, rest: seq<nat>)
    requires k < |fs|
    ensures fs[k..] + rest == [fs[k]] + (fs[k + 1..] + rest)
  {
  }

  lemma AtEnd(regions: seq<Region>, region: nat, frame: nat)
    requires region >= |regions|
    ensures Remaining(regions, region, frame) == []
  {
  }

  class BootInfoFrameAllocator {
    const regions: seq<Region>
    var nextRegion: nat
    var nextFrameInRegion: nat
    ghost var issued: seq<nat>

    /** The frames handed out so far, then those to come, are all whole frames in order. */
    ghost predicate Valid()
      reads this
    {
      && (nextRegion < |regions| && regions[nextRegion].usable ==> nextFrameInRegion <= |regions[nextRegion].Frames()|)
      && issued + ToCome() == AllFrames(regions)
    }

    ghost function ToCome(): seq<nat>
      reads this
    {
      Remaining(regions, nextRegion, nextFrameInRegion)
    }

    constructor (regions: seq<Region>)
      ensures Valid() && this.regions == regions && issued == []
    {
      this.regions := regions;
      nextRegion, nextFrameInRegion := 0, 0;
      issued := [];
    }

    /** The next frame's physical address; failure means everything has been issued, and is final. */
    method AllocateFrame() returns (r: Option<nat>)
      requires Valid()
      modifies this
      ensures Valid()
      ensures r.Some? <==> old(issued) != AllFrames(regions)
      ensures r.None? ==> issued == old(issued)
      ensures r.Some? ==>
                && |old(issued)| < |AllFrames(regions)|
                && r.value == AllFrames(regions)[|old(issued)|] * PAGE
                && issued == old(issued) + [AllFrames(regions)[|old(issued)|]]
    {
      ghost var todo := ToCome();
      hide Remaining;
      while true
        invariant Valid() && ToCome() == todo && issued == old(issued)
        decreases |regions| - nextRegion
      {
        if nextRegion >= |regions| {
          AtEnd(regions, nextRegion, nextFrameInRegion);
          return None;
        }
        var region := regions[nextRegion];
        if !region.usable {
          SkipRegion(regions, nextRegion, nextFrameInRegion);
          nextRegion := nextRegion + 1;
          nextFrameInRegion := 0;
          continue;
        }
        var startFrame := (region.start + 0xFFF) / PAGE;
        var endFrame := region.end / PAGE;
        var frame := startFrame + nextFrameInRegion;
        if frame < endFrame {
          TakeFrame(regions, nextRegion, nextFrameInRegion);
          nextFrameInRegion := nextFrameInRegion + 1;
          Issue(issued, frame, ToCome(), AllFrames(regions));
          issued := issued + [frame];
          return Some(frame * PAGE);
        } else {
          SkipRegion(regions, nextRegion, nextFrameInRegion);
          nextRegion := nextRegion + 1;
          nextFrameInRegion := 0;
        }
      }
    }
  }

  lemma Issue(issued: seq<nat>, frame: nat, rest: seq<nat>, all: seq<nat>)
    requires issued + ([frame] + rest) == all
    ensures issued + [frame] + rest == all && |issued| < |all| && all[|issued|] == frame && issued != all
  {
  }

  // ----- what the enumeration is -----

  /** Frame `f` lies wholly inside region `r`. */
  predicate Inside(f: nat, r: Region) {
    r.usable && r.start <= f * PAGE && (f + 1) * PAGE <= r.end
  }

  lemma FrameInside(r: Region, f: nat)
    ensures f in r.Frames() <==> Inside(f, r)
  {
    if Inside(f, r) {
      assert r.Frames()[f - r.First()] == f;
    }
  }

  /** Exactly the whole frames of usable regions are issued. */
  lemma {:induction false} IssuesWholeFrames(regions: seq<Region>, region: nat, f: nat)
    requires region <= |regions|
    ensures f in Remaining(regions, region, 0) <==> exists k :: region <= k < |regions| && Inside(f, regions[k])
    decreases |regions| - region
  {
    if region < |regions| {
      FrameInside(regions[region], f);
      IssuesWholeFrames(regions, region + 1, f);
    }
  }

  ghost predicate DisjointRegions(regions: seq<Region>) {
    forall i, j :: 0 <= i < j < |regions| ==> regions[i].end <= regions[j].start || regions[j].end <= regions[i].start
  }

  ghost predicate Distinct(fs: seq<nat>) {
    forall i, j :: 0 <= i < j < |fs| ==> fs[i] != fs[j]
  }

  /** No frame is issued twice. */
  lemma {:induction false} NeverIssuedTwice(regions: seq<Region>, region: nat)
    requires region <= |regions| && DisjointRegions(regions)
    ensures Distinct(Remaining(regions, region, 0))
    decreases |regions| - region
  {
    if region < |regions| {
      hide Remaining;
      NeverIssuedTwice(regions, region + 1);
      var fs, rest := regions[region].Frames(), Remaining(regions, region + 1, 0);
      forall i, j | 0 <= i < |fs| && 0 <= j < |rest| ensures fs[i] != rest[j] {
        OtherRegion(regions, region, fs[i], rest[j]);
      }
      AllOf(regions, region);
      Joined(fs, rest);
    }
  }

  lemma AllOf(regions: seq<Region>, region: nat)
    requires region < |regions|
    ensures Remaining(regions, region, 0) == regions[region].Frames() + Remaining(regions, region + 1, 0)
  {
    var fs := regions[region].Frames();
    assert fs[0..] == fs;
  }

  lemma Joined(fs: seq<nat>, rest: seq<nat>)
    requires Distinct(fs) && Distinct(rest) && forall i, j :: 0 <= i < |fs| && 0 <= j < |rest| ==> fs[i] != rest[j]
    ensures Distinct(fs + rest)
  {
  }

  lemma OtherRegion(regions: seq<Region>, region: nat, f: nat, g: nat)
    requires region < |regions| && DisjointRegions(regions)
    requires f in regions[region].Frames() && g in Remaining(regions, region + 1, 0)
    ensures f != g
  {
    hide Remaining;
    FrameInside(regions[region], f);
    IssuesWholeFrames(regions, region + 1, g);
    var k :| region + 1 <= k < |regions| && Inside(g, regions[k]);
    assert regions[region].end <= regions[k].start || regions[k].end <= regions[region].start;
  }
}
