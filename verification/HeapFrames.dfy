/** The heap over the frame bitmap: which frames its pages hold, over whole runs. Pages go by their address. */
module HeapFrames {
  import opened Machine
  import opened HeapCells
  import opened HeapAlloc
  import opened HeapExpand
  import opened HeapFree
  import opened HeapRuns
  import Frames

  type Pool = Frames.Pool

  // ---------- what the loops of expand and contract do to the frames ----------

  /** `expand` asks for a frame for each page from `lo` up to `hi`. */
  function MapRange(m: Pool, lo: nat, hi: nat, fl: Frames.Flags): Pool
    decreases hi - lo
  {
    if lo >= hi then m else MapRange(Frames.Step(m, Frames.Alloc(lo, fl)), lo + PAGE, hi, fl)
  }

  /** `contract` gives up the frames of the pages strictly between `lo` and `hi`, the last one first. */
  function UnmapRange(m: Pool, lo: nat, hi: nat): Pool
    decreases hi
  {
    if hi <= lo + PAGE then m else UnmapRange(Frames.Step(m, Frames.Free(hi - PAGE)), lo, hi - PAGE)
  }

  ghost predicate Spare(m: Pool) {
    exists f :: 0 <= f < m.n && f !in m.used
  }

  /** Whenever a page without a frame is mapped, some frame is not in use. */
  ghost predicate Suffices(m: Pool, lo: nat, hi: nat, fl: Frames.Flags)
    decreases hi - lo
  {
    lo >= hi || ((Frames.Held(m, lo) != 0 || Spare(m))
      && Suffices(Frames.Step(m, Frames.Alloc(lo, fl)), lo + PAGE, hi, fl))
  }

  /** The page that a contraction leaves without a frame and an expansion maps next. */
  function OddPage(start: nat): nat {
    start + MIN_SIZE + PAGE
  }

  /** Every page of a heap [start, end) holds a frame of its own, but for the odd page, which may hold frame
      0; no page behind it up to `max` holds one, but for the one right at the end of a heap of the least
      length; and if frame 0 is not in use, then the odd page is the next that will be mapped. */
  ghost predicate Backed(start: nat, end: nat, max: nat, m: Pool) {
    && Frames.Exclusive(m) && 0 < m.n <= PAGE
    && (forall x: nat | start <= x < end && x % PAGE == 0 :: Frames.Held(m, x) != 0 || x == OddPage(start))
    && (forall x: nat | end <= x < max && x % PAGE == 0 :: Frames.Held(m, x) == 0 || x == end == start + MIN_SIZE)
    && (0 !in m.used ==> end <= OddPage(start) && Frames.Held(m, start + MIN_SIZE) != 0)
  }

  /** So the frames of the heap's pages are pairwise distinct, and only the odd page can hold frame 0. */
  lemma PagesHaveTheirOwnFrames(start: nat, end: nat, max: nat, m: Pool, x: nat, y: nat)
    requires Backed(start, end, max, m) && x % PAGE == 0 && y % PAGE == 0 && x != y
    requires start <= x < end && start <= y < end
    ensures Frames.Held(m, x) != Frames.Held(m, y)
    ensures Frames.Held(m, x) == 0 ==> x == OddPage(start)
  {
  }

  lemma StepIsExclusive(m: Pool, op: Frames.Op)
    requires Frames.Exclusive(m) && m.n <= PAGE
    ensures Frames.Exclusive(Frames.Step(m, op)) && Frames.Step(m, op).n == m.n
  {
    Frames.RunStaysExclusive(m, [op]);
    assert [op][1..] == [];
    assert Frames.Run(m, [op]) == Frames.Run(Frames.Step(m, op), []);
  }

  /** Frame 0 comes first if it is not in use; and while frames are spare a real one comes otherwise. */
  lemma NextFrame(m: Pool)
    requires 0 < m.n
    ensures 0 !in m.used ==> Frames.FirstFree(m.used, 0, m.n) == 0
    ensures 0 in m.used && Spare(m) ==> Frames.FirstFree(m.used, 0, m.n) != 0
  {
    Frames.FirstFreeIsLeast(m.used, m.n);
  }

  lemma MappingOnePage(start: nat, end: nat, max: nat, m: Pool, fl: Frames.Flags)
    requires Backed(start, end, max, m) && start % PAGE == 0 && end % PAGE == 0 && start + MIN_SIZE <= end < max
    requires Frames.Held(m, end) != 0 || Spare(m)
    ensures Backed(start, end + PAGE, max, Frames.Step(m, Frames.Alloc(end, fl)))
  {
    hide Frames.FirstFree, Frames.Exclusive, Spare;
    StepIsExclusive(m, Frames.Alloc(end, fl));
    NextFrame(m);
    var d := Frames.Step(m, Frames.Alloc(end, fl));
    if Frames.Held(m, end) == 0 && 0 !in m.used {
      EndIsMinOrOdd(start, end);
    }
    assert Frames.Held(d, end) != 0 || end == OddPage(start);
    forall x: nat | start <= x < end + PAGE && x % PAGE == 0 ensures Frames.Held(d, x) != 0 || x == OddPage(start) {
      PagesApart(end, x);
      assert x != end ==> Frames.Held(d, x) == Frames.Held(m, x);
    }
    forall x: nat | end + PAGE <= x < max && x % PAGE == 0 ensures Frames.Held(d, x) == 0 {
      assert Frames.Held(d, x) == Frames.Held(m, x);
    }
  }

  lemma PagesApart(x: nat, y: nat)
    requires x % PAGE == 0 && y % PAGE == 0
    ensures x < y ==> x + PAGE <= y
  {
  }

  lemma EndIsMinOrOdd(start: nat, end: nat)
    requires start % PAGE == 0 && end % PAGE == 0 && start + MIN_SIZE <= end <= OddPage(start)
    ensures end == start + MIN_SIZE || end == OddPage(start)
  {
  }

  lemma {:induction false} MappingKeepsBacked(start: nat, lo: nat, hi: nat, max: nat, m: Pool, fl: Frames.Flags)
    requires Backed(start, lo, max, m) && start % PAGE == 0 && lo % PAGE == 0 && hi % PAGE == 0
    requires start + MIN_SIZE <= lo <= hi <= max && Suffices(m, lo, hi, fl)
    ensures Backed(start, hi, max, MapRange(m, lo, hi, fl))
    decreases hi - lo
  {
    hide Backed, Spare;
    if lo < hi {
      PagesApart(lo, hi);
      MappingOnePage(start, lo, max, m, fl);
      MappingKeepsBacked(start, lo + PAGE, hi, max, Frames.Step(m, Frames.Alloc(lo, fl)), fl);
    }
  }

  // ---------- contraction ----------

  /** Half way down: the pages from `hi` on have no frame, those below are as they were. */
  ghost predicate PartlyBacked(start: nat, hi: nat, max: nat, m: Pool) {
    && Frames.Exclusive(m) && 0 < m.n <= PAGE
    && (forall x: nat | start <= x < hi && x % PAGE == 0 :: Frames.Held(m, x) != 0 || x == OddPage(start))
    && (forall x: nat | hi <= x < max && x % PAGE == 0 :: Frames.Held(m, x) == 0)
  }

  lemma UnmappingOnePage(start: nat, hi: nat, max: nat, m: Pool)
    requires PartlyBacked(start, hi, max, m) && hi % PAGE == 0 && PAGE <= hi
    ensures PartlyBacked(start, hi - PAGE, max, Frames.Step(m, Frames.Free(hi - PAGE)))
  {
    hide Frames.FirstFree, Frames.Exclusive;
    StepIsExclusive(m, Frames.Free(hi - PAGE));
    var d := Frames.Step(m, Frames.Free(hi - PAGE));
    forall x: nat | hi - PAGE <= x < max && x % PAGE == 0 ensures Frames.Held(d, x) == 0 {
      PagesApart(x, hi);
      assert x != hi - PAGE ==> Frames.Held(d, x) == Frames.Held(m, x);
    }
    forall x: nat | start <= x < hi - PAGE && x % PAGE == 0 ensures Frames.Held(d, x) != 0 || x == OddPage(start) {
      assert Frames.Held(d, x) == Frames.Held(m, x);
    }
  }

  lemma {:induction false} UnmappingKeepsBacked(start: nat, lo: nat, hi: nat, max: nat, m: Pool)
    requires PartlyBacked(start, hi, max, m) && lo % PAGE == 0 && hi % PAGE == 0 && lo + PAGE <= hi
    ensures PartlyBacked(start, lo + PAGE, max, UnmapRange(m, lo, hi))
    decreases hi
  {
    hide PartlyBacked;
    PagesApart(lo + PAGE, hi);
    if lo + PAGE < hi {
      UnmappingOnePage(start, hi, max, m);
      UnmappingKeepsBacked(start, lo, hi - PAGE, max, Frames.Step(m, Frames.Free(hi - PAGE)));
    }
  }

  /** A contraction to the least length leaves the heap's pages backed. */
  lemma ContractionKeepsBacked(start: nat, end: nat, max: nat, m: Pool)
    requires Backed(start, end, max, m) && start % PAGE == 0 && end % PAGE == 0 && start + MIN_SIZE <= end
    ensures Backed(start, start + MIN_SIZE, max, UnmapRange(m, start + MIN_SIZE, end))
  {
    hide Frames.Exclusive;
    var lo := start + MIN_SIZE;
    LeastEnd(start);
    if lo < end {
      PagesApart(lo, end);
      UnmappingKeepsBacked(start, lo, end, max, m);
      var d := UnmapRange(m, lo, end);
      assert Frames.Held(d, lo) != 0;
      forall x: nat | lo <= x < max && x % PAGE == 0 ensures Frames.Held(d, x) == 0 || x == lo {
        PagesApart(lo, x);
      }
    }
  }

  lemma {:induction false} UnmappingOnlyClears(m: Pool, lo: nat, hi: nat)
    ensures 0 !in m.used ==> 0 !in UnmapRange(m, lo, hi).used
    decreases hi
  {
    if lo + PAGE < hi {
      UnmappingOnlyClears(Frames.Step(m, Frames.Free(hi - PAGE)), lo, hi - PAGE);
    }
  }

  lemma HeldIsAFrame(m: Pool, x: nat)
    requires Frames.Exclusive(m) && 0 < m.n
    ensures Frames.Held(m, x) < m.n
  {
  }

  /** And it does hold frame 0 once a heap longer than that has been contracted and grows again. */
  lemma OddPageGetsFrameZero(start: nat, end: nat, max: nat, m: Pool, fl: Frames.Flags)
    requires Backed(start, end, max, m) && start % PAGE == 0 && end % PAGE == 0 && OddPage(start) + PAGE < end <= max
    ensures var lo := start + MIN_SIZE; var d := UnmapRange(m, lo, end);
      Frames.Held(MapRange(d, lo, lo + 2 * PAGE, fl), OddPage(start)) == 0
  {
    hide Frames.FirstFree, Frames.Exclusive;
    var lo := start + MIN_SIZE;
    var d := UnmapRange(m, lo, end);
    var last := Frames.Step(m, Frames.Free(end - PAGE));
    HeldIsAFrame(m, end - PAGE);
    assert Frames.Held(m, end - PAGE) != 0 && 0 !in last.used;
    assert d == UnmapRange(last, lo, end - PAGE);
    UnmappingOnlyClears(last, lo, end - PAGE);
    ContractionKeepsBacked(start, end, max, m);
    LeastEnd(start);
    assert Frames.Held(d, lo) != 0 && Frames.Held(d, lo + PAGE) == 0 && 0 !in d.used;
    var d1 := Frames.Step(d, Frames.Alloc(lo, fl));
    assert d1.used == d.used && Frames.Held(d1, lo + PAGE) == 0;
    var d2 := Frames.Step(d1, Frames.Alloc(lo + PAGE, fl));
    NextFrame(d1);
    assert MapRange(d, lo, lo + 2 * PAGE, fl) == MapRange(d1, lo + PAGE, lo + 2 * PAGE, fl)
      == MapRange(d2, lo + 2 * PAGE, lo + 2 * PAGE, fl);
  }

  // ---------- requests, frees and runs ----------

  /** The frames after a request: each expansion maps the pages it adds. */
  ghost function FramesAfterRequest(h: Heap, size: nat, align: bool, m: Pool, fl: Frames.Flags): Pool
    requires Wf(h) && size + OVERHEAD < 0x8000_0000 && AllocDomain(h, size, align)
    decreases h.max - h.end
  {
    var need := size + OVERHEAD;
    if Find(h, 0, need, align) < |h.index| then m else
    WfIsExpandable(h, need);
    ExpandKeepsWf(h, need);
    ExpansionAmount(h, need);
    FramesAfterRequest(Expand(h, need), size, align, MapRange(m, h.end, NewEnd(h, need), fl), fl)
  }

  ghost predicate RequestSuffices(h: Heap, size: nat, align: bool, m: Pool, fl: Frames.Flags)
    requires Wf(h) && size + OVERHEAD < 0x8000_0000 && AllocDomain(h, size, align)
    decreases h.max - h.end
  {
    var need := size + OVERHEAD;
    if Find(h, 0, need, align) < |h.index| then true else
    WfIsExpandable(h, need);
    ExpandKeepsWf(h, need);
    ExpansionAmount(h, need);
    Suffices(m, h.end, NewEnd(h, need), fl)
    && RequestSuffices(Expand(h, need), size, align, MapRange(m, h.end, NewEnd(h, need), fl), fl)
  }

  ghost predicate HeapBacked(h: Heap, m: Pool) {
    Backed(h.start, h.end, h.max, m)
  }

  lemma {:induction false} RequestKeepsBacked(h: Heap, size: nat, align: bool, m: Pool, fl: Frames.Flags)
    requires Wf(h) && size + OVERHEAD < 0x8000_0000 && AllocDomain(h, size, align)
    requires HeapBacked(h, m) && RequestSuffices(h, size, align, m, fl)
    ensures HeapBacked(Malloc(h, size, align).0, FramesAfterRequest(h, size, align, m, fl))
    decreases h.max - h.end
  {
    hide Take, Carve, Expand, Backed, Suffices, Spelled, Tagged, Appends, EndsInHole, MapRange;
    var need := size + OVERHEAD;
    var i := Find(h, 0, need, align);
    if i < |h.index| {
      HoleIsUsable(h, i);
      CutKeepsBounds(h, i, need, align);
    } else {
      WfIsExpandable(h, need);
      ExpandKeepsWf(h, need);
      ExpansionAmount(h, need);
      ExpandMovesEnd(h, need);
      MappingKeepsBacked(h.start, h.end, NewEnd(h, need), h.max, m, fl);
      RequestKeepsBacked(Expand(h, need), size, align, MapRange(m, h.end, NewEnd(h, need), fl), fl);
    }
  }

  lemma CutKeepsBounds(h: Heap, i: nat, need: nat, align: bool)
    requires Usable(h, i) && OVERHEAD <= need && FitsAt(h, i, need, align)
    ensures var g := if align then Carve(h, i, need) else Take(h, i, need);
      g.start == h.start && g.end == h.end && g.max == h.max
  {
  }

  lemma FreeKeepsBacked(h: Heap, p: nat, m: Pool)
    requires Wf(h) && Freeable(h, p) && MergeDomain(h, p) && HeapBacked(h, m)
    ensures HeapBacked(Release(h, p), UnmapRange(m, Release(h, p).end, h.end))
  {
    hide Wf, Release, MergeStart, MergeEnd, Backed, MergeMem, OneHoleInstead, PagesWithout;
    WfIsConfigured(h);
    if MergeEnd(h, p - HEADER) == h.end {
      OuterShape(h, p);
      ContractionKeepsBacked(h.start, h.end, h.max, m);
    } else {
      InnerBounds(h, p);
    }
  }

  /** Clients of the heap, and everybody else who asks for a frame for a page outside the heap's range. */
  datatype Act = OnHeap(op: Op) | MapElsewhere(x: nat, flags: Frames.Flags)

  /** The heap with its clients, over the frames, and the flags that `expand` passes for its pages. */
  datatype System = System(c: Client, m: Pool, flags: Frames.Flags)

  ghost predicate ActInDomain(s: System, act: Act)
    requires Sound(s.c)
  {
    match act
    case OnHeap(op) =>
      InDomain(s.c, op) && (op.Alloc? ==> RequestSuffices(s.c.h, op.size, op.align, s.m, s.flags))
    case MapElsewhere(x, _) => x < s.c.h.start || s.c.h.max <= x
  }

  ghost function Perform(s: System, act: Act): (t: System)
    requires Sound(s.c) && ActInDomain(s, act)
  {
    match act
    case OnHeap(Alloc(size, align)) => s.(c := Step(s.c, act.op),
      m := FramesAfterRequest(s.c.h, size, align, s.m, s.flags))
    case OnHeap(Free(p, behind)) => s.(c := Step(s.c, act.op), m := UnmapRange(s.m, Step(s.c, act.op).h.end, s.c.h.end))
    case OnHeap(Store(a, v)) => s.(c := Step(s.c, act.op))
    case MapElsewhere(x, fl) => s.(m := Frames.Step(s.m, Frames.Alloc(x, fl)))
  }

  lemma MappingElsewhere(h: Heap, m: Pool, x: nat, fl: Frames.Flags)
    requires HeapBacked(h, m) && (x < h.start || h.max <= x) && h.end <= h.max && Configured(h)
    ensures HeapBacked(h, Frames.Step(m, Frames.Alloc(x, fl)))
  {
    hide Frames.FirstFree, Frames.Exclusive;
    StepIsExclusive(m, Frames.Alloc(x, fl));
    var d := Frames.Step(m, Frames.Alloc(x, fl));
    forall y: nat | h.start <= y < h.max ensures Frames.Held(d, y) == Frames.Held(m, y) {
    }
    assert 0 !in d.used ==> 0 !in m.used;
  }

  lemma UnmapNothing(m: Pool, e: nat)
    ensures UnmapRange(m, e, e) == m
  {
  }

  lemma ActKeepsBacked(s: System, act: Act)
    requires Sound(s.c) && ActInDomain(s, act) && HeapBacked(s.c.h, s.m)
    ensures Sound(Perform(s, act).c) && HeapBacked(Perform(s, act).c.h, Perform(s, act).m)
  {
    hide Wf, Backed, Malloc, Release, FramesAfterRequest, RequestSuffices, UnmapRange, AllocDomain, MergeDomain,
      Freeable;
    SoundIsWf(s.c);
    WfIsConfigured(s.c.h);
    match act
    case OnHeap(op) =>
      StepRefines(s.c, op);
      match op {
        case Alloc(size, align) => RequestKeepsBacked(s.c.h, size, align, s.m, s.flags);
        case Free(p, _) =>
          UnmapNothing(s.m, s.c.h.end);
          if p != 0 {
            FreeKeepsBacked(s.c.h, p, s.m);
          }
        case Store(a, v) =>
      }
    case MapElsewhere(x, fl) => MappingElsewhere(s.c.h, s.m, x, fl);
  }

  ghost predicate ActsInDomain(s: System, acts: seq<Act>)
    requires Sound(s.c) && HeapBacked(s.c.h, s.m)
    decreases |acts|
  {
    acts == [] ||
    (ActInDomain(s, acts[0]) && (ActKeepsBacked(s, acts[0]); ActsInDomain(Perform(s, acts[0]), acts[1..])))
  }

  ghost function After(s: System, acts: seq<Act>): (t: System)
    requires Sound(s.c) && HeapBacked(s.c.h, s.m) && ActsInDomain(s, acts)
    ensures Sound(t.c) && HeapBacked(t.c.h, t.m)
    decreases |acts|
  {
    if acts == [] then s else
    ActKeepsBacked(s, acts[0]);
    After(Perform(s, acts[0]), acts[1..])
  }

  /** After any run in which frames never run out, the heap's pages have pairwise distinct frames, and only
      the odd page can hold frame 0. */
  lemma FramesStayDistinct(s: System, acts: seq<Act>, x: nat, y: nat)
    requires Sound(s.c) && HeapBacked(s.c.h, s.m) && ActsInDomain(s, acts) && x != y
    requires x % PAGE == 0 && After(s, acts).c.h.start <= x < After(s, acts).c.h.end
    requires y % PAGE == 0 && After(s, acts).c.h.start <= y < After(s, acts).c.h.end
    ensures var t := After(s, acts);
      && Frames.Held(t.m, x) != Frames.Held(t.m, y)
      && (Frames.Held(t.m, x) == 0 ==> x == OddPage(t.c.h.start))
  {
    hide After, ActsInDomain, Backed, Sound;
    var t := After(s, acts);
    PagesHaveTheirOwnFrames(t.c.h.start, t.c.h.end, t.c.h.max, t.m, x, y);
  }
}
