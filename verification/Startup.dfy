/** The hand-over at the end of `initialize_paging`: the pages it maps carry the first kernel heap. */
module Startup {
  import opened Machine
  import opened Paging
  import Frames
  import HeapCells
  import HeapFrames
  import HeapPages
  import HeapRuns

  const HEAP_MAX := 0xCFFF_F000

  /** The addresses of the pages that hold a frame. */
  ghost function Framed(v: map<nat, Frames.Entry>): set<nat> {
    set q | q in v && v[q].frame != 0 :: q * PAGE
  }

  /** The heap that `create_heap` builds over the pages just mapped. */
  ghost function FirstHeap(m: Memory, v: map<nat, Frames.Entry>): (h: HeapCells.Heap)
    requires |m| == WORD_LIMIT
  {
    HeapRuns.Create(m, KHEAP_START, KHEAP_START + KHEAP_INITIAL_SIZE, HEAP_MAX, Framed(v))
  }

  lemma HeapPageHasFrameIff(v: map<nat, Frames.Entry>, g: set<nat>, k: nat, j: nat)
    requires HeapMapped(v, g, k, HEAP_PAGES) && 0 < k <= HEAP_PAGE && j < HEAP_PAGES
    ensures (HEAP_PAGE + j) * PAGE in Framed(v) <==> k + j < |FreeOnes(g, MEM_END / PAGE)|
  {
    hide Handed, FreeOnes, Frames.Below;
    var q: nat := HEAP_PAGE + j;
    HandedIff(g, k + j, MEM_END / PAGE);
    assert v[q] == Mapped(g, k + j);
    assert q * PAGE in Framed(v) ==> exists r :: r in v && v[r].frame != 0 && r * PAGE == q * PAGE;
  }

  lemma FramesSufficeIff(m: Memory, p: nat, v: map<nat, Frames.Entry>, g: set<nat>)
    requires |m| == WORD_LIMIT && HeapMapped(v, g, PagesFor(p), HEAP_PAGES) && PagesFor(p) <= HEAP_PAGE
    ensures HeapCells.Wf(FirstHeap(m, v)) <==>
      && HeapCells.FencedBelow(m, HeapRuns.DataStart(KHEAP_START))
      && PagesFor(p) + HEAP_PAGES <= |FreeOnes(g, MEM_END / PAGE)|
  {
    hide Settle, FreeOnes, Handed, HeapMapped, Framed, Frames.Below;
    var k := PagesFor(p);
    SettlesExactly(TakenBefore(p));
    HeapPageHasFrameIff(v, g, k, HEAP_PAGES - 1);
    if k + HEAP_PAGES <= |FreeOnes(g, MEM_END / PAGE)| {
      if HeapCells.FencedBelow(m, HeapRuns.DataStart(KHEAP_START)) {
        forall x | KHEAP_START <= x < KHEAP_START + KHEAP_INITIAL_SIZE && x % PAGE == 0 ensures x in Framed(v) {
          HeapPageHasFrameIff(v, g, k, x / PAGE - HEAP_PAGE);
          assert x / PAGE * PAGE == x;
        }
        HeapRuns.CreateIsWf(m, KHEAP_START, KHEAP_START + KHEAP_INITIAL_SIZE, HEAP_MAX, Framed(v));
      }
    } else {
      LastPageNeeded(m, v);
    }
    FenceNeeded(m, v);
  }

  /** The directory is undamaged and the first heap is well formed, so that every run on it is sound, exactly
      when the frames that stale words leave free, and whose bits lie before the directory, are enough for all
      the pages, and nothing just below the data area reads as a tag. With no stale word that is to say the
      placement address starts low enough, and no frame is needed whose bit lies in the directory. */
  lemma FirstHeapIsWfIff(m: Memory, p: nat, tail: seq<bv32>, v: map<nat, Frames.Entry>, damaged: bool)
    requires |m| == WORD_LIMIT && |tail| == 3 * ZEROED && PagesFor(p) <= HEAP_PAGE
    requires damaged <==> !Undamaged(Stale(p, tail), PagesFor(p) + HEAP_PAGES, DirectoryBit(p))
    requires !damaged ==> HeapMapped(v, Stale(p, tail), PagesFor(p), HEAP_PAGES)
    ensures !damaged && HeapCells.Wf(FirstHeap(m, v)) <==>
      && HeapCells.FencedBelow(m, HeapRuns.DataStart(KHEAP_START))
      && PagesFor(p) + HEAP_PAGES <= |FreeOnes(Frames.Leftover(ZEROED, tail), Limit(p))|
    ensures Frames.Leftover(ZEROED, tail) == {} ==>
      (PagesFor(p) + HEAP_PAGES <= |FreeOnes(Frames.Leftover(ZEROED, tail), Limit(p))| <==>
        p + 128 < 0xEF_3000 && PagesFor(p) + HEAP_PAGES <= DirectoryBit(p))
  {
    hide Settle, Handed, HeapMapped, Framed, Frames.Below, Frames.Leftover, DirectoryBit, FirstHeap, HeapCells.Wf,
      Undamaged;
    var k, g, z, n := PagesFor(p), Stale(p, tail), DirectoryBit(p), MEM_END / PAGE;
    FitsIff(p);
    AllFree(Limit(p));
    assert FreeOnes(Frames.Leftover(ZEROED, tail), Limit(p)) == FreeOnes(g, Limit(p));
    if !damaged {
      FramesSufficeIff(m, p, v, g);
    }
    MoreFree(g, Limit(p), n);
    if z < n {
      UndamagedIff(g, k + HEAP_PAGES, z);
    } else {
      NoOverlapNoDamage(g, k + HEAP_PAGES, z);
    }
  }

  lemma MoreFree(g: set<nat>, m: nat, n: nat)
    requires m <= n
    ensures |FreeOnes(g, m)| <= |FreeOnes(g, n)|
  {
    hide Frames.Below;
    SubsetCounts(FreeOnes(g, m), FreeOnes(g, n));
  }

  lemma SubsetCounts(a: set<nat>, b: set<nat>)
    requires a <= b
    ensures |a| <= |b|
  {
    assert b == a + (b - a);
  }

  lemma NoOverlapNoDamage(g: set<nat>, m: nat, z: nat)
    requires MEM_END / PAGE <= z
    ensures Undamaged(g, m, z)
  {
  }

  lemma LastPageNeeded(m: Memory, v: map<nat, Frames.Entry>)
    requires |m| == WORD_LIMIT && (HEAP_PAGE + HEAP_PAGES - 1) * PAGE !in Framed(v)
    ensures !HeapCells.Wf(FirstHeap(m, v))
  {
    var h, x: nat := FirstHeap(m, v), (HEAP_PAGE + HEAP_PAGES - 1) * PAGE;
    assert h.start <= x < h.end && x % PAGE == 0;
  }

  lemma FenceNeeded(m: Memory, v: map<nat, Frames.Entry>)
    requires |m| == WORD_LIMIT
    ensures HeapCells.Wf(FirstHeap(m, v)) ==> HeapCells.FencedBelow(m, HeapRuns.DataStart(KHEAP_START))
  {
    hide HeapCells.PutHeader;
    var s := HeapRuns.DataStart(KHEAP_START);
    var r := HeapCells.PutHeader(m, s, HeapCells.Cell(KHEAP_START + KHEAP_INITIAL_SIZE - s, true));
    assert FirstHeap(m, v).mem == r;
    assert SameOutside(m, r, s, s + HeapCells.HEADER);
  }

  /** No page beyond the first heap holds a frame. */
  lemma FirstHeapHasNoStrayPages(m: Memory, v: map<nat, Frames.Entry>, g: set<nat>, k: nat)
    requires |m| == WORD_LIMIT && HeapMapped(v, g, k, HEAP_PAGES) && k <= HEAP_PAGE
    ensures HeapPages.NoStrayPages(FirstHeap(m, v))
  {
    hide HeapCells.PutHeader, Handed;
    var h := FirstHeap(m, v);
    forall x | x in h.pages ensures x % PAGE == 0 && !(h.end <= x < h.max) {
      var q: nat :| q in v && v[q].frame != 0 && q * PAGE == x;
      assert q < HEAP_PAGE + HEAP_PAGES;
    }
  }

  /** So none does after any run on it. */
  lemma NoStrayPagesFromStartup(m: Memory, v: map<nat, Frames.Entry>, g: set<nat>, k: nat, ops: seq<HeapRuns.Op>)
    requires |m| == WORD_LIMIT && HeapMapped(v, g, k, HEAP_PAGES) && k <= HEAP_PAGE
    requires HeapCells.Wf(FirstHeap(m, v))
    ensures var c := HeapRuns.Client(FirstHeap(m, v), map[]);
      HeapRuns.Sound(c) && (HeapRuns.RunInDomain(c, ops) ==> HeapPages.NoStrayPages(HeapRuns.Run(c, ops).h))
  {
    hide HeapPages.NoStrayPages, HeapCells.Wf, HeapRuns.Run, HeapRuns.RunInDomain, HeapMapped, Framed,
      HeapCells.PutHeader;
    FirstHeapHasNoStrayPages(m, v, g, k);
    var c := HeapRuns.Client(FirstHeap(m, v), map[]);
    if HeapRuns.RunInDomain(c, ops) {
      HeapPages.NoStrayPagesAfterRuns(c, ops);
    }
  }

  /** The frames that the pages hold, by address, with the frames in use. */
  ghost function FirstPool(v: map<nat, Frames.Entry>, used: set<nat>): Frames.Pool {
    Frames.Pool(used, map x | x in Framed(v) :: FrameAt(v, x), map[], MEM_END / PAGE)
  }

  ghost function FrameAt(v: map<nat, Frames.Entry>, x: nat): nat {
    if x / PAGE in v then v[x / PAGE].frame else 0
  }

  lemma HeldIs(v: map<nat, Frames.Entry>, used: set<nat>, x: nat)
    requires x % PAGE == 0
    ensures Frames.Held(FirstPool(v, used), x) == FrameAt(v, x)
    ensures x in Framed(v) <==> FrameAt(v, x) != 0
  {
    if x in Framed(v) {
      var q: nat :| q in v && v[q].frame != 0 && q * PAGE == x;
      assert x / PAGE == q;
    }
    if FrameAt(v, x) != 0 {
      assert x / PAGE * PAGE == x;
    }
  }

  /** The frame of each page, by page number, if all mappings are what they are meant to be. */
  lemma FrameOfPage(v: map<nat, Frames.Entry>, g: set<nat>, k: nat, q: nat)
    requires HeapMapped(v, g, k, HEAP_PAGES) && MappedAsMeant(v, k) && k <= HEAP_PAGE
    ensures FrameAt(v, q * PAGE) ==
      if q < k then q else if HEAP_PAGE <= q < HEAP_PAGE + HEAP_PAGES then k + (q - HEAP_PAGE) else 0
  {
    hide Mapped;
    assert q * PAGE / PAGE == q;
  }

  /** If the start-up went as meant, the first heap is backed: the runs of HeapFrames start here. */
  lemma FirstHeapIsBacked(m: Memory, p: nat, v: map<nat, Frames.Entry>, used: set<nat>, g: set<nat>, z: nat)
    requires |m| == WORD_LIMIT && PagesFor(p) <= HEAP_PAGE && HeapMapped(v, g, PagesFor(p), HEAP_PAGES)
    requires MappedAsMeant(v, PagesFor(p)) && Tracks(used, g, PagesFor(p) + HEAP_PAGES, z) && p + 128 < 0xEF_3000
    requires PagesFor(p) + HEAP_PAGES <= z && forall f | f in g :: PagesFor(p) + HEAP_PAGES <= f
    ensures HeapFrames.HeapBacked(FirstHeap(m, v), FirstPool(v, used))
  {
    hide Settle, HeapMapped, MappedAsMeant, Handed, Framed, HeapCells.PutHeader, FrameAt, PagesFor, Tracks, ViewOf;
    var k, pool := PagesFor(p), FirstPool(v, used);
    FitsIff(p);
    PagesForIsPositive(p);
    FramesMarked(used, g, k + HEAP_PAGES, z);
    forall x | x in pool.held ensures x % PAGE == 0 && pool.held[x] == FrameAt(v, x) {
      FramedAreAligned(v, x);
    }
    forall x: nat | x % PAGE == 0
      ensures Frames.Held(pool, x) == FrameAt(v, x)
      ensures FrameAt(v, x) == (if x / PAGE < k then x / PAGE
        else if HEAP_PAGE <= x / PAGE < HEAP_PAGE + HEAP_PAGES then k + (x / PAGE - HEAP_PAGE) else 0)
    {
      HeldIs(v, used, x);
      FrameOfPage(v, g, k, x / PAGE);
      assert x / PAGE * PAGE == x;
    }
    assert Frames.Exclusive(pool);
  }

  lemma PagesForIsPositive(p: nat)
    ensures PagesFor(p) > 0
  {
    SettlesExactly(TakenBefore(p));
  }

  lemma FramedAreAligned(v: map<nat, Frames.Entry>, x: nat)
    requires x in Framed(v)
    ensures x % PAGE == 0
  {
  }

  lemma FramesMarked(used: set<nat>, g: set<nat>, n: nat, z: nat)
    requires Tracks(used, g, n, z) && n <= z && n <= MEM_END / PAGE && forall f | f in g :: n <= f
    ensures forall f: nat | f < n :: f in used
  {
    InOrder(g, n, MEM_END / PAGE, n);
  }
}
