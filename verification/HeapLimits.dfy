/** Short request sequences that lead out of the sound domain: each restriction in AllocDomain and
    FreeDomain is met by real clients of a fresh heap. */
module HeapLimits {
  import opened Machine
  import opened OrderedArrays
  import opened HeapCells
  import opened HeapAlloc
  import opened HeapExpand
  import opened HeapFree
  import opened HeapRuns
  import opened HeapLaws
  import opened HeapEdge
  import opened KHeapFacts

  /** The heap is blocks followed by a single hole at `x`. */
  ghost predicate HoleAt(h: Heap, x: nat, c: nat) {
    Wf(h) && h.index == [x] && x in h.cells && h.cells[x] == Cell(c, true) && x + c == h.end
  }

  /** In its domain, `alloc` turns `h` into `g` and returns `p`. */
  ghost predicate Granted(h: Heap, size: nat, p: nat, g: Heap) {
    Wf(h) && size + OVERHEAD < 0x8000_0000 && AllocDomain(h, size, false) && Malloc(h, size, false) == (g, p)
  }

  /** In its domain, `free` turns `h` into `g`, whatever is read behind the heap. */
  ghost predicate Freed(h: Heap, p: nat, g: Heap) {
    Wf(h) && Freeable(h, p) && forall b :: FreeDomain(h, p, b) && FreeOutcome(h, p, b) == Done(g)
  }

  /** A block the code would free, but not soundly. */
  ghost predicate Stuck(h: Heap, p: nat) {
    Wf(h) && Freeable(h, p) && forall b :: !FreeDomain(h, p, b)
  }

  /** A new heap is such a heap. */
  lemma FreshHeapIsAHole(m: Memory, start: nat, end: nat, max: nat, pages: set<nat>)
    requires |m| == WORD_LIMIT && DataStart(start) + MIN_SIZE <= end < WORD_LIMIT
      && Wf(Create(m, start, end, max, pages))
    ensures HoleAt(Create(m, start, end, max, pages), DataStart(start), end - DataStart(start))
  {
  }

  /** A block whose `free` does not even end. */
  ghost predicate Stops(h: Heap, p: nat, b: Behind, how: Outcome) {
    Wf(h) && Freeable(h, p) && !FreeDomain(h, p, b) && FreeOutcome(h, p, b) == how && !how.Done?
  }

  /** The same, whatever is read behind the heap. */
  ghost predicate StopsAnyway(h: Heap, p: nat, how: Outcome) {
    Wf(h) && Freeable(h, p) && !how.Done? && forall b :: !FreeDomain(h, p, b) && FreeOutcome(h, p, b) == how
  }

  /** An unaligned request is cut from the front of that hole. */
  lemma CutFront(h: Heap, x: nat, c: nat, size: nat) returns (g: Heap)
    requires HoleAt(h, x, c) && size + OVERHEAD <= c && (size + OVERHEAD == c || size + 2 * OVERHEAD <= c)
    ensures Granted(h, size, x + HEADER, g) && Wf(g) && g.start == h.start && g.end == h.end
    ensures var n := size + OVERHEAD;
      && g.cells == SplitCells(h.cells, x, n, c - n)
      && g.index == (if n < c then [x + n] else []) && (n < c ==> HoleAt(g, x + n, c - n))
  {
    hide Spelled, Tagged, Take, Malloc;
    var need := size + OVERHEAD;
    CellIsGood(h, x);
    g := TakeFront(h, x, c, need);
    assert Find(h, 0, need, false) == 0;
    MallocTakes(h, size);
  }

  lemma TakeFront(h: Heap, x: nat, c: nat, need: nat) returns (g: Heap)
    requires HoleAt(h, x, c) && OVERHEAD <= need <= c && (need == c || need + OVERHEAD <= c)
    ensures Usable(h, 0) && FitsAt(h, 0, need, false) && g == Take(h, 0, need)
    ensures Wf(g) && g.start == h.start && g.end == h.end && g.cells == SplitCells(h.cells, x, need, c - need)
    ensures g.index == (if need < c then [x + need] else []) && (need < c ==> HoleAt(g, x + need, c - need))
  {
    hide Spelled, Tagged, Configured, Take;
    HoleIsUsable(h, 0);
    TakeShape(h, x, c, need);
    TakeKeepsWf(h, 0, need);
    g := Take(h, 0, need);
  }

  lemma TakeShape(h: Heap, x: nat, c: nat, need: nat)
    requires Usable(h, 0) && h.index == [x] && h.cells[x] == Cell(c, true)
    requires OVERHEAD <= need <= c && (need == c || need + OVERHEAD <= c)
    ensures var g := Take(h, 0, need);
      && g.start == h.start && g.end == h.end && g.cells == SplitCells(h.cells, x, need, c - need)
      && g.index == if need < c then [x + need] else []
  {
    hide SplitMem, SplitCells, Inserted, BySize;
    assert Removed(h.index, 0) == [];
    InsertedIntoNothing(x + need, BySize(Take(h, 0, need).mem));
  }

  /** Freeing a block between two blocks leaves a hole exactly where it was. */
  lemma FreeBetween(h: Heap, a: nat) returns (g: Heap)
    requires Wf(h) && a in h.cells && !h.cells[a].hole && MergeStart(h, a) == a
    requires var t := a + h.cells[a].size; t in h.cells && !h.cells[t].hole
    ensures Freed(h, a + HEADER, g) && Wf(g) && g.end == h.end && g.start == h.start
    ensures g.cells == h.cells[a := Cell(h.cells[a].size, true)] && forall x :: x in g.index <==> x in h.index || x == a
  {
    hide Wf, Release, Freeable, MergeStart;
    BlocksAreFreeable(h, a + HEADER);
    CellIsGood(h, a + h.cells[a].size);
    g := Release(h, a + HEADER);
    BetweenIsInner(h, a);
    var p := a + HEADER;
    forall b ensures FreeDomain(h, p, b) && FreeOutcome(h, p, b) == Done(g) {
      FreeKeepsWfIff(h, p, b);
    }
    InnerFreeKeepsWf(h, a + HEADER);
    InnerBounds(h, a + HEADER);
    ReleaseIndex(h, a + HEADER);
    BetweenCells(h, g, a);
  }

  lemma BetweenIsInner(h: Heap, a: nat)
    requires Wf(h) && a in h.cells && a + h.cells[a].size in h.cells && !h.cells[a + h.cells[a].size].hole
    ensures MergeEnd(h, a) == a + h.cells[a].size != h.end
  {
    CellIsGood(h, a + h.cells[a].size);
  }

  lemma BetweenCells(h: Heap, g: Heap, a: nat)
    requires Wf(h) && a in h.cells && OneHoleInstead(h, g, a, a + h.cells[a].size, h.cells[a].size)
    ensures g.cells == h.cells[a := Cell(h.cells[a].size, true)]
    ensures forall x | a < x < a + h.cells[a].size :: x !in h.index
  {
    forall x | a < x < a + h.cells[a].size ensures x !in h.cells && x !in h.index {
      assert x in h.cells ==> Before(h.cells, a, x);
    }
  }

  /** Right merges: after three requests, freeing the second is fine and freeing the first is not. */
  lemma RightMergeLeavesDomain(h: Heap, c: nat) returns (h1: Heap, h2: Heap, h3: Heap, h4: Heap)
    requires HoleAt(h, h.start, c) && c >= 200
    ensures var s := h.start;
      && Granted(h, 16, s + 12, h1) && Granted(h1, 16, s + 48, h2) && Granted(h2, 16, s + 84, h3)
      && Freed(h3, s + 48, h4) && Stuck(h4, s + 12)
  {
    hide Granted, Freed, Wf, Freeable, MergeStart;
    var s := h.start;
    h1 := CutFront(h, s, c, 16);
    h2 := CutFront(h1, s + 36, c - 36, 16);
    h3 := CutFront(h2, s + 72, c - 72, 16);
    NoHoleBefore(h3, s + 36, s);
    h4 := FreeBetween(h3, s + 36);
    BlocksAreFreeable(h4, s + HEADER);
  }

  /** A cell preceded by a block has no hole on its left. */
  lemma NoHoleBefore(h: Heap, a: nat, b: nat)
    requires Wf(h) && b in h.cells && !h.cells[b].hole && b + h.cells[b].size == a && b < a
    ensures MergeStart(h, a) == a
  {
    hide MergeStart, Configured, Tagged, HeaderAt;
    var s := MergeStart(h, a);
    if s != a {
      CellIsGood(h, s);
      if s < b { InOrder(h, s, b); }
      if b < s { InOrder(h, b, s); }
    }
  }

  /** Contraction: a small block behind a large one at the end of the heap cannot be freed soundly. */
  lemma ContractionLeavesDomain(h: Heap, c: nat) returns (h1: Heap, h2: Heap)
    requires HoleAt(h, h.start, c) && c >= MIN_SIZE + 100
    ensures var s := h.start; var p := s + MIN_SIZE + OVERHEAD + HEADER;
      Granted(h, MIN_SIZE, s + HEADER, h1) && Granted(h1, 16, p, h2) && Stuck(h2, p)
  {
    hide Granted, Wf, Freeable, MergeStart;
    var s, a := h.start, h.start + MIN_SIZE + OVERHEAD;
    h1 := CutFront(h, s, c, MIN_SIZE);
    h2 := CutFront(h1, a, c - MIN_SIZE - OVERHEAD, 16);
    BlocksAreFreeable(h2, a + HEADER);
    NoHoleBefore(h2, a, s);
  }

  /** Expansion: once a block ends the heap and a hole lies lower, a request too big for that hole
      would enlarge it over the cells behind it. */
  lemma ExpansionLeavesDomain(h: Heap, c: nat, size: nat) returns (h1: Heap, h2: Heap, h3: Heap)
    requires HoleAt(h, h.start, c) && c >= 200 && 16 < size && size + OVERHEAD < 0x8000_0000
    ensures var s := h.start;
      && Granted(h, 16, s + 12, h1) && Granted(h1, c - 56, s + 48, h2) && Freed(h2, s + 12, h3)
      && Wf(h3) && !AllocDomain(h3, size, false)
  {
    hide Granted, Freed, Wf, MergeStart, AllocDomain;
    var s := h.start;
    h1 := CutFront(h, s, c, 16);
    h2 := CutFront(h1, s + 36, c - 36, c - 56);
    FirstHasNoHoleBefore(h2);
    h3 := FreeBetween(h2, s);
    OnlySmallHole(h3, s, size + OVERHEAD);
  }

  /** On the kernel's heap as it starts a request of about a gigabyte passes the ASSERT of `expand`: the new
      end wraps to 0x1000. */
  lemma WrappedExpansionLeavesDomain(h: Heap, align: bool)
    requires Wf(h) && h.start == 0xC008_1000 && h.end == 0xC010_0000
    ensures AssertPasses(h, 0x3FF0_0000 + OVERHEAD) && NewEnd(h, 0x3FF0_0000 + OVERHEAD) == WORD_LIMIT + 0x1000
    ensures !AllocDomain(h, 0x3FF0_0000, align)
  {
    hide Spelled, Tagged;
    var need := 0x3FF0_0000 + OVERHEAD;
    forall j | 0 <= j < |h.index| ensures !FitsAt(h, j, need, align) {
      CellIsTagged(h, h.index[j]);
    }
  }

  lemma FirstHasNoHoleBefore(h: Heap)
    requires Wf(h)
    ensures MergeStart(h, h.start) == h.start
  {
    hide MergeStart;
    var s := MergeStart(h, h.start);
    if s != h.start {
      CellIsGood(h, s);
    }
  }

  lemma OnlySmallHole(h: Heap, x: nat, need: nat)
    requires Wf(h) && x in h.cells && h.cells[x].size < need && x + h.cells[x].size != h.end
    requires forall y :: y in h.index <==> y == x
    requires OVERHEAD <= need < 0x8000_0000
    ensures !AllocDomain(h, need - OVERHEAD, false)
  {
    forall j | 0 <= j < |h.index| ensures !FitsAt(h, j, need, false) {
      assert h.index[j] in h.index;
    }
    assert x in h.index && Highest(h.index) == x;
    OnlyEntry(h, x);
  }

  /** Carving: one odd-sized request puts the hole where no page-aligned request can be cut from it. */
  lemma CarvingLeavesDomain(h: Heap, c: nat, size: nat) returns (h1: Heap)
    requires HoleAt(h, h.start, c) && c >= 0x3000 && size + OVERHEAD <= c - 0x3000
    ensures Granted(h, 0xFD0, h.start + HEADER, h1) && Wf(h1) && size + OVERHEAD < 0x8000_0000
      && !AllocDomain(h1, size, true)
  {
    hide Granted, Wf, AllocDomain;
    var s := h.start;
    h1 := CutFront(h, s, c, 0xFD0);
    PageStart(h);
    NotCarvable(h1, s + 0xFE4, c - 0xFE4, size);
  }

  lemma PageStart(h: Heap)
    requires Wf(h)
    ensures (h.start + 0xFE4) % PAGE == 0xFE4
  {
  }

  lemma NotCarvable(h: Heap, x: nat, c: nat, size: nat)
    requires HoleAt(h, x, c) && x % PAGE == 0xFE4 && size + OVERHEAD + PAGE <= c
    ensures size + OVERHEAD < 0x8000_0000 && !AllocDomain(h, size, true)
  {
    hide Spelled, Tagged;
    CellIsGood(h, x);
    assert FitsAt(h, 0, size + OVERHEAD, true);
    assert Find(h, 0, size + OVERHEAD, true) == 0;
  }

  // ---------- the read behind the last block ----------

  /** One block that fills a heap with no readable page behind it cannot be freed. */
  lemma EndReadLeavesDomain(h: Heap, c: nat) returns (h1: Heap)
    requires HoleAt(h, h.start, c) && h.end !in h.pages
    ensures var s := h.start;
      && Granted(h, c - OVERHEAD, s + HEADER, h1)
      && Stops(h1, s + HEADER, Fault, PageFault) && Stops(h1, s + HEADER, Hole, Panic)
  {
    hide Granted, Wf, Freeable, MergeStart, Take, Release;
    var s := h.start;
    LeastLength(h);
    h1 := CutFront(h, s, c, c - OVERHEAD);
    BlocksAreFreeable(h1, s + HEADER);
    CutLeavesRest(h, s, c, c - OVERHEAD, h1);
  }

  lemma LeastLength(h: Heap)
    requires Wf(h)
    ensures h.start + MIN_SIZE <= h.end && (h.start + MIN_SIZE) % PAGE == 0
    ensures h.start + MIN_SIZE < h.end ==> h.start + MIN_SIZE in h.pages
  {
  }

  /** A request changes neither the pages nor what stands at the end. */
  lemma CutLeavesRest(h: Heap, x: nat, c: nat, size: nat, g: Heap)
    requires HoleAt(h, x, c) && size + OVERHEAD <= c && Granted(h, size, x + HEADER, g)
    ensures g.pages == h.pages && (ReadsAsHole(g.mem, h.end) <==> ReadsAsHole(h.mem, h.end))
  {
    hide Spelled, Tagged, Configured, Take, ReadsAsHole, Malloc;
    var need := size + OVERHEAD;
    HoleIsUsable(h, 0);
    assert Find(h, 0, need, false) == 0;
    MallocTakes(h, size);
    TakeIsAPatch(h, 0, need);
    TakeKeepsBounds(h, 0, need);
    SameReading(h, g, x, x + c, h.end);
  }

  /** A block between a hole and the trailing hole, in a heap longer than the least length. */
  ghost predicate Enclosed(h: Heap, b: nat, a: nat, t: nat) {
    && Wf(h) && b in h.cells && a in h.cells && t in h.cells
    && h.cells[b].hole && !h.cells[a].hole && h.cells[t].hole
    && b + h.cells[b].size == a && a + h.cells[a].size == t && t + h.cells[t].size == h.end
  }

  lemma EnclosedMerge(h: Heap, b: nat, a: nat, t: nat)
    requires Enclosed(h, b, a, t)
    ensures Freeable(h, a + HEADER) && MergeStart(h, a) == b && MergeEnd(h, a) == h.end && t != h.end && b < a
  {
    hide MergeStart, Configured, HeaderAt;
    BlocksAreFreeable(h, a + HEADER);
    CellIsGood(h, b);
    CellIsGood(h, t);
    MergeStartIsThere(h, a, b);
    MergeStretch(h, a + HEADER);
    SamePredecessor(h, a, b, MergeStart(h, a));
  }

  /** Freeing it contracts the heap to its least length. */
  lemma FreeEnclosed(h: Heap, b: nat, a: nat, t: nat) returns (g: Heap)
    requires Enclosed(h, b, a, t) && b - h.start <= MIN_SIZE - OVERHEAD
    ensures Freed(h, a + HEADER, g) && Wf(g) && g.start == h.start && g.end == h.start + MIN_SIZE
    ensures OneHoleInstead(h, g, b, h.end, g.end - b) && g.pages == PagesWithout(h.pages, g.end, h.end)
    ensures forall x :: x in g.index <==> (x in h.index && !(b <= x < h.end)) || x == b
    ensures g.end == a ==> ReadsAsHole(g.mem, g.end)
  {
    hide Wf, Release, Freeable, MergeStart, MergeEnd, OneHoleInstead, ReadsAsHole, PagesWithout;
    EnclosedMerge(h, b, a, t);
    var p := a + HEADER;
    g := Release(h, p);
    forall behind ensures FreeDomain(h, p, behind) && FreeOutcome(h, p, behind) == Done(g) {
      FreeKeepsWfIff(h, p, behind);
    }
    OuterFreeKeepsWf(h, p);
    OuterShape(h, p);
    ReleaseIndex(h, p);
    WhichTagsAreLeft(h, p, b, t, g);
  }

  lemma OnlyEntry(h: Heap, x: nat)
    requires Wf(h) && forall y :: y in h.index <==> y == x
    ensures h.index == [x]
  {
    assert x in h.index;
    forall k | 0 <= k < |h.index| ensures h.index[k] == x && k == 0 {
      assert h.index[k] in h.index && h.index[0] in h.index;
      Distinct(h.index, 0, k);
    }
    assert h.index[|h.index| - 1] == x;
  }

  /** A block whose header stood where a contraction has put the end of the heap: freeing the next block
      that ends there stops at the ASSERT. Six requests and frees lead to it. */
  lemma StaleTagLeavesDomain(h: Heap, c: nat)
    returns (h1: Heap, h2: Heap, h3: Heap, h4: Heap, h5: Heap, h6: Heap)
    requires HoleAt(h, h.start, c) && c >= MIN_SIZE + 100
    ensures var s, last := h.start, h.start + MIN_SIZE + HEADER;
      && Granted(h, 16, s + 12, h1) && Granted(h1, MIN_SIZE - 56, s + 48, h2) && Granted(h2, 16, last, h3)
      && Freed(h3, s + 48, h4) && Freed(h4, last, h5) && Granted(h5, MIN_SIZE - 56, s + 48, h6)
      && StopsAnyway(h6, s + 48, Panic)
  {
    hide Granted, Freed, Wf, Freeable, MergeStart, FreeOutcome, FreeDomain, ReadsAsHole, PagesWithout, HoleAt;
    var s := h.start;
    h1, h2, h3 := ThreeBlocks(h, c);
    NoHoleBefore(h3, s + 36, s);
    h4 := FreeBetween(h3, s + 36);
    FirstStays(h, c);
    h5 := FreeEnclosed(h4, s + 36, s + MIN_SIZE, s + MIN_SIZE + 36);
    h6 := TakeTheRest(h4, h5);
  }

  lemma FirstStays(h: Heap, c: nat)
    requires HoleAt(h, h.start, c)
    ensures h.end == h.start + c
  {
  }

  lemma ThreeBlocks(h: Heap, c: nat) returns (h1: Heap, h2: Heap, h3: Heap)
    requires HoleAt(h, h.start, c) && c >= MIN_SIZE + 100
    ensures var s := h.start;
      && Granted(h, 16, s + 12, h1) && Granted(h1, MIN_SIZE - 56, s + 48, h2) && Granted(h2, 16, s + MIN_SIZE + 12, h3)
      && Wf(h3) && h3.start == s && h3.end == h.end && h3.index == [s + MIN_SIZE + 36]
      && h3.cells == map[s := Cell(36, false), s + 36 := Cell(MIN_SIZE - 36, false), s + MIN_SIZE := Cell(36, false),
                         s + MIN_SIZE + 36 := Cell(c - MIN_SIZE - 36, true)]
  {
    hide Granted, Wf;
    OnlyCell(h, c);
    var s := h.start;
    h1 := CutFront(h, s, c, 16);
    h2 := CutFront(h1, s + 36, c - 36, MIN_SIZE - 56);
    h3 := CutFront(h2, s + MIN_SIZE, c - MIN_SIZE, 16);
  }

  lemma OnlyCell(h: Heap, c: nat)
    requires HoleAt(h, h.start, c)
    ensures h.cells == map[h.start := Cell(c, true)]
  {
    forall x | x in h.cells ensures x == h.start {
      CellIsGood(h, x);
      if x != h.start {
        InOrder(h, h.start, x);
      }
    }
  }

  /** After the contraction the hole that is left is just taken up, and the stale tag is behind it. */
  lemma TakeTheRest(h: Heap, g: Heap) returns (k: Heap)
    requires Wf(h) && Wf(g) && g.start == h.start && g.end == h.start + MIN_SIZE < h.end
    requires g.pages == PagesWithout(h.pages, g.end, h.end) && ReadsAsHole(g.mem, g.end)
    requires var s := h.start;
      OneHoleInstead(h, g, s + 36, h.end, MIN_SIZE - 36) && forall x :: x in g.index <==> x == s + 36
    ensures var s := h.start;
      Granted(g, MIN_SIZE - 56, s + 48, k) && StopsAnyway(k, s + 48, Panic)
  {
    hide Granted, Wf, Freeable, MergeStart, MergeEnd, ReadsAsHole, Release;
    var s, x := h.start, h.start + 36;
    OnlyEntry(g, x);
    LeastLength(h);
    assert g.end in g.pages;
    assert HoleAt(g, x, MIN_SIZE - 36);
    hide OneHoleInstead, PagesWithout, HoleAt;
    k := CutFront(g, x, MIN_SIZE - 36, MIN_SIZE - 56);
    CutLeavesRest(g, x, MIN_SIZE - 36, MIN_SIZE - 56, k);
    BlocksAreFreeable(k, x + HEADER);
  }
}
