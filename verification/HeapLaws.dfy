/** Further laws of the heap: free undoes alloc, best fit, and the repaired right merge. */
module HeapLaws {
  import opened Machine
  import opened OrderedArrays
  import opened HeapCells
  import opened HeapAlloc
  import opened HeapExpand
  import opened HeapFree
  import opened HeapRuns

  // ---------- free undoes alloc ----------

  lemma TakenBlockIsFreeable(h: Heap, i: nat, need: nat)
    requires Wf(h) && Usable(h, i) && OVERHEAD <= need && FitsAt(h, i, need, false)
    ensures var a := h.index[i]; var g := Take(h, i, need);
      && Wf(g) && Freeable(g, a + HEADER)
      && MergeStart(g, a) == a && MergeEnd(g, a) == a + h.cells[a].size
  {
    hide Inserted, Removed, SplitMem, HeaderAt, FooterAt, Freeable;
    var a, g := h.index[i], Take(h, i, need);
    HoleIsUsable(h, i);
    TakeKeepsWf(h, i, need);
    BlocksAreFreeable(g, a + HEADER);
    var s := MergeStart(g, a);
    if s != a {
      CellIsGood(g, s);
    }
  }

  /** What one unaligned request and the matching free leave behind. */
  ghost predicate Restored(h: Heap, g: Heap) {
    g.cells == h.cells && multiset(g.index) == multiset(h.index) && g.start == h.start && g.end == h.end
  }

  lemma TakeThenMergeCells(h: Heap, i: nat, need: nat)
    requires Wf(h) && Usable(h, i) && OVERHEAD <= need && FitsAt(h, i, need, false)
    requires Freeable(Take(h, i, need), h.index[i] + HEADER)
    ensures Merge(Take(h, i, need), h.index[i]).cells == h.cells
  {
    hide Inserted, Removed, SplitMem, HeaderAt, FooterAt, MergeMem, IndexOf, Freeable, MergeStart;
    var a, g := h.index[i], Take(h, i, need);
    HoleIsUsable(h, i);
    TakenBlockIsFreeable(h, i, need);
    var m := Merge(g, a);
    assert h.cells[a] == Cell(h.cells[a].size, true);
    forall x ensures x in m.cells <==> x in h.cells {
    }
    forall x | x in h.cells ensures m.cells[x] == h.cells[x] {
    }
  }

  /** Without duplicates, the multiset of a sequence is just its members. */
  lemma {:induction false} SameMembersSameMultiset(s: seq<nat>, t: seq<nat>)
    requires NoDuplicates(s) && NoDuplicates(t) && forall x :: x in s <==> x in t
    ensures multiset(s) == multiset(t)
  {
    forall x: nat ensures multiset(s)[x] == multiset(t)[x] {
      CountsOnce(s, x);
      CountsOnce(t, x);
    }
  }

  lemma {:induction false} CountsOnce(s: seq<nat>, x: nat)
    requires NoDuplicates(s)
    ensures multiset(s)[x] == if x in s then 1 else 0
  {
    if s != [] {
      assert s == [s[0]] + s[1..];
      CountsOnce(s[1..], x);
    }
  }

  lemma IndexComesBack(h: Heap, i: nat, a: nat, need: nat, g: Heap)
    requires Wf(h) && Usable(h, i) && a == h.index[i] && OVERHEAD <= need && FitsAt(h, i, need, false)
    requires g == Take(h, i, need) && Freeable(g, a + HEADER)
    ensures multiset(Release(g, a + HEADER).index) == multiset(h.index)
  {
    hide Take, Release, MergeStart, MergeEnd, Spelled, Tagged, HeaderAt, FooterAt, Freeable;
    HoleIsUsable(h, i);
    TakenBlockIsFreeable(h, i, need);
    TakeMovesIndex(h, i, need);
    ReleaseIndex(g, a + HEADER);
    SameMembersSameMultiset(Release(g, a + HEADER).index, h.index);
  }

  /** `free` ends well and puts the heap back as it was. */
  ghost predicate Undoes(h: Heap, g: Heap, p: nat, b: Behind)
    requires Freeable(g, p)
  {
    FreeOutcome(g, p, b).Done? && Restored(h, FreeOutcome(g, p, b).heap)
  }

  /** The hole at `a` is not the last cell; or the heap is down to its least length, and behind a block
      that takes all of the hole nothing reads as one. */
  ghost predicate Undoable(h: Heap, a: nat, need: nat, b: Behind)
    requires a in h.cells
  {
    var c := h.cells[a].size;
    || a + c != h.end
    || (h.end == h.start + MIN_SIZE && (c - need < OVERHEAD ==> EndsPlain(h, b)))
  }

  /** Freeing right after an unaligned request that did not expand undoes it exactly then. */
  lemma FreeUndoesAllocIff(h: Heap, size: nat, b: Behind)
    requires Wf(h) && size + OVERHEAD < 0x8000_0000 && Find(h, 0, size + OVERHEAD, false) < |h.index|
    ensures AllocDomain(h, size, false) && Freeable(Malloc(h, size, false).0, Malloc(h, size, false).1)
    ensures var hole := h.index[Find(h, 0, size + OVERHEAD, false)]; var (g, p) := Malloc(h, size, false);
      Undoes(h, g, p, b) <==> Undoable(h, hole, size + OVERHEAD, b)
  {
    hide Undoes, Undoable, Freeable, Malloc, AllocDomain, Find, FitsAt, Wf;
    MallocIsFreeable(h, size);
    var (g, p) := Malloc(h, size, false);
    FreeUndoesMallocIff(h, size, g, p, b);
  }

  lemma MallocIsFreeable(h: Heap, size: nat)
    requires Wf(h) && size + OVERHEAD < 0x8000_0000 && Find(h, 0, size + OVERHEAD, false) < |h.index|
    ensures AllocDomain(h, size, false) && Freeable(Malloc(h, size, false).0, Malloc(h, size, false).1)
  {
    hide Freeable, Take, Malloc, AllocDomain, Usable, Find, FitsAt, MergeStart, MergeEnd, Wf;
    CellsOfIndexBelow(h);
    MallocTakes(h, size);
    var i := Find(h, 0, size + OVERHEAD, false);
    TakenBlockIsFreeable(h, i, size + OVERHEAD);
  }

  lemma FreeUndoesMallocIff(h: Heap, size: nat, g: Heap, p: nat, b: Behind)
    requires Wf(h) && size + OVERHEAD < 0x8000_0000 && Find(h, 0, size + OVERHEAD, false) < |h.index|
    requires AllocDomain(h, size, false) && (g, p) == Malloc(h, size, false) && Freeable(g, p)
    ensures Undoes(h, g, p, b) <==> Undoable(h, h.index[Find(h, 0, size + OVERHEAD, false)], size + OVERHEAD, b)
  {
    hide Undoes, Undoable, Freeable, Take, Malloc, AllocDomain, Usable, Find, FitsAt, Wf;
    CellsOfIndexBelow(h);
    MallocTakes(h, size);
    var i := Find(h, 0, size + OVERHEAD, false);
    FreeUndoesTakeIff(h, i, h.index[i], size + OVERHEAD, g, b);
  }

  lemma FreeUndoesTakeIff(h: Heap, i: nat, a: nat, need: nat, g: Heap, b: Behind)
    requires Wf(h) && Usable(h, i) && a == h.index[i] && OVERHEAD <= need && FitsAt(h, i, need, false)
    requires g == Take(h, i, need) && Freeable(g, a + HEADER)
    ensures Undoes(h, g, a + HEADER, b) <==> Undoable(h, a, need, b)
  {
    hide Release, Freeable, Wf, ReadsAsHole, Take, Restored, FreeOutcome, Patched;
    var c := h.cells[a].size;
    HoleIsUsable(h, i);
    TakeIsAPatch(h, i, need);
    TakenBlockIsFreeable(h, i, need);
    TakeKeepsBounds(h, i, need);
    OutcomeIsDoneIff(g, a + HEADER, b);
    SameReading(h, g, a, a + c, h.end);
    ReleaseUndoesTakeIff(h, i, a, need, g);
  }

  lemma SameReading(h: Heap, g: Heap, lo: nat, hi: nat, x: nat)
    requires Patched(h, g, lo, hi) && hi <= x
    ensures ReadsAsHole(h.mem, x) <==> ReadsAsHole(g.mem, x)
  {
  }

  lemma ReleaseUndoesTakeIff(h: Heap, i: nat, a: nat, need: nat, g: Heap)
    requires Wf(h) && Usable(h, i) && a == h.index[i] && OVERHEAD <= need && FitsAt(h, i, need, false)
    requires g == Take(h, i, need) && Freeable(g, a + HEADER)
    ensures Restored(h, Release(g, a + HEADER)) <==>
            a + h.cells[a].size != h.end || h.end == h.start + MIN_SIZE
  {
    hide Take, Merge, Release, MergeStart, MergeEnd, Spelled, Tagged, Freeable, HeaderAt, FooterAt, Restored;
    HoleIsUsable(h, i);
    CellIsGood(h, a);
    TakenBlockIsFreeable(h, i, need);
    TakeThenMergeCells(h, i, need);
    TakeKeepsBounds(h, i, need);
    IndexComesBack(h, i, a, need, g);
    RestoredIff(h, g, a, h.cells[a].size);
  }

  /** Once merging has brought the cells back, what `contract` does decides. */
  lemma RestoredIff(h: Heap, g: Heap, a: nat, c: nat)
    requires a in h.cells && h.cells[a] == Cell(c, true) && h.start <= a && OVERHEAD <= c && a + c <= h.end
    requires g.start == h.start && g.end == h.end && h.start + MIN_SIZE <= h.end
    requires Freeable(g, a + HEADER) && MergeStart(g, a) == a && MergeEnd(g, a) == a + c && Merge(g, a).cells == h.cells
    requires multiset(Release(g, a + HEADER).index) == multiset(h.index)
    ensures Restored(h, Release(g, a + HEADER)) <==> a + c != h.end || h.end == h.start + MIN_SIZE
  {
    hide Merge, Release, MergeStart, MergeEnd, PutFooter, PutWord, Trim, PagesWithout;
    var m, p := Merge(g, a), a + HEADER;
    MergeKeepsBounds(g, p);
    ReleaseIsTrimmed(g, p);
    if a + c == h.end {
      hide Freeable;
      if h.end == h.start + MIN_SIZE {
        TrimToMinSize(m, a, a + g.cells[a].size);
        assert h.cells[a := Cell(h.end - a, true)] == h.cells;
      } else {
        TrimShortens(m, a, a + g.cells[a].size);
      }
    }
  }

  lemma TakeKeepsBounds(h: Heap, i: nat, need: nat)
    requires Usable(h, i) && OVERHEAD <= need && FitsAt(h, i, need, false)
    ensures var a, g := h.index[i], Take(h, i, need);
      && g.start == h.start && g.end == h.end && g.max == h.max && g.pages == h.pages
      && a in g.cells && g.cells[a] == Cell(BlockSize(h.cells[a].size, need), false)
  {
  }

  /** A heap above its least length always loses length when a trailing hole is contracted. */
  lemma TrimShortens(h: Heap, s: nat, t: nat)
    requires |h.mem| == WORD_LIMIT && PAGE <= h.start <= s < h.end <= WORD_LIMIT - PAGE && h.start + MIN_SIZE < h.end
    ensures Trim(h, s, t).end < h.end
  {
  }

  // ---------- best fit ----------

  lemma SizesAreStrictWeak(m: Memory)
    ensures StrictWeak(BySize(m))
  {
  }

  /** In a sorted index the first hole that fits is a smallest one that fits, and none is missed. */
  lemma FindIsBestFit(h: Heap, need: nat)
    requires Wf(h) && Ordered(h.index, BySize(h.mem))
    ensures var k := Find(h, 0, need, false);
      && (k == |h.index| <==> forall a | a in h.cells && h.cells[a].hole :: h.cells[a].size < need)
      && (k < |h.index| ==> forall a | a in h.cells && h.cells[a].hole && h.cells[a].size >= need ::
            h.cells[h.index[k]].size <= h.cells[a].size)
  {
    hide Spelled, Configured;
    var k := Find(h, 0, need, false);
    forall a | a in h.cells && h.cells[a].hole && h.cells[a].size >= need
      ensures k < |h.index| && h.cells[h.index[k]].size <= h.cells[a].size
    {
      SizeAndIndex(h, a);
      var j := IndexOf(h.index, a);
      assert FitsAt(h, j, need, false);
      SizeAndIndex(h, h.index[k]);
      assert k <= j && (k < j ==> !BySize(h.mem)(h.index[j], h.index[k]));
    }
    if k < |h.index| {
      SizeAndIndex(h, h.index[k]);
      assert FitsAt(h, k, need, false);
    }
  }

  lemma SizeAndIndex(h: Heap, a: nat)
    requires Wf(h) && a in h.cells
    ensures SizeAt(h.mem, a) == h.cells[a].size && (h.cells[a].hole <==> a in h.index)
  {
    CellIsGood(h, a);
  }

  /** Sizes that two memories record alike leave the order of an index alone. */
  lemma OrderTransfers(s: seq<nat>, m: Memory, r: Memory)
    requires Ordered(s, BySize(m)) && forall x | x in s :: SizeAt(m, x) == SizeAt(r, x)
    ensures Ordered(s, BySize(r))
  {
  }

  /** An unaligned split keeps the index sorted. */
  lemma TakeKeepsOrder(h: Heap, i: nat, need: nat)
    requires Wf(h) && Usable(h, i) && OVERHEAD <= need && FitsAt(h, i, need, false)
    requires Ordered(h.index, BySize(h.mem))
    ensures Ordered(Take(h, i, need).index, BySize(Take(h, i, need).mem))
  {
    hide Inserted, SplitMem, HeaderAt, FooterAt, Spelled, Tagged, Configured;
    var a, g := h.index[i], Take(h, i, need);
    var without := Removed(h.index, i);
    HoleIsUsable(h, i);
    TakeIsAPatch(h, i, need);
    TakeKeepsWf(h, i, need);
    SizesAreStrictWeak(g.mem);
    SizesAreStrictWeak(h.mem);
    OrderKept<nat>(h.index, a, BySize(h.mem));
    RemovalMembers(h.index, i);
    forall x | x in without ensures SizeAt(h.mem, x) == SizeAt(g.mem, x) {
      SizeAndIndex(h, x);
      SizeAndIndex(g, x);
    }
    OrderTransfers(without, h.mem, g.mem);
    OrderKept<nat>(without, a + BlockSize(h.cells[a].size, need), BySize(g.mem));
  }

  /** The index once an absorbed right hole is gone: still sorted, and without that hole. */
  lemma MergedIndexOrdered(h: Heap, p: nat)
    requires Wf(h) && Freeable(h, p) && Ordered(h.index, BySize(h.mem))
    ensures var w := Merge(h, p - HEADER).index;
      && Ordered(w, BySize(h.mem)) && NoDuplicates(w)
      && forall x :: x in w <==> x in h.index && x != p - HEADER + h.cells[p - HEADER].size
  {
    hide MergeMem, MergeStart, Removed, Ordered;
    var t := p - HEADER + h.cells[p - HEADER].size;
    BlocksAreTagged(h, t);
    hide Wf;
    WfIsConfigured(h);
    if t in h.index {
      var i := IndexOf(h.index, t);
      RemovalMembers(h.index, i);
      SizesAreStrictWeak(h.mem);
      OrderKept<nat>(h.index, t, BySize(h.mem));
    }
    RightHoleMoves(h, p);
  }

  lemma RightHoleMoves(h: Heap, p: nat)
    requires Wf(h) && Freeable(h, p)
    ensures var t := p - HEADER + h.cells[p - HEADER].size;
      && (t in h.index <==> t < MergeEnd(h, p - HEADER))
      && Merge(h, p - HEADER).index == if t in h.index then Removed(h.index, IndexOf(h.index, t)) else h.index
  {
    hide MergeMem, MergeStart, Removed, IndexOf, Wf;
    var t := p - HEADER + h.cells[p - HEADER].size;
    BlocksAreTagged(h, t);
  }

  /** In the domain the index after `free` is that one, with the freed block's header inserted unless a
      hole on the left took it over. */
  lemma IndexAfterRelease(h: Heap, p: nat)
    requires Wf(h) && Freeable(h, p) && MergeDomain(h, p)
    ensures var a, r := p - HEADER, Release(h, p);
      r.index == if MergeStart(h, a) < a then Merge(h, a).index else Inserted<nat>(Merge(h, a).index, a, BySize(r.mem))
  {
    hide Merge, MergeStart, MergeEnd, Inserted, BySize, PutFooter, PutWord, PagesWithout, Wf, ReadsAsHole;
    var a := p - HEADER;
    MergeKeepsBounds(h, p);
    if MergeEnd(h, a) == h.end {
      TrimToMinSize(Merge(h, a), MergeStart(h, a), a + h.cells[a].size);
      hide Trim;
    }
  }

  lemma BlocksAreTagged(h: Heap, t: nat)
    requires Wf(h)
    ensures t in h.index <==> RightHole(h, t)
  {
    if t in h.cells {
      CellIsGood(h, t);
    }
  }

  /** The sizes recorded for the entries that stay: only the merged hole's changes. */
  lemma SizesAfterRelease(h: Heap, p: nat, x: nat)
    requires Wf(h) && Freeable(h, p) && MergeDomain(h, p) && x in Merge(h, p - HEADER).index
    requires Ordered(h.index, BySize(h.mem))
    ensures SizeAt(Release(h, p).mem, x) == if x == MergeStart(h, p - HEADER) then SizeAfterFree(h, p)
      else SizeAt(h.mem, x)
  {
    hide Release, Merge, MergeStart, MergeEnd, Freeable, MergeDomain, Wf, Ordered, SizeAt;
    MergedIndexOrdered(h, p);
    CellAfterRelease(h, p, x);
    FreeKeepsWf(h, p);
    IndexedIsCell(h, x);
    SizeAndIndex(h, x);
    SizeAndIndex(Release(h, p), x);
  }

  /** What the merged hole has become: it is cut at MIN_SIZE if it reached the end. */
  ghost function SizeAfterFree(h: Heap, p: nat): int
    requires Freeable(h, p)
  {
    var s, e := MergeStart(h, p - HEADER), MergeEnd(h, p - HEADER);
    (if e == h.end then h.start + MIN_SIZE else e) - s
  }

  lemma CellAfterRelease(h: Heap, p: nat, x: nat)
    requires Wf(h) && Freeable(h, p) && MergeDomain(h, p)
    requires x in h.index && x != p - HEADER + h.cells[p - HEADER].size
    ensures x in h.cells && x in Release(h, p).cells && SizeAfterFree(h, p) >= 0
    ensures Release(h, p).cells[x] == if x == MergeStart(h, p - HEADER) then Cell(SizeAfterFree(h, p), true)
      else h.cells[x]
  {
    hide Release, MergeStart, MergeEnd, MergeMem, Good;
    CellIsGood(h, x);
    MergeStretch(h, p);
    if MergeEnd(h, p - HEADER) == h.end {
      OuterShape(h, p);
    } else {
      InnerFreeKeepsWf(h, p);
    }
  }

  /** A free without a left merge keeps the index sorted. */
  lemma FreeKeepsOrder(h: Heap, p: nat)
    requires Wf(h) && Freeable(h, p) && MergeDomain(h, p) && MergeStart(h, p - HEADER) == p - HEADER
    requires Ordered(h.index, BySize(h.mem))
    ensures Ordered(Release(h, p).index, BySize(Release(h, p).mem))
  {
    hide Release, Merge, Inserted, MergeStart, MergeEnd, Wf, Freeable, MergeDomain, Ordered;
    var a, r := p - HEADER, Release(h, p);
    var w := Merge(h, a).index;
    IndexAfterRelease(h, p);
    MergedIndexOrdered(h, p);
    forall x | x in w ensures SizeAt(h.mem, x) == SizeAt(r.mem, x) {
      BlockIsNotIndexed(h, p);
      SizesAfterRelease(h, p, x);
    }
    OrderTransfers(w, h.mem, r.mem);
    SizesAreStrictWeak(r.mem);
    OrderKept<nat>(w, a, BySize(r.mem));
  }

  lemma BlockIsNotIndexed(h: Heap, p: nat)
    requires Wf(h) && Freeable(h, p)
    ensures p - HEADER !in h.index
  {
    CellIsGood(h, p - HEADER);
  }

  /** A left merge changes an indexed size in place: in the domain, whether or not it absorbs a hole on the
      right and whether or not it reaches the end, the index is still sorted exactly when the merged hole's
      new size still suits its place among the other entries. */
  lemma LeftMergeKeepsOrderIff(h: Heap, p: nat, i: nat)
    requires Wf(h) && Freeable(h, p) && MergeDomain(h, p) && MergeStart(h, p - HEADER) < p - HEADER
    requires Ordered(h.index, BySize(h.mem))
    requires i < |Merge(h, p - HEADER).index| && Merge(h, p - HEADER).index[i] == MergeStart(h, p - HEADER)
    ensures var r, w := Release(h, p), Merge(h, p - HEADER).index;
      && r.index == w
      && (Ordered(r.index, BySize(r.mem)) <==>
            && (forall j | 0 <= j < i :: SizeAt(h.mem, w[j]) <= SizeAfterFree(h, p))
            && (forall j | i < j < |w| :: SizeAt(h.mem, w[j]) >= SizeAfterFree(h, p)))
  {
    hide Release, Merge, MergeStart, MergeEnd, Freeable, MergeDomain, Wf, Ordered, NoDuplicates, SizeAfterFree;
    var r, w := Release(h, p), Merge(h, p - HEADER).index;
    IndexAfterRelease(h, p);
    MergedIndexOrdered(h, p);
    forall j | 0 <= j < |w|
      ensures SizeAt(r.mem, w[j]) == if j == i then SizeAfterFree(h, p) else SizeAt(h.mem, w[j])
    {
      assert w[j] in w;
      SizesAfterRelease(h, p, w[j]);
      Distinct(w, i, j);
    }
    ResizedEntryOrder(w, h.mem, r.mem, i, SizeAfterFree(h, p));
  }

  lemma Distinct(s: seq<nat>, i: nat, j: nat)
    requires NoDuplicates(s) && i < |s| && j < |s|
    ensures s[i] == s[j] <==> i == j
  {
  }

  lemma ResizedEntryOrder(s: seq<nat>, m: Memory, r: Memory, i: nat, size: int)
    requires i < |s| && Ordered(s, BySize(m))
    requires forall j | 0 <= j < |s| :: SizeAt(r, s[j]) == if j == i then size else SizeAt(m, s[j])
    ensures Ordered(s, BySize(r)) <==>
      && (forall j | 0 <= j < i :: SizeAt(m, s[j]) <= size)
      && (forall j | i < j < |s| :: SizeAt(m, s[j]) >= size)
  {
    hide SizeAt;
    if Ordered(s, BySize(r)) {
      forall j | 0 <= j < |s| && j != i ensures if j < i then SizeAt(m, s[j]) <= size else SizeAt(m, s[j]) >= size {
        assert if j < i then !BySize(r)(s[i], s[j]) else !BySize(r)(s[j], s[i]);
      }
    }
    if (forall j | 0 <= j < i :: SizeAt(m, s[j]) <= size) && (forall j | i < j < |s| :: SizeAt(m, s[j]) >= size) {
      forall j, k | 0 <= j < k < |s| ensures !BySize(r)(s[k], s[j]) {
        assert !BySize(m)(s[k], s[j]);
      }
    }
  }

  lemma IndexedIsCell(h: Heap, x: nat)
    requires Wf(h) && x in h.index
    ensures x in h.cells
  {
  }

  // ---------- the variant with the missing store ----------

  /** A variant of `free`, not the code's: the absorbed right hole's footer is made to point at the
      merged header as well. */
  ghost function ReleaseRepaired(h: Heap, p: nat): (g: Heap)
    requires Freeable(h, p)
  {
    var a, r := p - HEADER, Release(h, p);
    var s, e := MergeStart(h, a), MergeEnd(h, a);
    if a + h.cells[a].size < e && e != h.end && 4 <= e <= |r.mem| then r.(mem := PutWord(r.mem, e - 4, s)) else r
  }

  /** With that one store every right merge is sound, wherever the absorbed hole lies. */
  lemma RepairedFreeKeepsWf(h: Heap, p: nat)
    requires Wf(h) && Freeable(h, p)
    requires MergeEnd(h, p - HEADER) == h.end ==> MergeStart(h, p - HEADER) - h.start <= MIN_SIZE - OVERHEAD
    ensures Wf(ReleaseRepaired(h, p))
  {
    hide Wf, Release, MergeStart;
    var a := p - HEADER;
    if a + h.cells[a].size < MergeEnd(h, a) && MergeEnd(h, a) != h.end {
      AbsorbedRepaired(h, p);
    } else {
      FreeKeepsWf(h, p);
    }
  }

  lemma RepairedTags(m: Memory, s: nat, t: nat, e: nat)
    requires s + OVERHEAD <= e <= |m| && e < WORD_LIMIT && HeaderAt(m, s, Cell(e - s, true)) && FooterAt(m, e, t)
    ensures var r := PutWord(m, e - 4, s);
      HeaderAt(r, s, Cell(e - s, true)) && FooterAt(r, e, s) && SameOutside(m, r, s, e)
  {
    hide PutWord;
  }

  lemma RetagStaysPatched(h: Heap, r: Heap, g: Heap, s: nat, e: nat)
    requires Wf(h) && Patched(h, r, s, e) && g == r.(mem := g.mem) && SameOutside(r.mem, g.mem, s, e)
    requires r.end == h.end && r.max == h.max && r.pages == h.pages
    ensures Patched(h, g, s, e) && Configured(g)
  {
  }

  lemma RepairedCellIsGood(h: Heap, p: nat, g: Heap)
    requires Wf(h) && Freeable(h, p)
    requires var s, e := MergeStart(h, p - HEADER), MergeEnd(h, p - HEADER);
      && OneHoleInstead(h, g, s, e, e - s) && IndexAfterFree(h, g, p) && g.end == h.end && g.start == h.start
      && HeaderAt(g.mem, s, Cell(e - s, true)) && FooterAt(g.mem, e, s)
    ensures Good(g, MergeStart(h, p - HEADER))
  {
    hide HeaderAt, FooterAt, MergeStart, MergeEnd, Wf;
    MergeStretch(h, p);
  }

  lemma AbsorbedRepaired(h: Heap, p: nat)
    requires Wf(h) && Freeable(h, p)
    requires p - HEADER + h.cells[p - HEADER].size < MergeEnd(h, p - HEADER) != h.end
    ensures Wf(ReleaseRepaired(h, p))
  {
    hide Release, Merge, MergeMem, MergeStart, MergeEnd, HeaderAt, FooterAt, PutWord, Spelled, Tagged;
    var a, r, g := p - HEADER, Release(h, p), ReleaseRepaired(h, p);
    var s, e := MergeStart(h, a), MergeEnd(h, a);
    AbsorbedPatch(h, p);
    StretchEdges(h, p);
    MergeTags(h, p);
    MergeCells(h, p);
    InnerBounds(h, p);
    ReleaseIndex(h, p);
    MergedCellInPlace(h, r, s, e);
    RepairedTags(r.mem, s, a + h.cells[a].size, e);
    assert OneHoleInstead(h, g, s, e, e - s);
    hide OneHoleInstead;
    RetagStaysPatched(h, r, g, s, e);
    RepairedCellIsGood(h, p, g);
    PatchKeepsWf(h, g, s, e) by { hide Good, Patched; }
  }
}
