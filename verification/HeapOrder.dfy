/** The order of the index: exactly which calls keep it sorted, and best fit over whole runs. */
module HeapOrder {
  import opened Machine
  import opened OrderedArrays
  import opened HeapCells
  import opened HeapAlloc
  import opened HeapExpand
  import opened HeapFree
  import opened HeapRuns
  import opened HeapLaws

  /** An array with one element inserted is sorted exactly if it was before. */
  lemma InsertionOrderedIff(s: seq<nat>, item: nat, m: Memory)
    ensures Ordered(Inserted<nat>(s, item, BySize(m)), BySize(m)) <==> Ordered(s, BySize(m))
  {
    var lt := BySize(m);
    SizesAreStrictWeak(m);
    if Ordered(s, lt) {
      OrderKept<nat>(s, item, lt);
    }
    var r, k := Inserted<nat>(s, item, lt), Place(s, item, lt);
    if Ordered(r, lt) {
      OrderKept<nat>(r, item, lt);
      RemovalUndoesInsertion<nat>(s, item, lt);
      assert Removed(r, k) == s;
    }
  }

  // ---------- a page-aligned carve ----------

  lemma CarveIndex(h: Heap, i: nat, need: nat)
    requires Usable(h, i) && OVERHEAD <= need && FitsAt(h, i, need, true)
    ensures var g := Carve(h, i, need);
      g.index == h.index || exists b: nat :: g.index == Inserted<nat>(h.index, b, BySize(g.mem))
  {
    hide Inserted, SplitMem, SplitCells, PutHeader, PutFooter, BlockSize, Rear;
  }

  lemma CarvedSizes(h: Heap, i: nat, need: nat, j: nat)
    requires Wf(h) && Usable(h, i) && OVERHEAD <= need && FitsAt(h, i, need, true) && CarveDomain(h, i, need)
    requires j < |h.index|
    ensures SizeAt(Carve(h, i, need).mem, h.index[j]) == if j == i then Front(h.index[i]) else SizeAt(h.mem, h.index[j])
  {
    hide Wf, Carve, SizeAt, Rear, BlockSize, Offset, Good;
    var a, x, g := h.index[i], h.index[j], Carve(h, i, need);
    WfIsConfigured(h);
    Distinct(h.index, i, j);
    HoleIsUsable(h, i);
    HoleIsUsable(h, j);
    CarvePartitions(h, i, need);
    CarveShape(h, i, need);
    CarveKeepsWf(h, i, need);
    SizeAndIndex(h, x);
    if x != a {
      CellsApart(h, a, x);
    }
    SizeAndIndex(g, x);
  }

  lemma CellsApart(h: Heap, a: nat, x: nat)
    requires Wf(h) && a in h.cells && x in h.cells && a != x
    ensures x < a || a + h.cells[a].size <= x
  {
    if a < x {
      InOrder(h, a, x);
    }
  }

  /** A carve leaves the front hole where the whole one stood: the index is still sorted exactly when no
      entry before it is longer than the front. */
  lemma CarveKeepsOrderIff(h: Heap, i: nat, need: nat)
    requires Wf(h) && Usable(h, i) && OVERHEAD <= need && FitsAt(h, i, need, true) && CarveDomain(h, i, need)
    requires Ordered(h.index, BySize(h.mem))
    ensures var g := Carve(h, i, need);
      Ordered(g.index, BySize(g.mem)) <==> FrontSuits(h, i)
  {
    hide Wf, Carve, Ordered, FitsAt, CarveDomain, SizeAt;
    var g, f := Carve(h, i, need), Front(h.index[i]);
    forall j | 0 <= j < |h.index|
      ensures SizeAt(g.mem, h.index[j]) == if j == i then f else SizeAt(h.mem, h.index[j])
    {
      CarvedSizes(h, i, need, j);
    }
    CarveIndex(h, i, need);
    if g.index != h.index {
      var b: nat :| g.index == Inserted<nat>(h.index, b, BySize(g.mem));
      InsertionOrderedIff(h.index, b, g.mem);
    }
    ResizedEntryOrder(h.index, h.mem, g.mem, i, f);
    LaterAreLonger(h, i, need);
  }

  ghost predicate FrontSuits(h: Heap, i: nat)
    requires i < |h.index|
  {
    forall j | 0 <= j < i :: SizeAt(h.mem, h.index[j]) <= Front(h.index[i])
  }

  lemma LaterAreLonger(h: Heap, i: nat, need: nat)
    requires Wf(h) && Usable(h, i) && OVERHEAD <= need && FitsAt(h, i, need, true) && CarveDomain(h, i, need)
    requires Ordered(h.index, BySize(h.mem))
    ensures forall j | i < j < |h.index| :: SizeAt(h.mem, h.index[j]) >= Front(h.index[i])
  {
    hide Wf, SizeAt, Rear, BlockSize, Offset;
    CarvePartitions(h, i, need);
    SizeAndIndex(h, h.index[i]);
    forall j | i < j < |h.index| ensures SizeAt(h.mem, h.index[j]) >= Front(h.index[i]) {
      assert !BySize(h.mem)(h.index[j], h.index[i]);
    }
  }

  // ---------- expansion ----------

  ghost predicate TailSuits(h: Heap, need: nat)
    requires Expandable(h, need)
  {
    Appends(h) || forall j | IndexOf(h.index, Highest(h.index)) < j < |h.index| ::
      SizeAt(h.mem, h.index[j]) >= h.cells[Highest(h.index)].size + (NewEnd(h, need) - h.end)
  }

  lemma ExpandedSizes(h: Heap, need: nat, x: nat)
    requires Wf(h) && OVERHEAD <= need && NewEnd(h, need) <= h.max && Expandable(h, need) && ExpandDomain(h)
    requires x in h.index
    ensures SizeAt(Expand(h, need).mem, x) ==
      if !Appends(h) && x == Highest(h.index) then h.cells[x].size + (NewEnd(h, need) - h.end) else SizeAt(h.mem, x)
  {
    hide Wf, SizeAt, Highest, IndexOf, Inserted, BySize, NewEnd;
    var g := Expand(h, need);
    ExpandKeepsWf(h, need);
    IndexedIsCell(h, x);
    CellsOfIndexBelow(h);
    SizeAndIndex(h, x);
    SizeAndIndex(g, x);
  }

  /** An expansion that adds a hole keeps the index sorted; one that enlarges the highest does exactly when
      no later entry is shorter than what it has become. */
  lemma ExpandKeepsOrderIff(h: Heap, need: nat)
    requires Wf(h) && OVERHEAD <= need && NewEnd(h, need) <= h.max && Expandable(h, need) && ExpandDomain(h)
    requires Ordered(h.index, BySize(h.mem))
    ensures var g := Expand(h, need);
      Ordered(g.index, BySize(g.mem)) <==> TailSuits(h, need)
  {
    hide Wf, Expand, Ordered, SizeAt, ExpandDomain, NewEnd, Highest, IndexOf, NoDuplicates;
    var g := Expand(h, need);
    CellsOfIndexBelow(h);
    forall x | x in h.index
      ensures SizeAt(g.mem, x) ==
        if !Appends(h) && x == Highest(h.index) then h.cells[x].size + (NewEnd(h, need) - h.end) else SizeAt(h.mem, x)
    {
      ExpandedSizes(h, need, x);
    }
    ExpandIndex(h, need);
    if Appends(h) {
      OrderTransfers(h.index, h.mem, g.mem);
      InsertionOrderedIff(h.index, h.end, g.mem);
    } else {
      var i := IndexOf(h.index, Highest(h.index));
      TailGrows(h, need, i);
    }
  }

  lemma ExpandIndex(h: Heap, need: nat)
    requires Expandable(h, need)
    ensures var g := Expand(h, need);
      g.index == if Appends(h) then Inserted<nat>(h.index, h.end, BySize(g.mem)) else h.index
  {
    hide Inserted, PutFooter, PutHeader, PutWord, Highest, IndexOf;
  }

  lemma TailGrows(h: Heap, need: nat, i: nat)
    requires Wf(h) && OVERHEAD <= need && NewEnd(h, need) <= h.max && Expandable(h, need) && ExpandDomain(h)
    requires Ordered(h.index, BySize(h.mem)) && !Appends(h) && i == IndexOf(h.index, Highest(h.index))
    ensures var g := Expand(h, need);
      Ordered(h.index, BySize(g.mem)) <==> TailSuits(h, need)
  {
    hide Wf, Expand, Ordered, SizeAt, ExpandDomain, Highest, NoDuplicates;
    var g, a := Expand(h, need), h.index[i];
    var size := h.cells[a].size + (NewEnd(h, need) - h.end);
    WfIsConfigured(h);
    ExpansionAmount(h, need);
    forall j | 0 <= j < |h.index|
      ensures SizeAt(g.mem, h.index[j]) == if j == i then size else SizeAt(h.mem, h.index[j])
    {
      ExpandedSizes(h, need, h.index[j]);
      Distinct(h.index, i, j);
    }
    ResizedEntryOrder(h.index, h.mem, g.mem, i, size);
    EarlierAreShorter(h, i);
  }

  lemma EarlierAreShorter(h: Heap, i: nat)
    requires Wf(h) && i < |h.index| && Ordered(h.index, BySize(h.mem))
    ensures h.index[i] in h.cells
    ensures forall j | 0 <= j < i :: SizeAt(h.mem, h.index[j]) <= h.cells[h.index[i]].size
  {
    hide SizeAt, Spelled, Tagged;
    SizeAndIndex(h, h.index[i]);
    forall j | 0 <= j < i ensures SizeAt(h.mem, h.index[j]) <= h.cells[h.index[i]].size {
      assert !BySize(h.mem)(h.index[i], h.index[j]);
    }
  }

  // ---------- requests and runs ----------

  /** Where a request keeps the index sorted at each step of its recursion. */
  ghost predicate RequestSuits(h: Heap, size: nat, align: bool)
    requires Wf(h) && size + OVERHEAD < 0x8000_0000 && AllocDomain(h, size, align)
    decreases h.max - h.end
  {
    var need := size + OVERHEAD;
    var i := Find(h, 0, need, align);
    if i < |h.index| then
      align ==> FrontSuits(h, i)
    else
      WfIsExpandable(h, need);
      ExpandKeepsWf(h, need);
      ExpansionAmount(h, need);
      TailSuits(h, need) && RequestSuits(Expand(h, need), size, align)
  }

  lemma {:induction false} RequestKeepsOrder(h: Heap, size: nat, align: bool)
    requires Wf(h) && size + OVERHEAD < 0x8000_0000 && AllocDomain(h, size, align) && RequestSuits(h, size, align)
    requires Ordered(h.index, BySize(h.mem))
    ensures var g := Malloc(h, size, align).0;
      Ordered(g.index, BySize(g.mem))
    decreases h.max - h.end
  {
    hide Take, Carve, Expand, Ordered, Highest, Spelled, Tagged, FrontSuits, TailSuits, BySize, Appends, EndsInHole;
    var need := size + OVERHEAD;
    var i := Find(h, 0, need, align);
    if i < |h.index| {
      HoleIsUsable(h, i);
      if align {
        CarveKeepsOrderIff(h, i, need);
      } else {
        TakeKeepsOrder(h, i, need);
      }
    } else {
      WfIsExpandable(h, need);
      ExpandKeepsWf(h, need);
      ExpansionAmount(h, need);
      ExpandMovesEnd(h, need);
      ExpandKeepsOrderIff(h, need);
      RequestKeepsOrder(Expand(h, need), size, align);
    }
  }

  /** A merged hole that keeps its place among the other entries. */
  ghost predicate MergeSuits(h: Heap, p: nat)
    requires Freeable(h, p)
  {
    var w, s := Merge(h, p - HEADER).index, MergeStart(h, p - HEADER);
    s == p - HEADER || forall i, j | 0 <= i < |w| && 0 <= j < |w| && w[i] == s ::
      && (j < i ==> SizeAt(h.mem, w[j]) <= SizeAfterFree(h, p))
      && (i < j ==> SizeAt(h.mem, w[j]) >= SizeAfterFree(h, p))
  }

  lemma FreeKeepsOrderIff(h: Heap, p: nat)
    requires Wf(h) && Freeable(h, p) && MergeDomain(h, p) && Ordered(h.index, BySize(h.mem))
    ensures var g := Release(h, p);
      Ordered(g.index, BySize(g.mem)) <==> MergeSuits(h, p)
  {
    hide Wf, Release, Merge, MergeEnd, MergeStart, Ordered, MergeDomain, SizeAfterFree, SizeAt, NoDuplicates;
    var w, s := Merge(h, p - HEADER).index, MergeStart(h, p - HEADER);
    MergedIndexOrdered(h, p);
    if s == p - HEADER {
      FreeKeepsOrder(h, p);
    } else {
      LeftHoleIsIndexed(h, p);
      var i := IndexOf(w, s);
      LeftMergeKeepsOrderIff(h, p, i);
      forall k | 0 <= k < |w| && w[k] == s ensures k == i {
        Distinct(w, i, k);
      }
    }
  }

  lemma LeftHoleIsIndexed(h: Heap, p: nat)
    requires Wf(h) && Freeable(h, p) && MergeStart(h, p - HEADER) != p - HEADER
    ensures MergeStart(h, p - HEADER) < p - HEADER && MergeStart(h, p - HEADER) in h.index
    ensures MergeStart(h, p - HEADER) != p - HEADER + h.cells[p - HEADER].size
  {
    CellIsGood(h, MergeStart(h, p - HEADER));
  }

  /** The steps that keep a sorted index sorted: whatever they do to an indexed size, it suits its place. */
  ghost predicate OrderStays(c: Client, op: Op)
    requires Sound(c) && InDomain(c, op)
  {
    match op
    case Alloc(size, align) => RequestSuits(c.h, size, align)
    case Free(p, _) => p != 0 ==> MergeSuits(c.h, p)
    case Store(a, v) => true
  }

  lemma StepKeepsOrder(c: Client, op: Op)
    requires Sound(c) && InDomain(c, op) && OrderStays(c, op) && Ordered(c.h.index, BySize(c.h.mem))
    ensures Ordered(Step(c, op).h.index, BySize(Step(c, op).h.mem))
  {
    hide Wf, Ordered, Release, Malloc, AllocDomain, RequestSuits, MergeSuits, MergeDomain, Freeable;
    SoundIsWf(c);
    match op
    case Alloc(size, align) => RequestKeepsOrder(c.h, size, align);
    case Free(p, _) =>
      if p != 0 {
        FreeKeepsOrderIff(c.h, p);
      }
    case Store(a, v) => StoreKeepsOrder(c, a, v);
  }

  lemma StoreKeepsOrder(c: Client, a: nat, v: u8)
    requires Sound(c) && InDomain(c, Store(a, v)) && Ordered(c.h.index, BySize(c.h.mem))
    ensures Ordered(Step(c, Store(a, v)).h.index, BySize(Step(c, Store(a, v)).h.mem))
  {
    hide Wf, Ordered;
    StoreRefines(c, a, v);
    var h, g := c.h, Step(c, Store(a, v)).h;
    forall x | x in h.index ensures SizeAt(h.mem, x) == SizeAt(g.mem, x) {
      IndexedIsCell(h, x);
      SizeAndIndex(h, x);
      SizeAndIndex(g, x);
    }
    OrderTransfers(h.index, h.mem, g.mem);
  }

  ghost predicate OrderStaysThroughout(c: Client, ops: seq<Op>)
    requires Sound(c) && RunInDomain(c, ops)
    decreases |ops|
  {
    ops == [] || (OrderStays(c, ops[0]) && (StepRefines(c, ops[0]); OrderStaysThroughout(Step(c, ops[0]), ops[1..])))
  }

  /** Along every run of such steps, from a sorted index on, each request takes a smallest hole that
      fits, and is refused one only when none fits. */
  lemma {:induction false} BestFitThroughRuns(c: Client, ops: seq<Op>, need: nat)
    requires Sound(c) && RunInDomain(c, ops) && OrderStaysThroughout(c, ops) && Ordered(c.h.index, BySize(c.h.mem))
    ensures var h := Run(c, ops).h; var k := Find(h, 0, need, false);
      && Ordered(h.index, BySize(h.mem))
      && (k == |h.index| <==> forall a | a in h.cells && h.cells[a].hole :: h.cells[a].size < need)
      && (k < |h.index| ==> forall a | a in h.cells && h.cells[a].hole && h.cells[a].size >= need ::
            h.cells[h.index[k]].size <= h.cells[a].size)
    decreases |ops|
  {
    hide Wf, Step, InDomain, OrderStays, Ordered;
    if ops == [] {
      FindIsBestFit(c.h, need);
    } else {
      StepRefines(c, ops[0]);
      StepKeepsOrder(c, ops[0]);
      BestFitThroughRuns(Step(c, ops[0]), ops[1..], need);
    }
  }
}
