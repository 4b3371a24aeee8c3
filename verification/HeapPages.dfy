/** The pages under the heap: what expansion maps and contraction unmaps, over whole runs. */
module HeapPages {
  import opened Machine
  import opened HeapCells
  import opened HeapAlloc
  import opened HeapExpand
  import opened HeapFree
  import opened HeapRuns

  /** Up to `max`, no page at or above the end of the heap holds a frame, but for the one right at the
      end of a heap of the least length. (Below the end every page holds one, by Wf.) */
  ghost predicate NoStrayPages(h: Heap) {
    && h.end <= h.max
    && (forall x | x in h.pages :: x % PAGE == 0)
    && forall x | x in h.pages && h.end <= x < h.max :: x == h.end == h.start + MIN_SIZE
  }

  lemma ExpandKeepsPages(h: Heap, need: nat)
    requires Expandable(h, need) && NoStrayPages(h)
    ensures NoStrayPages(Expand(h, need))
    ensures forall x | x < h.end || NewEnd(h, need) <= x :: x in Expand(h, need).pages <==> x in h.pages
  {
  }

  lemma {:induction false} MallocKeepsPages(h: Heap, size: nat, align: bool)
    requires Wf(h) && size + OVERHEAD < 0x8000_0000 && AllocDomain(h, size, align) && NoStrayPages(h)
    ensures NoStrayPages(Malloc(h, size, align).0)
    decreases h.max - h.end
  {
    hide Expand, NoStrayPages, Spelled, Tagged, Configured;
    var need := size + OVERHEAD;
    var i := Find(h, 0, need, align);
    if i < |h.index| {
      HoleIsUsable(h, i);
      CutKeepsPages(h, i, need, align);
    } else {
      WfIsExpandable(h, need);
      ExpandKeepsWf(h, need);
      ExpansionAmount(h, need);
      ExpandMovesEnd(h, need);
      ExpandKeepsPages(h, need);
      MallocKeepsPages(Expand(h, need), size, align);
    }
  }

  lemma CutKeepsPages(h: Heap, i: nat, need: nat, align: bool)
    requires Usable(h, i) && OVERHEAD <= need && FitsAt(h, i, need, align) && NoStrayPages(h)
    ensures NoStrayPages(if align then Carve(h, i, need) else Take(h, i, need))
  {
  }

  lemma FreeKeepsPages(h: Heap, p: nat)
    requires Wf(h) && Freeable(h, p) && MergeDomain(h, p) && NoStrayPages(h)
    ensures NoStrayPages(Release(h, p))
    ensures forall x | x <= Release(h, p).end || h.end <= x :: x in Release(h, p).pages <==> x in h.pages
  {
    hide Release, MergeStart, MergeEnd, Spelled, Tagged, MergeMem, PutFooter, PutWord, OneHoleInstead;
    if MergeEnd(h, p - HEADER) == h.end {
      OuterShape(h, p);
    } else {
      InnerBounds(h, p);
    }
  }

  /** Exactly one page more than the heap needs is left when contraction shortens it: the loop that gives
      up frames stops one page short. */
  lemma ContractionLeavesOnePage(h: Heap, p: nat)
    requires Wf(h) && Freeable(h, p) && MergeDomain(h, p) && MergeEnd(h, p - HEADER) == h.end
    requires h.start + MIN_SIZE < h.end
    requires forall x | h.start <= x < h.max :: x in h.pages <==> x < h.end && x % PAGE == 0
    ensures var g := Release(h, p);
      forall x | g.start <= x < g.max :: x in g.pages <==> x <= g.end && x % PAGE == 0
  {
    hide Release, MergeStart, MergeEnd, Spelled, Tagged, MergeMem, PutFooter, PutWord, OneHoleInstead;
    OuterShape(h, p);
  }

  /** No run in the domain leaves frames behind in pages that the heap has given up. */
  lemma {:induction false} NoStrayPagesAfterRuns(c: Client, ops: seq<Op>)
    requires Sound(c) && RunInDomain(c, ops) && NoStrayPages(c.h)
    ensures NoStrayPages(Run(c, ops).h)
    decreases |ops|
  {
    hide Wf, NoStrayPages, Release, Malloc, AllocDomain, MergeDomain, Freeable;
    if ops != [] {
      StepRefines(c, ops[0]);
      match ops[0] {
        case Alloc(size, align) => MallocKeepsPages(c.h, size, align);
        case Free(p, _) => if p != 0 { FreeKeepsPages(c.h, p); }
        case Store(a, v) => SamePages(c.h, Step(c, ops[0]).h);
      }
      NoStrayPagesAfterRuns(Step(c, ops[0]), ops[1..]);
    }
  }

  lemma SamePages(h: Heap, g: Heap)
    requires NoStrayPages(h) && g == h.(mem := g.mem)
    ensures NoStrayPages(g)
  {
  }
}
