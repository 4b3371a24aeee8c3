/** Where a request is met and how far it makes the heap grow, in numbers. */
module HeapPlacement {
  import opened Machine
  import opened OrderedArrays
  import opened HeapCells
  import opened HeapAlloc
  import opened HeapExpand

  /** The bytes from `a` to `e` are a hole up to `b`, a block up to `end`, and a hole from there on. */
  ghost predicate Cut(g: Heap, a: nat, b: nat, end: nat, e: nat) {
    && a <= b < end <= e
    && (a < b ==> a in g.cells && g.cells[a] == Cell(b - a, true))
    && b in g.cells && g.cells[b] == Cell(end - b, false)
    && (end < e ==> end in g.cells && g.cells[end] == Cell(e - end, true))
  }

  /** The request of `need` bytes is met in the hole at `a`, as far in front as it may be. What lies in front
      of the block stays a hole, and so does what lies behind it if it has room for the tags of a cell. */
  ghost predicate CutFrom(h: Heap, a: nat, need: nat, align: bool, g: Heap, p: nat)
    requires a in h.cells
  {
    var b, e := if align then Aligned(a) else a, a + h.cells[a].size;
    p == b + HEADER && Cut(g, a, b, if e < b + need + OVERHEAD then e else b + need, e)
  }

  /** A request is met in the first hole with room for it. */
  lemma PlacedInFirstHole(h: Heap, size: nat, align: bool)
    requires Wf(h) && size + OVERHEAD < 0x8000_0000 && AllocDomain(h, size, align)
    requires Find(h, 0, size + OVERHEAD, align) < |h.index|
    ensures var need, (g, p) := size + OVERHEAD, Malloc(h, size, align);
      CutFrom(h, h.index[Find(h, 0, need, align)], need, align, g, p)
  {
    hide *;
    if align {
      PlacedOnPage(h, size);
    } else {
      PlacedInFront(h, size);
    }
  }

  lemma PlacedInFront(h: Heap, size: nat)
    requires Wf(h) && size + OVERHEAD < 0x8000_0000 && AllocDomain(h, size, false)
    requires Find(h, 0, size + OVERHEAD, false) < |h.index|
    ensures var need, (g, p) := size + OVERHEAD, Malloc(h, size, false);
      CutFrom(h, h.index[Find(h, 0, need, false)], need, false, g, p)
  {
    hide Take, Carve, Malloc, AllocDomain, Spelled, Tagged, Cut, Find, FitsAt;
    MallocTakes(h, size);
    CutOff(h, Find(h, 0, size + OVERHEAD, false), size + OVERHEAD);
  }

  lemma PlacedOnPage(h: Heap, size: nat)
    requires Wf(h) && size + OVERHEAD < 0x8000_0000 && AllocDomain(h, size, true)
    requires Find(h, 0, size + OVERHEAD, true) < |h.index|
    ensures var need, (g, p) := size + OVERHEAD, Malloc(h, size, true);
      CutFrom(h, h.index[Find(h, 0, need, true)], need, true, g, p)
  {
    hide Take, Carve, Malloc, AllocDomain, Spelled, Tagged, Cut, Aligned, Find, FitsAt, CarveDomain, Front;
    MallocCarves(h, size);
    CutOffFront(h, Find(h, 0, size + OVERHEAD, true), size + OVERHEAD);
  }

  lemma MallocCarves(h: Heap, size: nat)
    requires Wf(h) && size + OVERHEAD < 0x8000_0000 && AllocDomain(h, size, true)
    requires Find(h, 0, size + OVERHEAD, true) < |h.index|
    ensures var i := Find(h, 0, size + OVERHEAD, true);
      && Usable(h, i) && FitsAt(h, i, size + OVERHEAD, true) && CarveDomain(h, i, size + OVERHEAD)
      && h.index[i] + Front(h.index[i]) + HEADER >= 0
      && Malloc(h, size, true) == (Carve(h, i, size + OVERHEAD), h.index[i] + Front(h.index[i]) + HEADER)
  {
    hide Take, Carve, Expand, Spelled, Tagged;
    HoleIsUsable(h, Find(h, 0, size + OVERHEAD, true));
  }

  lemma CutOff(h: Heap, i: nat, need: nat)
    requires Usable(h, i) && OVERHEAD <= need && FitsAt(h, i, need, false)
    ensures var a := h.index[i]; var e := a + h.cells[a].size;
      Cut(Take(h, i, need), a, a, if e < a + need + OVERHEAD then e else a + need, e)
  {
    hide SplitMem, Inserted, Removed;
  }

  lemma CutOffFront(h: Heap, i: nat, need: nat)
    requires Usable(h, i) && OVERHEAD <= need && FitsAt(h, i, need, true) && CarveDomain(h, i, need)
    ensures var a := h.index[i]; var b, e := Aligned(a), a + h.cells[a].size;
      b == a + Front(a) && Cut(Carve(h, i, need), a, b, if e < b + need + OVERHEAD then e else b + need, e)
  {
    hide Carve, Rear, BlockSize, Offset, FitsAt, Front, Aligned;
    var a := h.index[i];
    CarvePartitions(h, i, need);
    CarveShape(h, i, need);
    NextPayload(a, Front(a));
  }

  lemma NextPayload(a: nat, f: nat)
    requires (a + f + HEADER) % PAGE == 0 && 0 < f <= PAGE
    ensures Aligned(a) == a + f
  {
    NextBoundary(a + HEADER);
  }

  /** The first page boundary farther than `need` from `end`. */
  ghost predicate NextPage(end: nat, need: nat, b: nat) {
    b % PAGE == 0 && end + need < b <= end + need + PAGE
  }

  /** One expansion takes the end to the first page boundary farther than the request from where it was. */
  lemma OneExpansion(h: Heap, size: nat, align: bool)
    requires Wf(h) && size + OVERHEAD < 0x8000_0000 && AllocDomain(h, size, align)
    requires Find(h, 0, size + OVERHEAD, align) == |h.index|
    ensures var need := size + OVERHEAD; Expandable(h, need) && var g := Expand(h, need);
      && Wf(g) && AllocDomain(g, size, align) && Malloc(h, size, align) == Malloc(g, size, align)
      && Expansions(h, size, align) == 1 + Expansions(g, size, align) && NextPage(h.end, need, g.end)
  {
    hide Expand, Spelled, Tagged, Expandable, Find, Take, Carve;
    var need := size + OVERHEAD;
    WfIsExpandable(h, need);
    ExpandKeepsWf(h, need);
    ExpansionAmount(h, need);
    ExpandMovesEnd(h, need);
  }

  lemma NoExpansion(h: Heap, size: nat, align: bool)
    requires Wf(h) && size + OVERHEAD < 0x8000_0000 && AllocDomain(h, size, align)
    requires Find(h, 0, size + OVERHEAD, align) < |h.index|
    ensures Expansions(h, size, align) == 0 && Malloc(h, size, align).0.end == h.end
  {
    hide Expand, Spelled, Tagged, Expandable, Inserted, Removed, SplitMem, SplitCells, PutHeader, PutFooter;
    HoleIsUsable(h, Find(h, 0, size + OVERHEAD, align));
  }

  /** A request that finds a hole leaves the end alone; each expansion moves it to the first page boundary
      that is farther than the request from where it was. */
  lemma EndAfterRequest(h: Heap, size: nat, align: bool)
    requires Wf(h) && size + OVERHEAD < 0x8000_0000 && AllocDomain(h, size, align)
    ensures var need, end := size + OVERHEAD, Malloc(h, size, align).0.end;
      match Expansions(h, size, align)
      case 0 => end == h.end && Find(h, 0, need, align) < |h.index|
      case 1 => NextPage(h.end, need, end) && Find(h, 0, need, align) == |h.index|
      case _ => align && exists mid: nat :: NextPage(h.end, need, mid) && NextPage(mid, need, end)
  {
    hide Expand, Malloc, Spelled, Tagged, Find, NextPage, Expandable;
    ExpansionsBounded(h, size, align);
    if Find(h, 0, size + OVERHEAD, align) < |h.index| {
      NoExpansion(h, size, align);
    } else {
      OneExpansion(h, size, align);
      var g := Expand(h, size + OVERHEAD);
      if Find(g, 0, size + OVERHEAD, align) < |g.index| {
        NoExpansion(g, size, align);
      } else {
        OneExpansion(g, size, align);
        var f := Expand(g, size + OVERHEAD);
        if Find(f, 0, size + OVERHEAD, align) < |f.index| {
          NoExpansion(f, size, align);
        } else {
          OneExpansion(f, size, align);
        }
      }
    }
  }
}
