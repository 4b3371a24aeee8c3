/** `expand`, and the recursion of `alloc` through it. */
module HeapExpand {
  import opened Machine
  import opened OrderedArrays
  import opened HeapCells
  import opened HeapAlloc

  /** The endmost indexed header: endmost in location, not in size. */
  function Highest(s: seq<nat>): (x: nat)
    requires |s| > 0
    ensures x in s && forall y | y in s :: y <= x
  {
    if |s| == 1 then s[0] else
    var x := Highest(s[1..]);
    assert forall y | y in s :: y == s[0] || y in s[1..];
    if s[0] > x then s[0] else x
  }

  /** The sentinel that stands for "no header found" in the scan for the endmost header. */
  const NO_INDEX := 0xFFFF

  function IndexOf(s: seq<nat>, x: nat): (i: nat)
    requires x in s
    ensures i < |s| && s[i] == x && x !in s[..i]
  {
    if s[0] == x then 0 else 1 + IndexOf(s[1..], x)
  }

  /** Whether `alloc` adds a hole at the old end: there is none to enlarge, or the endmost one stands at
      the very position that doubles as the sentinel. */
  predicate Appends(h: Heap) {
    h.index == [] || IndexOf(h.index, Highest(h.index)) == NO_INDEX
  }

  /** The rounding of `expand`, which adds a page even to a page multiple. */
  function RoundUp(x: nat): nat {
    if x >= PAGE then x / PAGE * PAGE + PAGE else x
  }

  function NewEnd(h: Heap, need: nat): nat
    requires h.start <= h.end
  {
    h.start + RoundUp(h.end - h.start + need)
  }

  /** The second ASSERT of `expand`, whose sums are those of 32-bit words. */
  predicate AssertPasses(h: Heap, need: nat)
    requires h.start <= h.end
  {
    (h.start + RoundUp(h.end - h.start + need) % WORD_LIMIT) % WORD_LIMIT <= h.max
  }

  /** It refuses to go beyond `max` exactly as long as the new end is a 32-bit address; past that the sum
      wraps, and it always lets the expansion through. */
  lemma AssertPassesIff(h: Heap, need: nat)
    requires Configured(h) && OVERHEAD <= need < 0x8000_0000
    ensures AssertPasses(h, need) <==> NewEnd(h, need) <= h.max || WORD_LIMIT <= NewEnd(h, need)
  {
    var x := h.end - h.start + need;
    assert RoundUp(x) <= x + PAGE;
    assert RoundUp(x) <= WORD_LIMIT;
  }

  /** Room below `max`, and a highest hole inside the heap; follows from Wf and the ASSERT in `expand`. */
  ghost predicate Expandable(h: Heap, need: nat) {
    && |h.mem| == WORD_LIMIT && PAGE <= h.start <= h.end && OVERHEAD <= need
    && h.end + OVERHEAD <= NewEnd(h, need) <= h.max <= WORD_LIMIT - PAGE
    && (h.index != [] ==>
          Highest(h.index) in h.cells && Highest(h.index) + h.cells[Highest(h.index)].size <= h.end)
  }

  /** The pages that hold a frame once those from `lo` up to `hi` are given one. */
  ghost function PagesWith(pages: set<nat>, lo: nat, hi: nat): set<nat> {
    pages + set x | lo <= x < hi && x % PAGE == 0
  }

  /** More pages at the end; the highest hole is enlarged by them, or a hole made of them. */
  ghost function Expand(h: Heap, need: nat): (g: Heap)
    requires Expandable(h, need)
  {
    var e := NewEnd(h, need);
    var grown := h.(end := e, pages := PagesWith(h.pages, h.end, e));
    if Appends(h) then
      var c := Cell(e - h.end, true);
      var m := PutFooter(PutHeader(h.mem, h.end, c), e, h.end);
      grown.(mem := m, cells := h.cells[h.end := c], index := Inserted<nat>(h.index, h.end, BySize(m)))
    else
      var a := Highest(h.index);
      var size := h.cells[a].size + (e - h.end);
      grown.(mem := PutFooter(PutWord(h.mem, a + 8, size), a + size, a), cells := h.cells[a := Cell(size, true)])
  }

  ghost predicate EndsInHole(h: Heap) {
    h.index != [] && Highest(h.index) in h.cells && Highest(h.index) + h.cells[Highest(h.index)].size == h.end
  }

  /** A hole is enlarged exactly when the highest one is the last cell. */
  ghost predicate ExpandDomain(h: Heap) {
    Appends(h) <==> !EndsInHole(h)
  }

  lemma ExpansionAmount(h: Heap, need: nat)
    requires Configured(h) && OVERHEAD <= need
    ensures NewEnd(h, need) >= h.end + PAGE && NewEnd(h, need) % PAGE == 0
    ensures h.end + need < NewEnd(h, need) <= h.end + need + PAGE
  {
    var x := h.end - h.start + need;
    var k, s := x / PAGE, h.start / PAGE;
    assert NewEnd(h, need) == (s + k + 1) * PAGE;
    assert (h.end - h.start) % PAGE == 0;
  }

  /** The new end is the first page boundary behind what was asked. */
  lemma NewEndIsLeast(h: Heap, need: nat, e: nat)
    requires Configured(h) && OVERHEAD <= need && e % PAGE == 0
    ensures NewEnd(h, need) <= e <==> h.end + need < e
  {
    hide NewEnd;
    ExpansionAmount(h, need);
    var k, n := e / PAGE, NewEnd(h, need) / PAGE;
    assert e == k * PAGE && NewEnd(h, need) == n * PAGE;
  }

  lemma WfIsExpandable(h: Heap, need: nat)
    requires Wf(h) && OVERHEAD <= need && NewEnd(h, need) <= h.max
    ensures Expandable(h, need)
    ensures h.index != [] ==> Highest(h.index) in h.cells && h.cells[Highest(h.index)].hole
  {
    ExpansionAmount(h, need);
    if h.index != [] {
      CellIsGood(h, Highest(h.index));
    }
  }

  lemma GrowHoleTags(m: Memory, a: nat, was: nat, size: nat)
    requires HeaderAt(m, a, Cell(was, true)) && OVERHEAD <= size && a + size <= |m| && a + size < WORD_LIMIT
    ensures var r := PutFooter(PutWord(m, a + 8, size), a + size, a);
      HeaderAt(r, a, Cell(size, true)) && FooterAt(r, a + size, a) && SameOutside(m, r, a, a + size)
  {
    hide PutFooter, FooterAt, PutWord;
    var m1 := PutWord(m, a + 8, size);
    assert HeaderAt(m1, a, Cell(size, true));
    var r := PutFooter(m1, a + size, a);
  }

  /** The heap still is covered by pages that hold frames. */
  lemma ExpandStaysConfigured(h: Heap, need: nat)
    requires Wf(h) && OVERHEAD <= need && NewEnd(h, need) <= h.max && Expandable(h, need)
    ensures Configured(Expand(h, need))
  {
    hide PutFooter, PutHeader, PutWord, Spelled, Tagged;
    ExpansionAmount(h, need);
  }

  /** The stretch that `expand` rewrites starts at the highest hole, or at the old end. */
  function Tail(h: Heap): nat {
    if Appends(h) then h.end else Highest(h.index)
  }

  lemma NothingAbove(h: Heap)
    requires Wf(h) && ExpandDomain(h)
    ensures forall x | x in h.cells :: x <= Tail(h)
    ensures Appends(h) ==> forall x | x in h.cells :: x < h.end && (h.cells[x].hole ==> x + h.cells[x].size != h.end)
    ensures !Appends(h) ==> Tail(h) in h.index && Tail(h) in h.cells && Tail(h) + h.cells[Tail(h)].size == h.end
    ensures Tail(h) <= h.end
  {
    hide Highest, IndexOf, Configured, HeaderAt, FooterAt;
    var a := Tail(h);
    forall x | x in h.cells
      ensures x < h.end && x <= a && (Appends(h) && h.cells[x].hole ==> x + h.cells[x].size != h.end)
    {
      CellIsGood(h, x);
      if !Appends(h) && a < x {
        InOrder(h, a, x);
      } else if Appends(h) && h.cells[x].hole && x < Highest(h.index) {
        CellIsGood(h, Highest(h.index));
        InOrder(h, x, Highest(h.index));
      }
    }
    assert h.start in h.cells;
  }

  /** What `expand` writes: a good hole from the tail to the new end, and nothing below the tail. */
  ghost predicate GrowsTail(h: Heap, g: Heap) {
    && Patched(h, g, Tail(h), g.end) && Good(g, Tail(h)) && g.end == Tail(h) + g.cells[Tail(h)].size
    && g.cells.Keys == h.cells.Keys + {Tail(h)} && g.cells[Tail(h)].hole
    && NoDuplicates(g.index) && forall x :: x in g.index <==> x in h.index || x == Tail(h)
  }

  lemma AppendGrowsTail(h: Heap, need: nat)
    requires Wf(h) && OVERHEAD <= need && NewEnd(h, need) <= h.max && Expandable(h, need)
    requires ExpandDomain(h) && Appends(h)
    ensures GrowsTail(h, Expand(h, need))
  {
    hide PutFooter, PutHeader, PutWord, HeaderAt, FooterAt, Highest, IndexOf, Inserted, EndsInHole, Appends;
    var g := Expand(h, need);
    NothingAbove(h);
    TagCell(h.mem, h.end, Cell(g.end - h.end, true));
    InsertionMembers<nat>(h.index, h.end, BySize(g.mem));
  }

  lemma EnlargeGrowsTail(h: Heap, need: nat)
    requires Wf(h) && OVERHEAD <= need && NewEnd(h, need) <= h.max && Expandable(h, need)
    requires ExpandDomain(h) && !Appends(h)
    ensures GrowsTail(h, Expand(h, need))
  {
    hide PutFooter, PutHeader, PutWord, HeaderAt, FooterAt, Highest;
    var g, a := Expand(h, need), Tail(h);
    NothingAbove(h);
    ExpansionAmount(h, need);
    CellIsGood(h, a);
    HoleIsUsable(h, IndexOf(h.index, a));
    GrowHoleTags(h.mem, a, h.cells[a].size, g.cells[a].size);
    assert Patched(h, g, a, g.end);
  }

  lemma ExpandGrowsTail(h: Heap, need: nat)
    requires Wf(h) && OVERHEAD <= need && NewEnd(h, need) <= h.max && Expandable(h, need) && ExpandDomain(h)
    ensures GrowsTail(h, Expand(h, need))
  {
    if Appends(h) {
      AppendGrowsTail(h, need);
    } else {
      EnlargeGrowsTail(h, need);
    }
  }

  lemma ExpandKeepsWf(h: Heap, need: nat)
    requires Wf(h) && OVERHEAD <= need && NewEnd(h, need) <= h.max && Expandable(h, need) && ExpandDomain(h)
    ensures Wf(Expand(h, need))
  {
    hide Expand, HeaderAt, FooterAt, Highest, Appends, EndsInHole;
    var g := Expand(h, need);
    ExpandStaysConfigured(h, need);
    ExpandGrowsTail(h, need);
    NothingAbove(h);
    PatchKeepsWf(h, g, Tail(h), g.end) by { hide Good, Patched; }
  }

  lemma AppendBesideHoleBreaks(h: Heap, need: nat)
    requires Wf(h) && Expandable(h, need) && EndsInHole(h) && Appends(h)
    ensures !Wf(Expand(h, need))
  {
    hide Wf, Highest, Appends, Inserted, PutFooter, PutHeader;
    var g, a := Expand(h, need), Highest(h.index);
    CellIsTagged(h, a);
    if Wf(g) {
      hide Expand;
      CellIsTagged(g, h.end);
      NoHoleBesideHole(g, a);
    }
  }

  lemma NoHoleBesideHole(h: Heap, a: nat)
    requires Wf(h) && a in h.cells && h.cells[a].hole && a + h.cells[a].size in h.cells
    ensures !h.cells[a + h.cells[a].size].hole
  {
    CellIsGood(h, a);
  }

  lemma EnlargeOverCellBreaks(h: Heap, need: nat)
    requires Wf(h) && Expandable(h, need) && !EndsInHole(h) && !Appends(h)
    ensures !Wf(Expand(h, need))
  {
    hide Wf, Highest, IndexOf, PutFooter, PutHeader, PutWord;
    var g, a := Expand(h, need), Highest(h.index);
    CellBehind(h, a);
    if Wf(g) {
      CellsInOrder(g, a, a + h.cells[a].size);
    }
  }

  lemma CellBehind(h: Heap, a: nat)
    requires Wf(h) && a in h.cells
    ensures OVERHEAD <= h.cells[a].size && (a + h.cells[a].size == h.end || a + h.cells[a].size in h.cells)
  {
    CellIsGood(h, a);
  }

  lemma CellsInOrder(h: Heap, a: nat, b: nat)
    requires Wf(h) && a in h.cells && b in h.cells && a < b
    ensures a + h.cells[a].size <= b
  {
    InOrder(h, a, b);
  }

  /** When the highest hole is not the last cell, enlarging it runs into the cell behind it; when it is,
      and the sentinel hides it, the hole added behind it touches it. */
  lemma ExpandKeepsWfIff(h: Heap, need: nat)
    requires Wf(h) && OVERHEAD <= need && NewEnd(h, need) <= h.max && Expandable(h, need)
    ensures Wf(Expand(h, need)) <==> ExpandDomain(h)
  {
    hide Wf, Expand, EndsInHole, Appends, Expandable;
    if ExpandDomain(h) {
      ExpandKeepsWf(h, need);
    } else if Appends(h) {
      AppendBesideHoleBreaks(h, need);
    } else {
      EnlargeOverCellBreaks(h, need);
    }
  }

  // ---------- alloc ----------

  /** Where the request `size` can be granted soundly: at every step of the recursion the chosen hole
      is fit for carving, or the heap is fit for expansion and stays below `max`. */
  ghost predicate AllocDomain(h: Heap, size: nat, align: bool)
    requires Wf(h) && size + OVERHEAD < 0x8000_0000
    decreases h.max - h.end
  {
    var need := size + OVERHEAD;
    var i := Find(h, 0, need, align);
    if i < |h.index| then
      align ==> CarveDomain(h, i, need)
    else
      && NewEnd(h, need) <= h.max
      && ExpandDomain(h)
      && (WfIsExpandable(h, need); ExpandKeepsWf(h, need); ExpansionAmount(h, need);
          AllocDomain(Expand(h, need), size, align))
  }

  /** `alloc`: the heap afterwards and the payload address returned. */
  ghost function Malloc(h: Heap, size: nat, align: bool): (r: (Heap, nat))
    requires Wf(h) && size + OVERHEAD < 0x8000_0000 && AllocDomain(h, size, align)
    decreases h.max - h.end
  {
    var need := size + OVERHEAD;
    var i := Find(h, 0, need, align);
    if i < |h.index| then
      HoleIsUsable(h, i);
      if align then (Carve(h, i, need), h.index[i] + Front(h.index[i]) + HEADER)
      else (Take(h, i, need), h.index[i] + HEADER)
    else
      WfIsExpandable(h, need);
      ExpandKeepsWf(h, need);
      ExpansionAmount(h, need);
      Malloc(Expand(h, need), size, align)
  }

  /** An unaligned request for which a hole is found is always in the domain, and is a single cut. */
  lemma MallocTakes(h: Heap, size: nat)
    requires Wf(h) && size + OVERHEAD < 0x8000_0000 && Find(h, 0, size + OVERHEAD, false) < |h.index|
    ensures AllocDomain(h, size, false)
    ensures var i := Find(h, 0, size + OVERHEAD, false);
      && Usable(h, i) && FitsAt(h, i, size + OVERHEAD, false)
      && Malloc(h, size, false) == (Take(h, i, size + OVERHEAD), h.index[i] + HEADER)
  {
    var i := Find(h, 0, size + OVERHEAD, false);
    HoleIsUsable(h, i);
    hide Wf, Take, Carve, Find, Usable, Expand, FitsAt, InPlace, HeaderAt, Tagged;
  }

  /** How many times `alloc` recurses through `expand`. */
  ghost function Expansions(h: Heap, size: nat, align: bool): nat
    requires Wf(h) && size + OVERHEAD < 0x8000_0000 && AllocDomain(h, size, align)
    decreases h.max - h.end
  {
    var need := size + OVERHEAD;
    if Find(h, 0, need, align) < |h.index| then 0 else
    WfIsExpandable(h, need);
    ExpandKeepsWf(h, need);
    ExpansionAmount(h, need);
    1 + Expansions(Expand(h, need), size, align)
  }

  /** After an expansion the heap ends in a hole longer than the request, which grows by at least a page
      with each further expansion. */
  lemma ExpansionHelps(h: Heap, need: nat)
    requires Wf(h) && OVERHEAD <= need && NewEnd(h, need) <= h.max && Expandable(h, need) && ExpandDomain(h)
    ensures var g := Expand(h, need);
      && EndsInHole(g) && g.cells[Highest(g.index)].size > need && g.end == NewEnd(h, need)
      && (EndsInHole(h) ==> g.cells[Highest(g.index)].size >= h.cells[Highest(h.index)].size + PAGE)
  {
    hide Highest, IndexOf, Inserted, PutFooter, PutHeader, PutWord, HeaderAt, FooterAt, Spelled, Tagged;
    ExpansionAmount(h, need);
    NothingAbove(h);
    ExpandGrowsTail(h, need);
    CellsOfIndexBelow(h);
  }

  lemma CellsOfIndexBelow(h: Heap)
    requires Wf(h)
    ensures forall x | x in h.index :: x in h.cells && x < h.end
  {
    forall x | x in h.index ensures x < h.end {
      CellIsGood(h, x);
    }
  }

  /** A hole that is long enough is found. */
  lemma LongHoleIsFound(h: Heap, need: nat, align: bool)
    requires Wf(h) && h.index != [] && Highest(h.index) in h.cells
    requires h.cells[Highest(h.index)].size >= need + (if align then PAGE else 0)
    ensures Find(h, 0, need, align) < |h.index|
  {
    var i := IndexOf(h.index, Highest(h.index));
    assert FitsAt(h, i, need, align);
  }

  /** An unaligned request expands at most once and a page-aligned one at most twice. */
  lemma ExpansionsBounded(h: Heap, size: nat, align: bool)
    requires Wf(h) && size + OVERHEAD < 0x8000_0000 && AllocDomain(h, size, align)
    ensures Expansions(h, size, align) <= if align then 2 else 1
  {
    hide Expand, Spelled, Tagged, Expandable;
    var need := size + OVERHEAD;
    if Find(h, 0, need, align) == |h.index| {
      WfIsExpandable(h, need);
      ExpandKeepsWf(h, need);
      ExpansionAmount(h, need);
      ExpansionHelps(h, need);
      var g := Expand(h, need);
      assert Expansions(h, size, align) == 1 + Expansions(g, size, align);
      if !align {
        LongHoleIsFound(g, need, align);
      } else if Find(g, 0, need, align) == |g.index| {
        WfIsExpandable(g, need);
        ExpandKeepsWf(g, need);
        ExpansionAmount(g, need);
        ExpansionHelps(g, need);
        var g2 := Expand(g, need);
        assert Expansions(g, size, align) == 1 + Expansions(g2, size, align);
        LongHoleIsFound(g2, need, align);
      }
    }
  }

  // ---------- what a request grants ----------

  /** A block of `h` that `g` still has, with every byte unchanged. */
  ghost predicate KeepsBlock(h: Heap, g: Heap, b: nat) {
    && b in h.cells && b in g.cells && !h.cells[b].hole && h.cells[b] == g.cells[b]
    && SameBytes(h.mem, g.mem, b, b + h.cells[b].size)
  }

  /** `g` keeps every block of `h` untouched and has just the one at `a` besides. */
  ghost predicate Grants(h: Heap, g: Heap, a: nat, need: nat) {
    && a in g.cells && !g.cells[a].hole && g.cells[a].size >= need
    && (a in h.cells ==> h.cells[a].hole)
    && (forall b {:trigger KeepsBlock(h, g, b)} | b in h.cells && !h.cells[b].hole :: KeepsBlock(h, g, b))
    && (forall b | b in g.cells && !g.cells[b].hole && b != a :: b in h.cells && !h.cells[b].hole)
    && g.start == h.start && g.max == h.max && h.end <= g.end
  }

  lemma OutsideBlocksKept(h: Heap, g: Heap, lo: nat, hi: nat, b: nat)
    requires Wf(h) && Patched(h, g, lo, hi) && b in h.cells && !h.cells[b].hole && (b < lo || hi <= b)
    ensures KeepsBlock(h, g, b)
  {
    OutsideIsGood(h, g, lo, hi, b);
  }

  lemma TakeGrants(h: Heap, i: nat, need: nat)
    requires Wf(h) && Usable(h, i) && OVERHEAD <= need && FitsAt(h, i, need, false)
    ensures Grants(h, Take(h, i, need), h.index[i], need)
  {
    hide Inserted, Removed, SplitMem, HeaderAt, FooterAt, Wf;
    var a, g := h.index[i], Take(h, i, need);
    HoleIsUsable(h, i);
    TakeIsAPatch(h, i, need);
    forall b | b in h.cells && !h.cells[b].hole ensures KeepsBlock(h, g, b) {
      OutsideBlocksKept(h, g, a, a + h.cells[a].size, b);
    }
  }

  lemma CarveGrants(h: Heap, i: nat, need: nat)
    requires Wf(h) && Usable(h, i) && OVERHEAD <= need && FitsAt(h, i, need, true) && CarveDomain(h, i, need)
    ensures Grants(h, Carve(h, i, need), h.index[i] + Front(h.index[i]), need)
  {
    hide Inserted, Removed, SplitMem, HeaderAt, FooterAt, PutFooter, PutHeader, Wf;
    var a, g := h.index[i], Carve(h, i, need);
    HoleIsUsable(h, i);
    CarvePartitions(h, i, need);
    CarveIsAPatch(h, i, need);
    forall b | b in h.cells && !h.cells[b].hole ensures KeepsBlock(h, g, b) {
      OutsideBlocksKept(h, g, a, a + h.cells[a].size, b);
    }
  }

  lemma ExpandKeepsBlocks(h: Heap, need: nat)
    requires Wf(h) && OVERHEAD <= need && NewEnd(h, need) <= h.max && Expandable(h, need) && ExpandDomain(h)
    ensures var g := Expand(h, need);
      && (forall b {:trigger KeepsBlock(h, g, b)} | b in h.cells && !h.cells[b].hole :: KeepsBlock(h, g, b))
      && (forall b | b in g.cells && !g.cells[b].hole :: b in h.cells && !h.cells[b].hole)
  {
    hide Expand, Highest, Appends, EndsInHole, Wf, Good, KeepsBlock;
    var g := Expand(h, need);
    ExpandGrowsTail(h, need);
    NothingAbove(h);
    forall b | b in h.cells && !h.cells[b].hole ensures KeepsBlock(h, g, b) {
      if !Appends(h) {
        CellIsTagged(h, Tail(h));
        CellIsTagged(h, b);
      }
      OutsideBlocksKept(h, g, Tail(h), g.end, b);
    }
  }

  lemma GrantsAfterExpand(h: Heap, e: Heap, g: Heap, a: nat, need: nat)
    requires e.start == h.start && e.max == h.max && h.end <= e.end
    requires forall b {:trigger KeepsBlock(h, e, b)} | b in h.cells && !h.cells[b].hole :: KeepsBlock(h, e, b)
    requires forall b | b in e.cells && !e.cells[b].hole :: b in h.cells && !h.cells[b].hole
    requires Grants(e, g, a, need)
    ensures Grants(h, g, a, need)
  {
    forall b | b in h.cells && !h.cells[b].hole ensures KeepsBlock(h, g, b) {
      assert KeepsBlock(h, e, b) && KeepsBlock(e, g, b);
    }
    assert a in h.cells && !h.cells[a].hole ==> KeepsBlock(h, e, a);
  }

  lemma FoundGrants(h: Heap, size: nat, align: bool)
    requires Wf(h) && size + OVERHEAD < 0x8000_0000 && AllocDomain(h, size, align)
    requires Find(h, 0, size + OVERHEAD, align) < |h.index|
    ensures var (g, p) := Malloc(h, size, align);
      Wf(g) && p >= HEADER && Grants(h, g, p - HEADER, size + OVERHEAD) && (align ==> p % PAGE == 0)
  {
    hide Take, Carve, Expand, Grants, Highest, Spelled, Tagged;
    var need := size + OVERHEAD;
    var i := Find(h, 0, need, align);
    HoleIsUsable(h, i);
    if align {
      CarveKeepsWf(h, i, need);
      CarveGrants(h, i, need);
      CarvePartitions(h, i, need);
    } else {
      TakeKeepsWf(h, i, need);
      TakeGrants(h, i, need);
    }
  }

  /** A granted request: the heap stays well formed, the new block is big enough and (if asked) its
      payload starts a page, and every other block keeps its place and all its bytes. */
  lemma {:induction false} MallocGrants(h: Heap, size: nat, align: bool)
    requires Wf(h) && size + OVERHEAD < 0x8000_0000 && AllocDomain(h, size, align)
    ensures var (g, p) := Malloc(h, size, align);
      Wf(g) && p >= HEADER && Grants(h, g, p - HEADER, size + OVERHEAD) && (align ==> p % PAGE == 0)
    decreases h.max - h.end
  {
    hide Take, Carve, Expand, Grants, Highest, Spelled, Tagged;
    var need := size + OVERHEAD;
    if Find(h, 0, need, align) < |h.index| {
      FoundGrants(h, size, align);
    } else {
      WfIsExpandable(h, need);
      ExpandKeepsWf(h, need);
      ExpandKeepsBlocks(h, need);
      ExpansionAmount(h, need);
      ExpandMovesEnd(h, need);
      var e := Expand(h, need);
      MallocGrants(e, size, align);
      var (g, p) := Malloc(e, size, align);
      GrantsAfterExpand(h, e, g, p - HEADER, need);
    }
  }

  lemma ExpandMovesEnd(h: Heap, need: nat)
    requires Expandable(h, need)
    ensures var g := Expand(h, need); g.start == h.start && g.max == h.max && h.end < g.end == NewEnd(h, need)
  {
  }
}
