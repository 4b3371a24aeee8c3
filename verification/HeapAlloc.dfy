/** `alloc`: search, split, page-aligned carve, expansion and the recursion over them. */
module HeapAlloc {
  import opened Machine
  import opened OrderedArrays
  import opened HeapCells

  // ---------- find_smallest_hole ----------

  /** Bytes that the search sets aside so that the payload starts on a page boundary, and never none: a
      whole page if it does so anyway. */
  function Offset(a: nat): (o: nat)
    ensures PAGE <= a ==> (a + HEADER + o) % PAGE == 0 && 0 < o <= PAGE
  {
    if a + HEADER >= PAGE then PAGE - (a + HEADER) % PAGE else 0
  }

  predicate Fits(size: nat, a: nat, need: nat, align: bool) {
    if align then size - Offset(a) >= need else size >= need
  }

  predicate FitsAt(h: Heap, i: nat, need: nat, align: bool)
    requires i < |h.index| && h.index[i] in h.cells
  {
    Fits(h.cells[h.index[i]].size, h.index[i], need, align)
  }

  /** The first indexed hole from position `i` on that fits, or |index| when none does. */
  function Find(h: Heap, i: nat, need: nat, align: bool): (k: nat)
    requires i <= |h.index| && forall a | a in h.index :: a in h.cells
    ensures i <= k <= |h.index|
    ensures forall j | i <= j < k :: !FitsAt(h, j, need, align)
    ensures k < |h.index| ==> FitsAt(h, k, need, align)
    decreases |h.index| - i
  {
    if i == |h.index| || FitsAt(h, i, need, align) then i else Find(h, i + 1, need, align)
  }

  /** The search passes over a hole exactly when what is asked does not fit behind its start, or, for a
      page-aligned request, behind the first page boundary that comes after its header. */
  lemma FindStopsAt(h: Heap, need: nat, align: bool)
    requires Wf(h)
    ensures var k := Find(h, 0, need, align);
      && (forall j | 0 <= j < k :: Room(h, h.index[j], align) < need)
      && (k < |h.index| ==> Room(h, h.index[k], align) >= need)
  {
    hide Spelled, Tagged;
    var k := Find(h, 0, need, align);
    forall j | 0 <= j < |h.index| ensures FitsAt(h, j, need, align) <==> Room(h, h.index[j], align) >= need {
      CellIsTagged(h, h.index[j]);
      NextBoundary(h.index[j] + HEADER);
    }
  }

  /** Where the block of a page-aligned request goes: its payload starts the next page. */
  function Aligned(a: nat): nat {
    ((a + HEADER) / PAGE + 1) * PAGE - HEADER
  }

  /** Bytes from the header to the end of the hole; page-aligned, as if the payload began at the next page. */
  ghost function Room(h: Heap, a: nat, align: bool): int
    requires a in h.cells
  {
    if align then a + h.cells[a].size - Aligned(a) else h.cells[a].size
  }

  lemma NextBoundary(x: nat)
    ensures (x / PAGE + 1) * PAGE == x + (PAGE - x % PAGE)
  {
  }

  // ---------- cutting a block out of a hole ----------

  /** What the block takes of a hole of size `c`: all of it if the rest could not hold its own tags. */
  function BlockSize(c: nat, need: nat): (n: nat)
    requires need <= c
    ensures need <= n <= c && (n < c <==> OVERHEAD <= c - need) && (n < c ==> n == need)
  {
    if c - need < OVERHEAD then c else need
  }

  /** Tags for a block of size `n` at `a`, and for a hole of size `rest` (if any) after it, whose
      footer ends at `e`. */
  function SplitMem(m: Memory, a: nat, n: nat, rest: nat, e: nat): (r: Memory)
    requires |m| == WORD_LIMIT && OVERHEAD <= n && a + n + HEADER <= WORD_LIMIT && rest < WORD_LIMIT
    requires FOOTER <= e <= WORD_LIMIT
    ensures |r| == |m|
  {
    var m1 := PutFooter(PutHeader(m, a, Cell(n, false)), a + n, a);
    if rest > 0 then PutFooter(PutHeader(m1, a + n, Cell(rest, true)), e, a + n) else m1
  }

  function SplitCells(cells: map<nat, Cell>, a: nat, n: nat, rest: nat): map<nat, Cell> {
    var block := cells[a := Cell(n, false)];
    if rest > 0 then block[a + n := Cell(rest, true)] else block
  }

  lemma SplitTags(m: Memory, a: nat, n: nat, rest: nat)
    requires |m| == WORD_LIMIT && OVERHEAD <= n && a + n + rest + HEADER <= WORD_LIMIT
    requires rest == 0 || OVERHEAD <= rest
    ensures var r := SplitMem(m, a, n, rest, a + n + rest);
      && SameOutside(m, r, a, a + n + rest)
      && HeaderAt(r, a, Cell(n, false)) && FooterAt(r, a + n, a)
      && (rest > 0 ==> HeaderAt(r, a + n, Cell(rest, true)) && FooterAt(r, a + n + rest, a + n))
  {
    hide PutHeader, PutFooter, HeaderAt, FooterAt;
    TagCell(m, a, Cell(n, false));
    var m1 := PutFooter(PutHeader(m, a, Cell(n, false)), a + n, a);
    if rest > 0 {
      TagCell(m1, a + n, Cell(rest, true));
      TagsSurvive(m1, SplitMem(m, a, n, rest, a + n + rest), a + n, a + n + rest, a, Cell(n, false));
    }
  }

  /** The i-th indexed hole lies within addressable memory. */
  ghost predicate Usable(h: Heap, i: nat) {
    && i < |h.index| && h.index[i] in h.cells && |h.mem| == WORD_LIMIT
    && PAGE <= h.index[i] && h.index[i] + h.cells[h.index[i]].size <= WORD_LIMIT - PAGE
  }

  /** An unaligned request cut from the hole at index position `i`. */
  ghost function Take(h: Heap, i: nat, need: nat): (g: Heap)
    requires Usable(h, i) && OVERHEAD <= need && FitsAt(h, i, need, false)
  {
    var a := h.index[i];
    var c := h.cells[a].size;
    var n := BlockSize(c, need);
    var m := SplitMem(h.mem, a, n, c - n, a + c);
    var without := Removed(h.index, i);
    h.(mem := m, cells := SplitCells(h.cells, a, n, c - n),
       index := if c > n then Inserted<nat>(without, a + n, BySize(m)) else without)
  }

  /** The hole that a page-aligned request leaves in front: it ends where the block's header starts. */
  function Front(a: nat): int {
    PAGE - a % PAGE - HEADER
  }

  /** What is left behind the block, in 32-bit arithmetic. */
  function Rear(c: nat, a: nat, need: nat): u32
    requires need <= c
  {
    (c - Front(a) - BlockSize(c, need)) % WORD_LIMIT
  }

  /** A page-aligned request cut from the hole at index position `i`; the front keeps its index slot. */
  ghost function Carve(h: Heap, i: nat, need: nat): (g: Heap)
    requires Usable(h, i) && OVERHEAD <= need && FitsAt(h, i, need, true)
  {
    var a := h.index[i];
    var c := h.cells[a].size;
    var n, f, rest := BlockSize(c, need), Front(a), Rear(c, a, need);
    var front := Cell(f % WORD_LIMIT, true);
    var m0 := PutFooter(PutHeader(h.mem, a, front), a + f, a);
    var m := SplitMem(m0, a + f, n, rest, a + c);
    h.(mem := m, cells := SplitCells(h.cells[a := front], a + f, n, rest),
       index := if rest > 0 then Inserted<nat>(h.index, a + f + n, BySize(m)) else h.index)
  }

  /** What the code silently needs of the chosen hole: room for the tags of the front and rear holes. */
  predicate CarveDomain(h: Heap, i: nat, need: nat)
    requires i < |h.index| && h.index[i] in h.cells && need <= h.cells[h.index[i]].size
  {
    var a := h.index[i];
    var rest := Rear(h.cells[a].size, a, need);
    a % PAGE <= PAGE - HEADER - OVERHEAD && (rest == 0 || OVERHEAD <= rest)
  }

  lemma HoleIsUsable(h: Heap, i: nat)
    requires Wf(h) && i < |h.index|
    ensures Usable(h, i)
    ensures Good(h, h.index[i]) && h.cells[h.index[i]].hole
    ensures NothingInside(h, h.index[i]) && BetweenBlocks(h, h.index[i])
  {
    var a := h.index[i];
    CellIsGood(h, a);
    forall x | a < x < a + h.cells[a].size ensures x !in h.cells && x !in h.index {
      assert x in h.cells ==> Before(h.cells, a, x);
    }
    forall b | b in h.cells && b + h.cells[b].size == a ensures !h.cells[b].hole {
      CellIsGood(h, b);
    }
  }

  /** No cell starts strictly inside the one at `a`. */
  ghost predicate NothingInside(h: Heap, a: nat)
    requires a in h.cells
  {
    forall x | a < x < a + h.cells[a].size :: x !in h.cells && x !in h.index
  }

  /** The cells on both sides of the one at `a` are blocks. */
  ghost predicate BetweenBlocks(h: Heap, a: nat)
    requires a in h.cells
  {
    && (forall b | b in h.cells && b + h.cells[b].size == a :: !h.cells[b].hole)
    && (a + h.cells[a].size in h.cells ==> !h.cells[a + h.cells[a].size].hole)
  }

  /** The index after a hole `a` lost its entry and (if `rest` is not 0) `b` gained one. */
  ghost predicate IndexMoved(h: Heap, g: Heap, a: nat, b: nat, rest: nat) {
    NoDuplicates(g.index) && forall x :: x in g.index <==> (x in h.index && x != a) || (rest > 0 && x == b)
  }

  lemma TakeMovesIndex(h: Heap, i: nat, need: nat)
    requires Wf(h) && Usable(h, i) && OVERHEAD <= need && FitsAt(h, i, need, false)
    ensures var c := h.cells[h.index[i]].size; var n := BlockSize(c, need);
      IndexMoved(h, Take(h, i, need), h.index[i], h.index[i] + n, c - n)
  {
    hide Inserted, Removed, SplitMem;
    var a, c, g := h.index[i], h.cells[h.index[i]].size, Take(h, i, need);
    var n := BlockSize(c, need);
    HoleIsUsable(h, i);
    RemovalMembers(h.index, i);
    InsertionMembers<nat>(Removed(h.index, i), a + n, BySize(g.mem));
  }

  lemma TakeIsAPatch(h: Heap, i: nat, need: nat)
    requires Wf(h) && Usable(h, i) && OVERHEAD <= need && FitsAt(h, i, need, false)
    ensures Patched(h, Take(h, i, need), h.index[i], h.index[i] + h.cells[h.index[i]].size)
  {
    hide Inserted, Removed, SplitMem, HeaderAt, FooterAt;
    var a, c := h.index[i], h.cells[h.index[i]].size;
    var n := BlockSize(c, need);
    HoleIsUsable(h, i);
    SplitTags(h.mem, a, n, c - n);
    TakeMovesIndex(h, i, need);
  }

  lemma TakePieces(h: Heap, i: nat, need: nat)
    requires Wf(h) && Usable(h, i) && OVERHEAD <= need && FitsAt(h, i, need, false)
    ensures var a, c, g := h.index[i], h.cells[h.index[i]].size, Take(h, i, need);
      var n := BlockSize(c, need);
      && Good(g, a) && (c > n ==> Good(g, a + n)) && Before(g.cells, a, a + n) && Configured(g) && NoDuplicates(g.index)
  {
    hide Inserted, Removed, SplitMem, HeaderAt, FooterAt;
    var a, c := h.index[i], h.cells[h.index[i]].size;
    var n := BlockSize(c, need);
    HoleIsUsable(h, i);
    SplitTags(h.mem, a, n, c - n);
    TakeMovesIndex(h, i, need);
  }

  /** Splitting a hole keeps the heap well formed. */
  lemma TakeKeepsWf(h: Heap, i: nat, need: nat)
    requires Wf(h) && Usable(h, i) && OVERHEAD <= need && FitsAt(h, i, need, false)
    ensures Wf(Take(h, i, need))
  {
    hide Inserted, Removed, SplitMem, HeaderAt, FooterAt, Tagged, InPlace;
    var a, c, g := h.index[i], h.cells[h.index[i]].size, Take(h, i, need);
    HoleIsUsable(h, i);
    TakePieces(h, i, need);
    TakeIsAPatch(h, i, need);
    assert forall x | x in g.cells && a <= x < a + c :: x == a || x == a + BlockSize(c, need);
    TakeMovesIndex(h, i, need);
    PatchKeepsWf(h, g, a, a + c) by { hide Good, Patched, Wf; }
  }

  // ---------- page-aligned requests ----------

  /** Inside the domain the search's offset is exactly the front hole, so the fit test is exact: front,
      block and rear partition the chosen hole and the payload starts a page. */
  lemma CarvePartitions(h: Heap, i: nat, need: nat)
    requires Usable(h, i) && OVERHEAD <= need && FitsAt(h, i, need, true) && CarveDomain(h, i, need)
    ensures var a := h.index[i]; var c := h.cells[a].size; var rest := Rear(c, a, need);
      && Offset(a) == Front(a) && OVERHEAD <= Front(a) && BlockSize(c, need) == need
      && Front(a) + need + rest == c && (rest == 0 || OVERHEAD <= rest)
      && (a + Front(a) + HEADER) % PAGE == 0
  {
    var a := h.index[i];
    var k, r := a / PAGE, a % PAGE;
    assert a + HEADER == k * PAGE + (r + HEADER);
    assert (a + HEADER) % PAGE == r + HEADER;
    assert a + Front(a) + HEADER == (k + 1) * PAGE;
  }

  lemma CarveTags(m: Memory, a: nat, f: nat, n: nat, rest: nat)
    requires |m| == WORD_LIMIT && OVERHEAD <= n && OVERHEAD <= f && a + f + n + rest + HEADER <= WORD_LIMIT
    requires rest == 0 || OVERHEAD <= rest
    ensures var r := SplitMem(PutFooter(PutHeader(m, a, Cell(f, true)), a + f, a), a + f, n, rest, a + f + n + rest);
      && SameOutside(m, r, a, a + f + n + rest)
      && HeaderAt(r, a, Cell(f, true)) && FooterAt(r, a + f, a)
      && HeaderAt(r, a + f, Cell(n, false)) && FooterAt(r, a + f + n, a + f)
      && (rest > 0 ==> HeaderAt(r, a + f + n, Cell(rest, true)) && FooterAt(r, a + f + n + rest, a + f + n))
  {
    hide SplitMem, PutHeader, PutFooter, HeaderAt, FooterAt;
    TagCell(m, a, Cell(f, true));
    var m1 := PutFooter(PutHeader(m, a, Cell(f, true)), a + f, a);
    SplitTags(m1, a + f, n, rest);
    TagsSurvive(m1, SplitMem(m1, a + f, n, rest, a + f + n + rest), a + f, a + f + n + rest, a, Cell(f, true));
  }

  /** The layout and the index after a carve, in and out of the domain. */
  lemma CarveShape(h: Heap, i: nat, need: nat)
    requires Usable(h, i) && OVERHEAD <= need && FitsAt(h, i, need, true)
    ensures var a, g := h.index[i], Carve(h, i, need);
      var f, n, rest := Front(a), BlockSize(h.cells[a].size, need), Rear(h.cells[a].size, a, need);
      && a in g.index && a + f >= 0 && g.cells == SplitCells(h.cells[a := Cell(f % WORD_LIMIT, true)], a + f, n, rest)
      && g.start == h.start && g.end == h.end && g.max == h.max && g.pages == h.pages && |g.mem| == |h.mem|
      && (forall x :: x in g.index <==> x in h.index || (rest > 0 && x == a + f + n))
      && (NoDuplicates(h.index) && (rest == 0 || a + f + n !in h.index) ==> NoDuplicates(g.index))
  {
    hide Inserted, SplitMem, SplitCells, PutHeader, PutFooter, BlockSize, Rear;
    var a, g := h.index[i], Carve(h, i, need);
    InsertionMembers<nat>(h.index, a + Front(a) + BlockSize(h.cells[a].size, need), BySize(g.mem));
  }

  lemma CarveMemory(h: Heap, i: nat, need: nat)
    requires Usable(h, i) && OVERHEAD <= need && FitsAt(h, i, need, true) && CarveDomain(h, i, need)
    ensures var a, g := h.index[i], Carve(h, i, need);
      var c := h.cells[a].size; var f, rest := Front(a), Rear(c, a, need);
      && SameOutside(h.mem, g.mem, a, a + c)
      && HeaderAt(g.mem, a, Cell(f, true)) && FooterAt(g.mem, a + f, a)
      && HeaderAt(g.mem, a + f, Cell(need, false)) && FooterAt(g.mem, a + f + need, a + f)
      && (rest > 0 ==> HeaderAt(g.mem, a + f + need, Cell(rest, true)) && FooterAt(g.mem, a + c, a + f + need))
  {
    hide SplitMem, SplitCells, Inserted, PutHeader, PutFooter, HeaderAt, FooterAt, Rear, Offset;
    CarvePartitions(h, i, need);
    CarveTags(h.mem, h.index[i], Front(h.index[i]), need, Rear(h.cells[h.index[i]].size, h.index[i], need));
  }

  lemma CarvePieces(h: Heap, i: nat, need: nat)
    requires Wf(h) && Usable(h, i) && OVERHEAD <= need && FitsAt(h, i, need, true) && CarveDomain(h, i, need)
    ensures var a := h.index[i]; var c := h.cells[a].size; var g := Carve(h, i, need);
      && Good(g, a) && Good(g, a + Front(a)) && (Rear(c, a, need) > 0 ==> Good(g, a + Front(a) + need))
      && Before(g.cells, a, a + Front(a))
  {
    hide Wf, Carve, HeaderAt, FooterAt, Rear, BlockSize, Offset, FitsAt, Front;
    var a, c, g := h.index[i], h.cells[h.index[i]].size, Carve(h, i, need);
    CarvePartitions(h, i, need);
    HoleIsUsable(h, i);
    CarveMemory(h, i, need);
    CarveShape(h, i, need);
    assert Good(g, a);
    assert Good(g, a + Front(a));
  }

  lemma CarveIsAPatch(h: Heap, i: nat, need: nat)
    requires Wf(h) && Usable(h, i) && OVERHEAD <= need && FitsAt(h, i, need, true) && CarveDomain(h, i, need)
    ensures var a := h.index[i]; var g := Carve(h, i, need);
      && Patched(h, g, a, a + h.cells[a].size) && Configured(g)
      && NoDuplicates(g.index) && forall x | x in g.index && a <= x < a + h.cells[a].size :: x in g.cells
  {
    hide Wf, Carve, HeaderAt, FooterAt, Rear, BlockSize, Offset, FitsAt, Front;
    WfIsConfigured(h);
    CarvePartitions(h, i, need);
    HoleIsUsable(h, i);
    CarveMemory(h, i, need);
    CarveShape(h, i, need);
  }

  /** Inside the domain a page-aligned request keeps the heap well formed. */
  lemma CarveKeepsWf(h: Heap, i: nat, need: nat)
    requires Wf(h) && Usable(h, i) && OVERHEAD <= need && FitsAt(h, i, need, true) && CarveDomain(h, i, need)
    ensures Wf(Carve(h, i, need))
  {
    hide Carve, Wf, Good, Patched, Configured, Rear, BlockSize, Offset;
    var a, g := h.index[i], Carve(h, i, need);
    var f := Front(a);
    CarvePartitions(h, i, need);
    HoleIsUsable(h, i);
    CarvePieces(h, i, need);
    CarveIsAPatch(h, i, need);
    CarveShape(h, i, need);
    assert forall x | x in g.cells && a <= x < a + h.cells[a].size :: x == a || x == a + f || x == a + f + need;
    PatchKeepsWf(h, g, a, a + h.cells[a].size);
  }

  /** A well-formed heap has room for tags in each of the cells that a carve makes. */
  lemma CarvedCellsHaveRoom(g: Heap, cells: map<nat, Cell>, a: nat, f: int, n: nat, rest: u32)
    requires Wf(g) && a in g.index && PAGE <= a && -HEADER <= f < PAGE && OVERHEAD <= n && a + f >= 0
    requires g.cells == SplitCells(cells[a := Cell(f % WORD_LIMIT, true)], a + f, n, rest)
    ensures OVERHEAD <= f && (rest == 0 || OVERHEAD <= rest)
  {
    hide Wf;
    CellIsTagged(g, a) by { CellOfIndex(g, a); }
    if rest > 0 {
      CellIsTagged(g, a + f + n);
    }
  }

  lemma CellOfIndex(h: Heap, a: nat)
    requires Wf(h) && a in h.index
    ensures a in h.cells
  {
  }

  /** Outside the domain it never does: a front or rear hole comes out too small for its own tags, or
      the front hole is indexed where the block's header now stands. */
  lemma CarveOutsideDomainBreaks(h: Heap, i: nat, need: nat)
    requires Wf(h) && Usable(h, i) && OVERHEAD <= need && FitsAt(h, i, need, true) && !CarveDomain(h, i, need)
    ensures !Wf(Carve(h, i, need))
  {
    hide Wf, Carve, SplitCells, Rear;
    var a, g := h.index[i], Carve(h, i, need);
    var n, rest := BlockSize(h.cells[a].size, need), Rear(h.cells[a].size, a, need);
    CarveShape(h, i, need);
    if Wf(g) {
      CarvedCellsHaveRoom(g, h.cells, a, Front(a), n, rest);
    }
  }

  lemma CarveKeepsWfIff(h: Heap, i: nat, need: nat)
    requires Wf(h) && Usable(h, i) && OVERHEAD <= need && FitsAt(h, i, need, true)
    ensures Wf(Carve(h, i, need)) <==> CarveDomain(h, i, need)
  {
    if CarveDomain(h, i, need) {
      CarveKeepsWf(h, i, need);
    } else {
      CarveOutsideDomainBreaks(h, i, need);
    }
  }
}
