/** The heap of kheap.c as boundary-tagged cells in memory: layout, well-formedness, framing. */
module HeapCells {
  import opened Machine
  import opened OrderedArrays

  const MAGIC: u32 := 0x123890AB
  const HEADER := 12
  const FOOTER := 8
  const OVERHEAD := 20
  const MIN_SIZE := 0x70000

  /** A hole or a block; `size` counts its header and footer. */
  datatype Cell = Cell(size: nat, hole: bool)

  /** `heap_t` and the memory under it. `cells` is the layout the headers in memory spell out
      (TheWalkIsTheOnlyLayout), `pages` the pages that hold a frame. */
  datatype Heap = Heap(mem: Memory, cells: map<nat, Cell>, index: seq<nat>,
                       start: nat, end: nat, max: nat, pages: set<nat>)

  // ---------- tags in memory ----------

  ghost predicate HeaderAt(m: Memory, a: nat, c: Cell) {
    a + HEADER <= |m| && Word(m, a) == MAGIC && m[a + 4] == (if c.hole then 1 else 0) && Word(m, a + 8) == c.size
  }

  /** The last eight bytes before `e` are a footer pointing at `a`. */
  ghost predicate FooterAt(m: Memory, e: nat, a: nat) {
    FOOTER <= e <= |m| && Word(m, e - 8) == MAGIC && Word(m, e - 4) == a
  }

  function PutHeader(m: Memory, a: nat, c: Cell): (r: Memory)
    requires a + HEADER <= |m| && c.size < WORD_LIMIT
    ensures HeaderAt(r, a, c) && SameOutside(m, r, a, a + HEADER)
  {
    PutWord(PutWord(m, a, MAGIC)[a + 4 := if c.hole then 1 else 0], a + 8, c.size)
  }

  function PutFooter(m: Memory, e: nat, a: nat): (r: Memory)
    requires FOOTER <= e <= |m| && a < WORD_LIMIT
    ensures FooterAt(r, e, a) && SameOutside(m, r, e - FOOTER, e)
  {
    PutWord(PutWord(m, e - 8, MAGIC), e - 4, a)
  }

  /** The bytes of a header, one by one; three bytes of padding follow the flag. */
  lemma HeaderBytes(m: Memory, a: nat, c: Cell)
    requires a + HEADER <= |m| && c.size < WORD_LIMIT
    ensures var r := PutHeader(m, a, c);
      && r[a..a + 4] == [0xAB, 0x90, 0x38, 0x12] && r[a + 4] == (if c.hole then 1 else 0)
      && r[a + 5..a + 8] == m[a + 5..a + 8] && r[a + 8..a + 12] == Bytes(c.size)
  {
    hide PutWord;
    var m1 := PutWord(m, a, MAGIC);
    var m2 := m1[a + 4 := if c.hole then 1 else 0];
    var r := PutWord(m2, a + 8, c.size);
    WordBytes(m, a, MAGIC);
    WordBytes(m2, a + 8, c.size);
    assert r[a..a + 4] == m1[a..a + 4];
  }

  /** And those of a footer. */
  lemma FooterBytes(m: Memory, e: nat, a: nat)
    requires FOOTER <= e <= |m| && a < WORD_LIMIT
    ensures var r := PutFooter(m, e, a);
      r[e - 8..e - 4] == [0xAB, 0x90, 0x38, 0x12] && r[e - 4..e] == Bytes(a)
  {
    hide PutWord;
    var m1 := PutWord(m, e - 8, MAGIC);
    var r := PutWord(m1, e - 4, a);
    WordBytes(m, e - 8, MAGIC);
    WordBytes(m1, e - 4, a);
    assert r[e - 8..e - 4] == m1[e - 8..e - 4];
  }

  /** The `size` field of the header at `a`. */
  function SizeAt(m: Memory, a: nat): u32 {
    if a + HEADER <= |m| then Word(m, a + 8) else 0
  }

  /** `header_t_less_than`, reading the sizes that memory `m` holds. */
  function BySize(m: Memory): (nat, nat) -> bool {
    (x: nat, y: nat) => SizeAt(m, x) < SizeAt(m, y)
  }

  lemma TagsSurvive(m: Memory, r: Memory, lo: int, hi: int, a: nat, c: Cell)
    requires SameOutside(m, r, lo, hi)
    requires OVERHEAD <= c.size && (a + c.size <= lo || hi <= a)
    ensures HeaderAt(m, a, c) ==> HeaderAt(r, a, c)
    ensures FooterAt(m, a + c.size, a) ==> FooterAt(r, a + c.size, a)
  {
  }

  /** Writing a cell's header and then its footer tags that cell and touches nothing outside it. */
  lemma TagCell(m: Memory, a: nat, c: Cell)
    requires OVERHEAD <= c.size < WORD_LIMIT && a + c.size <= |m| && a < WORD_LIMIT
    ensures var r := PutFooter(PutHeader(m, a, c), a + c.size, a);
      HeaderAt(r, a, c) && FooterAt(r, a + c.size, a) && SameOutside(m, r, a, a + c.size)
  {
    hide PutHeader, PutFooter;
    var m1 := PutHeader(m, a, c);
    var m2 := PutFooter(m1, a + c.size, a);
  }

  // ---------- well-formed heaps ----------

  ghost predicate InPlace(h: Heap, a: nat) {
    && a in h.cells && h.start <= a && OVERHEAD <= h.cells[a].size
    && a + h.cells[a].size <= h.end
    && (a + h.cells[a].size == h.end || a + h.cells[a].size in h.cells)
  }

  ghost predicate Before(cells: map<nat, Cell>, a: nat, b: nat)
    requires a in cells
  {
    a + cells[a].size <= b
  }

  /** The cells tile [start, end), and each header in memory says what the layout says. */
  ghost predicate Spelled(h: Heap) {
    && h.start in h.cells && h.end <= |h.mem|
    && (forall a {:trigger InPlace(h, a)} | a in h.cells :: InPlace(h, a))
    && (forall a {:trigger HeaderAt(h.mem, a, h.cells[a])} | a in h.cells :: HeaderAt(h.mem, a, h.cells[a]))
    && (forall a, b {:trigger Before(h.cells, a, b)} | a in h.cells && b in h.cells && a < b :: Before(h.cells, a, b))
  }

  /** The heap is a single hole, the only state in which a footer may be missing. */
  ghost predicate OneHole(h: Heap) {
    h.start in h.cells && h.cells[h.start].hole && h.start + h.cells[h.start].size == h.end
  }

  /** Footers point back at their headers, no two holes are adjacent, the holes are the indexed cells. */
  ghost predicate Tagged(h: Heap, a: nat)
    requires a in h.cells
  {
    var c := h.cells[a];
    && (OneHole(h) || FooterAt(h.mem, a + c.size, a))
    && (c.hole && a + c.size in h.cells ==> !h.cells[a + c.size].hole)
    && (c.hole <==> a in h.index)
  }

  ghost predicate Configured(h: Heap) {
    && |h.mem| == WORD_LIMIT && PAGE <= h.start && h.start % PAGE == 0 && h.end % PAGE == 0
    && h.start + MIN_SIZE <= h.end <= h.max <= WORD_LIMIT - PAGE && h.max - h.start < 0x8000_0000
    && (forall x {:trigger x in h.pages} | h.start <= x < h.end && x % PAGE == 0 :: x in h.pages)
  }

  /** The word where a footer would stand just below the heap does not read as a tag. */
  ghost predicate FencedBelow(m: Memory, start: nat) {
    FOOTER <= start <= |m| && Word(m, start - FOOTER) != MAGIC
  }

  lemma FenceStays(m: Memory, r: Memory, lo: int, hi: int, start: nat)
    requires FencedBelow(m, start) && SameOutside(m, r, lo, hi) && start <= lo
    ensures FencedBelow(r, start)
  {
  }

  /** The invariant every run keeps. */
  ghost predicate Wf(h: Heap) {
    && Configured(h)
    && FencedBelow(h.mem, h.start)
    && Spelled(h)
    && (forall a {:trigger Tagged(h, a)} | a in h.cells :: Tagged(h, a))
    && NoDuplicates(h.index)
    && (forall a | a in h.index :: a in h.cells)
  }

  lemma WfIsConfigured(h: Heap)
    requires Wf(h)
    ensures Configured(h) && NoDuplicates(h.index)
  {
  }

  /** Everything Wf says of one cell. */
  ghost predicate Good(h: Heap, a: nat) {
    InPlace(h, a) && HeaderAt(h.mem, a, h.cells[a]) && Tagged(h, a)
  }

  lemma CellIsGood(h: Heap, a: nat)
    requires Wf(h) && a in h.cells
    ensures Good(h, a) && h.start <= a < h.end
  {
    assert InPlace(h, a) && HeaderAt(h.mem, a, h.cells[a]) && Tagged(h, a);
  }

  lemma CellIsTagged(h: Heap, a: nat)
    requires Wf(h) && a in h.cells
    ensures PAGE <= a && a + h.cells[a].size <= |h.mem| - PAGE && Word(h.mem, a + 8) == h.cells[a].size
    ensures OVERHEAD <= h.cells[a].size < 0x8000_0000 && (h.cells[a].hole <==> a in h.index)
    ensures h.start <= a && a + h.cells[a].size <= h.end <= WORD_LIMIT - PAGE
  {
    CellIsGood(h, a);
  }

  lemma InOrder(h: Heap, a: nat, b: nat)
    requires Spelled(h) && a in h.cells && b in h.cells && a < b
    ensures a + h.cells[a].size <= b
  {
    assert Before(h.cells, a, b);
  }

  lemma GoodCellsMakeWf(h: Heap)
    requires Configured(h) && FencedBelow(h.mem, h.start) && h.start in h.cells && NoDuplicates(h.index)
    requires forall a {:trigger Good(h, a)} | a in h.cells :: Good(h, a)
    requires forall a, b {:trigger Before(h.cells, a, b)} | a in h.cells && b in h.cells && a < b ::
      Before(h.cells, a, b)
    requires forall a | a in h.index :: a in h.cells
    ensures Wf(h)
  {
    forall a | a in h.cells ensures InPlace(h, a) && HeaderAt(h.mem, a, h.cells[a]) && Tagged(h, a) {
      assert Good(h, a);
    }
  }

  // ---------- replacing the cells of one stretch ----------

  /** `g` differs from `h` only in the cells, tags and index entries of the stretch [lo, hi). */
  ghost predicate Patched(h: Heap, g: Heap, lo: nat, hi: nat) {
    && h.start == g.start && SameOutside(h.mem, g.mem, lo, hi)
    && lo in g.cells && (lo in h.cells || (lo == h.end && g.cells[lo].hole))
    && lo < hi && lo < g.end && (hi in h.cells || h.end <= hi) && (h.end == g.end || h.end <= hi)
    && (forall a | a < lo || hi <= a :: (a in h.cells <==> a in g.cells) && (a in h.index <==> a in g.index))
    && (forall a | a in h.cells && (a < lo || hi <= a) :: h.cells[a] == g.cells[a])
    && (g.cells[lo].hole ==> forall a | a in h.cells && a < lo && h.cells[a].hole :: a + h.cells[a].size != lo)
    && (h.end <= hi ==> g.end <= hi)
  }

  lemma OutsideIsGood(h: Heap, g: Heap, lo: nat, hi: nat, a: nat)
    requires Wf(h) && Patched(h, g, lo, hi)
    requires a in g.cells && (a < lo || hi <= a)
    ensures Good(g, a)
    ensures a < lo ==> a + g.cells[a].size <= lo
  {
    CellIsGood(h, a);
    var c := h.cells[a];
    assert lo in h.cells ==> InPlace(h, lo);
    if a < lo {
      assert lo in h.cells ==> Before(h.cells, a, lo);
    }
    TagsSurvive(h.mem, g.mem, lo, hi, a, c);
    var b := a + c.size;
    if b in h.cells {
      CellIsGood(h, b);
    }
    assert a != h.start ==> Before(h.cells, h.start, a);
  }

  lemma OutsideComesBefore(h: Heap, g: Heap, lo: nat, hi: nat, a: nat, b: nat)
    requires Wf(h) && Patched(h, g, lo, hi) && a in g.cells && b in g.cells && a < b
    requires lo <= a < hi ==> a + g.cells[a].size <= hi
    requires lo <= a < b < hi ==> Before(g.cells, a, b)
    ensures Before(g.cells, a, b)
  {
    if a < lo || hi <= a {
      OutsideIsGood(h, g, lo, hi, a);
      if b < lo || hi <= b {
        assert Before(h.cells, a, b);
      }
    }
  }

  lemma PatchedEnds(h: Heap, g: Heap, lo: nat, hi: nat)
    requires Wf(h) && Patched(h, g, lo, hi)
    ensures h.start in g.cells && FencedBelow(g.mem, g.start)
    ensures forall a | a in g.index && !(lo <= a < hi) :: a in g.cells
  {
    assert h.start < lo || h.start == lo by {
      assert lo in h.cells ==> InPlace(h, lo);
    }
    FenceStays(h.mem, g.mem, lo, hi, h.start);
  }

  /** If the new cells of the stretch are good and fill it in order, the whole new heap is well formed. */
  lemma PatchKeepsWf(h: Heap, g: Heap, lo: nat, hi: nat)
    requires Wf(h) && Patched(h, g, lo, hi) && Configured(g)
    requires forall a {:trigger Good(g, a)} | a in g.cells && lo <= a < hi :: Good(g, a) && a + g.cells[a].size <= hi
    requires forall a, b {:trigger Before(g.cells, a, b)} | a in g.cells && b in g.cells && lo <= a < b < hi ::
      Before(g.cells, a, b)
    requires NoDuplicates(g.index) && forall a | a in g.index && lo <= a < hi :: a in g.cells
    ensures Wf(g)
  {
    hide Inserted, Removed;
    PatchedEnds(h, g, lo, hi);
    forall a | a in g.cells ensures Good(g, a) {
      if a < lo || hi <= a {
        OutsideIsGood(h, g, lo, hi, a);
      }
    }
    forall a, b | a in g.cells && b in g.cells && a < b ensures Before(g.cells, a, b) {
      assert lo <= a < hi ==> Good(g, a);
      OutsideComesBefore(h, g, lo, hi, a, b);
    }
    GoodCellsMakeWf(g);
  }

  /** The same for the headers alone, when one hole now fills the stretch. */
  lemma PatchIsSpelled(h: Heap, g: Heap, lo: nat, hi: nat)
    requires Wf(h) && Patched(h, g, lo, hi) && g.end <= |g.mem|
    requires forall a | a in g.cells && lo <= a < hi :: a == lo
    requires InPlace(g, lo) && HeaderAt(g.mem, lo, g.cells[lo]) && lo + g.cells[lo].size <= hi
    ensures Spelled(g)
  {
    hide Patched, Wf, HeaderAt, Tagged;
    PatchedEnds(h, g, lo, hi);
    forall x | x in g.cells ensures InPlace(g, x) && HeaderAt(g.mem, x, g.cells[x]) {
      if x != lo {
        OutsideIsGood(h, g, lo, hi, x);
      }
    }
    forall x, y | x in g.cells && y in g.cells && x < y ensures Before(g.cells, x, y) {
      OutsideComesBefore(h, g, lo, hi, x, y);
    }
    SameStart(h, g, lo, hi);
  }

  lemma SameStart(h: Heap, g: Heap, lo: nat, hi: nat)
    requires Patched(h, g, lo, hi)
    ensures h.start == g.start
  {
  }

  // ---------- the layout is determined by memory ----------

  /** Every cell but the first has one just before it. */
  lemma {:induction false} Predecessor(h: Heap, x: nat, y: nat) returns (p: nat)
    requires Spelled(h) && x in h.cells && y in h.cells && y < x
    ensures p in h.cells && y <= p < x && p + h.cells[p].size == x
    decreases x - y
  {
    assert InPlace(h, y) && Before(h.cells, y, x);
    var z := y + h.cells[y].size;
    if z == x {
      p := y;
    } else {
      assert InPlace(h, x);
      p := Predecessor(h, x, z);
    }
  }

  /** Two layouts read from headers that agree below `x` have the same cells up to `x`. */
  lemma {:induction false} SameCellBelow(h: Heap, g: Heap, x: nat)
    requires Spelled(h) && Spelled(g) && h.start == g.start && |h.mem| == |g.mem|
    requires x in h.cells && x < g.end && SameBytes(h.mem, g.mem, h.start, x)
    ensures x in g.cells
    decreases x
  {
    assert InPlace(h, x);
    if x != h.start {
      var p := Predecessor(h, x, h.start);
      SameCellBelow(h, g, p);
      assert InPlace(h, p) && InPlace(g, p);
      assert HeaderAt(h.mem, p, h.cells[p]) && HeaderAt(g.mem, p, g.cells[p]);
    }
  }

  /** Following header sizes from `start` finds exactly the cells: memory allows one layout only. */
  lemma TheWalkIsTheOnlyLayout(h: Heap, g: Heap)
    requires Spelled(h) && Spelled(g)
    requires h.mem == g.mem && h.start == g.start && h.end == g.end
    ensures h.cells == g.cells
  {
    forall x | x in h.cells || x in g.cells
      ensures x in h.cells && x in g.cells && h.cells[x] == g.cells[x]
    {
      if x in h.cells {
        assert InPlace(h, x);
        SameCellBelow(h, g, x);
      } else {
        assert InPlace(g, x);
        SameCellBelow(g, h, x);
      }
      assert HeaderAt(h.mem, x, h.cells[x]) && HeaderAt(g.mem, x, g.cells[x]);
    }
  }

  // ---------- conservation ----------

  /** Bytes in the cells from `a` on that are holes (or that are blocks). */
  ghost function BytesFrom(h: Heap, a: nat, holes: bool): nat
    requires Spelled(h) && (a in h.cells || a == h.end)
    decreases h.end - a
  {
    if a !in h.cells then 0 else
    assert InPlace(h, a);
    (if h.cells[a].hole == holes then h.cells[a].size else 0) + BytesFrom(h, a + h.cells[a].size, holes)
  }

  /** Live-block bytes plus hole bytes always make up the whole heap. */
  lemma {:induction false} BytesConserved(h: Heap, a: nat)
    requires Spelled(h) && (a in h.cells || a == h.end)
    ensures BytesFrom(h, a, true) + BytesFrom(h, a, false) == h.end - a
    decreases h.end - a
  {
    if a in h.cells {
      assert InPlace(h, a);
      BytesConserved(h, a + h.cells[a].size);
    }
  }
}
