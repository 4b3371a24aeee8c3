/** Facts about the heap model that tie single reads and writes of kheap.c to it. */
module KHeapFacts {
  import opened Machine
  import opened OrderedArrays
  import opened HeapCells
  import opened HeapAlloc
  import opened HeapExpand
  import opened HeapFree

  /** Page addresses are a page apart. */
  lemma PagesApart(x: int, y: int)
    requires x % PAGE == 0 && y % PAGE == 0
    ensures x < y ==> x + PAGE <= y
    ensures (x + y) % PAGE == 0 && (x - y) % PAGE == 0
  {
  }

  /** The address `i` bytes behind `start`. */
  function Behind32(start: nat, i: nat): u32 {
    (start + i) % WORD_LIMIT
  }

  /** The pages from `lo` up to `hi` bytes behind `start`. */
  ghost function PagesBehind(start: nat, lo: nat, hi: nat): set<nat> {
    set i | lo <= i < hi && i % PAGE == 0 :: Behind32(start, i)
  }

  lemma OnePageMore(start: nat, lo: nat, at: nat)
    requires at % PAGE == 0 && lo <= at
    ensures PagesBehind(start, lo, at + PAGE) == PagesBehind(start, lo, at) + {Behind32(start, at)}
  {
    hide Behind32;
    forall i | lo <= i < at + PAGE && i % PAGE == 0 ensures i < at || i == at {
      PagesApart(at, i);
    }
    assert lo <= at < at + PAGE;
  }

  lemma IsPageBehind(start: nat, lo: nat, hi: nat, x: nat)
    requires start % PAGE == 0 && start + hi <= WORD_LIMIT && start + lo <= x < start + hi && x % PAGE == 0
    ensures x in PagesBehind(start, lo, hi)
  {
    PagesApart(x, start);
    assert Behind32(start, x - start) == x;
  }

  lemma PageBehindIs(start: nat, lo: nat, hi: nat, x: nat)
    requires start % PAGE == 0 && start + hi <= WORD_LIMIT && x in PagesBehind(start, lo, hi)
    ensures start + lo <= x < start + hi && x % PAGE == 0
  {
    var i: nat :| lo <= i < hi && i % PAGE == 0 && Behind32(start, i) == x;
    PagesApart(start, i);
  }

  /** Without wrapping these are just the pages between the two addresses. */
  lemma PagesBehindAre(pages: set<nat>, start: nat, lo: nat, hi: nat)
    requires start % PAGE == 0 && start + hi <= WORD_LIMIT
    ensures pages + PagesBehind(start, lo, hi) == PagesWith(pages, start + lo, start + hi)
  {
    hide PagesBehind;
    forall x: nat ensures x in PagesBehind(start, lo, hi) <==> start + lo <= x < start + hi && x % PAGE == 0 {
      if start + lo <= x < start + hi && x % PAGE == 0 {
        IsPageBehind(start, lo, hi, x);
      }
      if x in PagesBehind(start, lo, hi) {
        PageBehindIs(start, lo, hi, x);
      }
    }
  }

  /** An expansion that stays below `max` does not wrap. */
  lemma ExpandDoesNotWrap(h: Heap, need: nat)
    requires Configured(h) && OVERHEAD <= need && NewEnd(h, need) <= h.max
    ensures var length := RoundUp(h.end - h.start + need) % WORD_LIMIT;
      && h.end - h.start + need < WORD_LIMIT && (h.start + length) % WORD_LIMIT == NewEnd(h, need)
      && h.pages + PagesBehind(h.start, h.end - h.start, length) == PagesWith(h.pages, h.end, NewEnd(h, need))
  {
    hide PagesBehind, PagesWith;
    ExpansionAmount(h, need);
    PagesBehindAre(h.pages, h.start, h.end - h.start, NewEnd(h, need) - h.start);
  }

  /** What the expanding branch of `alloc` relies on. */
  lemma GrowFacts(h: Heap, need: nat)
    requires Wf(h) && OVERHEAD <= need && NewEnd(h, need) <= h.max && Expandable(h, need)
    ensures Configured(h) && |h.mem| == WORD_LIMIT && h.start <= h.end
      && h.end + OVERHEAD <= NewEnd(h, need) < WORD_LIMIT
    ensures forall x | x in h.index :: x > 0
    ensures h.index != [] ==> var x := Highest(h.index);
      && x in h.cells && x + HEADER <= |h.mem| && OVERHEAD <= Word(h.mem, x + 8) == h.cells[x].size
      && x + Word(h.mem, x + 8) + (NewEnd(h, need) - h.end) < WORD_LIMIT
  {
    hide Spelled, Tagged, NewEnd;
    IndexedArePositive(h);
    WfIsExpandable(h, need);
    if h.index != [] {
      CellIsTagged(h, Highest(h.index));
    }
  }

  /** What the end of `alloc` relies on. */
  lemma CutFacts(h: Heap, k: nat, need: nat, align: bool)
    requires Wf(h) && Usable(h, k) && OVERHEAD <= need && FitsAt(h, k, need, align)
    ensures var a, c := h.index[k], h.cells[h.index[k]].size;
      && Word(h.mem, a + 8) == c && |h.mem| == WORD_LIMIT && PAGE <= a && a + c <= WORD_LIMIT - PAGE
      && need <= c && a + c <= h.end <= WORD_LIMIT
  {
    CellIsTagged(h, h.index[k]);
  }

  lemma NoPagesYet(start: nat, lo: nat)
    ensures PagesBehind(start, lo, lo) == {}
  {
  }

  lemma NoPagesBetween(start: nat, lo: nat, hi: nat, at: nat)
    requires at % PAGE == 0 && hi <= at && (at < hi + PAGE || at == lo) && (hi % PAGE == 0 || hi < PAGE) && lo <= at
    ensures PagesBehind(start, lo, hi) == PagesBehind(start, lo, at)
  {
    forall i | lo <= i < at && i % PAGE == 0 ensures i < hi {
      PagesApart(i, at);
    }
  }

  /** The pages that still hold a frame when those above `i` have given theirs up. */
  ghost predicate PagesLeft(before: set<nat>, during: set<nat>, start: nat, length: nat, size: nat, i: nat) {
    forall x: nat :: x in during <==>
      x in before && !(start + length < x < start + size && start + i < x && x % PAGE == 0)
  }

  lemma LastPageFirst(pages: set<nat>, start: nat, length: nat, size: nat)
    requires PAGE <= size && size % PAGE == 0 && start % PAGE == 0
    ensures PagesLeft(pages, pages, start, length, size, size - PAGE)
  {
    forall x: nat | x % PAGE == 0 ensures !(start + (size - PAGE) < x < start + size) {
      PagesApart(start, size);
      PagesApart(x, start + size);
    }
  }

  /** One page more that gives its frame up. */
  lemma OnePageFewer(before: set<nat>, during: set<nat>, lo: nat, at: nat, hi: nat)
    requires at % PAGE == 0 && lo < at < hi
    requires forall x: nat :: x in during <==> x in before && !(lo < x < hi && at < x && x % PAGE == 0)
    ensures forall x: nat :: x in during - {at} <==> x in before && !(lo < x < hi && at - PAGE < x && x % PAGE == 0)
  {
    forall x: nat ensures x in during - {at} <==> x in before && !(lo < x < hi && at - PAGE < x && x % PAGE == 0) {
      if x % PAGE == 0 {
        PagesApart(at, x);
        PagesApart(x, at);
      }
    }
  }

  /** What cutting the block out leaves, and the payload address. */
  ghost function Cut(h: Heap, k: nat, need: nat, align: bool): (Heap, nat)
    requires Usable(h, k) && OVERHEAD <= need && FitsAt(h, k, need, align)
  {
    if align then (Carve(h, k, need), h.index[k] + Front(h.index[k]) + HEADER)
    else (Take(h, k, need), h.index[k] + HEADER)
  }

  /** The writes of `alloc` from lines 222 to 275 amount to Cut: `m0`, `cells0` and `idx0` are what the
      page-aligning branch (or the removal from the index) leaves for the block to be written over. */
  lemma CutIs(h: Heap, k: nat, need: nat, align: bool, n: nat, m0: Memory, cells0: map<nat, Cell>, idx0: seq<nat>,
              m: Memory, cells: map<nat, Cell>, idx: seq<nat>)
    requires Usable(h, k) && OVERHEAD <= need && FitsAt(h, k, need, align)
      && n == BlockSize(h.cells[h.index[k]].size, need)
    requires align ==> var a := h.index[k]; var front := Cell(Front(a) % WORD_LIMIT, true);
      m0 == PutFooter(PutHeader(h.mem, a, front), a + Front(a), a) && cells0 == h.cells[a := front] && idx0 == h.index
    requires !align ==> m0 == h.mem && cells0 == h.cells && idx0 == Removed(h.index, k)
    requires var a, c := h.index[k], h.cells[h.index[k]].size;
      var pos := if align then a + Front(a) else a;
      var rest := (c - (pos - a) - n) % WORD_LIMIT;
      && m == SplitMem(m0, pos, n, rest, a + c) && cells == SplitCells(cells0, pos, n, rest)
      && idx == if rest > 0 then Inserted<nat>(idx0, pos + n, BySize(m)) else idx0
    ensures Cut(h, k, need, align) ==
      (h.(mem := m, cells := cells, index := idx),
        (if align then h.index[k] + Front(h.index[k]) else h.index[k]) + HEADER)
  {
    hide SplitMem, SplitCells, Inserted, Removed, PutFooter, PutHeader;
  }

  lemma IndexedArePositive(h: Heap)
    requires Wf(h)
    ensures forall x | x in h.index :: x > 0
  {
    forall x | x in h.index ensures x > 0 {
      CellIsGood(h, x);
    }
  }

  lemma InsertedIntoNothing(x: nat, lt: (nat, nat) -> bool)
    ensures Inserted([], x, lt) == [x]
  {
    var none: seq<nat> := [];
    var k := Place(none, x, lt);
    assert none[..k] + [x] + none[k..] == [x];
  }

  /** However the front comes out, what is left behind the block ends where the chosen hole ended. */
  lemma RestEndsTheHole(a: nat, c: nat, n: nat, pos: nat, size: nat)
    requires PAGE <= a && a + c <= WORD_LIMIT - PAGE && n <= c && OVERHEAD <= c
    requires (pos == a && size == c) || (pos == a + Front(a) && size == (c - Front(a) % WORD_LIMIT) % WORD_LIMIT)
    ensures (size - n) % WORD_LIMIT == (c - (pos - a) - n) % WORD_LIMIT
    ensures (pos + n + (size - n) % WORD_LIMIT) % WORD_LIMIT == a + c
  {
    WrapOnce(c, Front(a), n);
    WrapAdds(pos + n, c - (pos - a) - n);
  }

  /** Words may be reduced once, at the end. */
  lemma WrapOnce(x: int, y: int, n: int)
    ensures ((x - y % WORD_LIMIT) % WORD_LIMIT - n) % WORD_LIMIT == (x - y - n) % WORD_LIMIT
  {
  }

  lemma WrapAdds(x: int, y: int)
    ensures (x + y % WORD_LIMIT) % WORD_LIMIT == (x + y) % WORD_LIMIT
  {
  }

  lemma HighestIs(s: seq<nat>, x: nat, k: nat)
    requires k < |s| && x == s[k] && x !in s[..k] && forall j | 0 <= j < |s| :: s[j] <= x
    ensures Highest(s) == x && IndexOf(s, x) == k
  {
    assert x in s && Highest(s) in s;
    FirstIsIndexOf(s, x, k);
  }

  lemma FooterBelow(x: int, e: nat)
    requires x % WORD_LIMIT == e && FOOTER <= e
    ensures (x - FOOTER) % WORD_LIMIT == e - FOOTER
  {
  }

  lemma ExpandFillsOneSlot(h: Heap, need: nat)
    requires Expandable(h, need)
    ensures |Expand(h, need).index| == |h.index| + if Appends(h) then 1 else 0
  {
  }

  lemma {:induction false} FirstIsIndexOf(s: seq<nat>, x: nat, k: nat)
    requires k < |s| && s[k] == x && x !in s[..k]
    ensures IndexOf(s, x) == k
  {
    if k > 0 {
      assert s[0] == s[..k][0] && s[1..][..k - 1] == s[..k][1..];
      FirstIsIndexOf(s[1..], x, k - 1);
    }
  }

  lemma BlockFacts(h: Heap, a: nat)
    requires Wf(h) && Freeable(h, a + HEADER)
    ensures PAGE <= a && a + h.cells[a].size <= |h.mem| - PAGE && OVERHEAD <= h.cells[a].size < 0x8000_0000
    ensures Word(h.mem, a) == MAGIC && Word(h.mem, a + 8) == h.cells[a].size
    ensures Word(h.mem, a + h.cells[a].size - FOOTER) == MAGIC
  {
    hide MergeStart, MergeEnd;
    CellIsGood(h, a);
    GoodTags(h, a + HEADER);
  }

  /** The cell on the left, its tags, and whether it is the hole that the merge starts with. */
  lemma LeftNeighbour(h: Heap, a: nat) returns (p: nat)
    requires Wf(h) && Freeable(h, a + HEADER) && h.start < a
    ensures p in h.cells && h.start <= p && p + OVERHEAD <= a == p + h.cells[p].size
    ensures HeaderAt(h.mem, p, h.cells[p]) && FooterAt(h.mem, a, p)
    ensures MergeStart(h, a) == if h.cells[p].hole then p else a
  {
    hide MergeStart, MergeEnd, HeaderAt, FooterAt;
    MergeStretch(h, a + HEADER);
    p := Predecessor(h, a, h.start);
    CellIsGood(h, p);
    var s := MergeStart(h, a);
    if s < a {
      SamePredecessor(h, a, p, s);
    }
    if h.cells[p].hole {
      MergeStartIsThere(h, a, p);
    }
  }

  /** Reading the footer on the left finds the hole that ends there, and only that. */
  lemma LeftTest(h: Heap, a: nat, m: Memory)
    requires Wf(h) && Freeable(h, a + HEADER) && m == h.mem[a + 4 := 1]
    ensures |m| == WORD_LIMIT && FOOTER <= a && a + OVERHEAD <= |m|
    ensures Word(m, a - FOOTER) == MAGIC ==> Word(m, a - 4) + HEADER <= |m|
    ensures Word(m, a - FOOTER) == MAGIC && m[Word(m, a - 4) + 4] == 1 <==> MergeStart(h, a) < a
    ensures MergeStart(h, a) < a ==> Word(m, a - 4) == MergeStart(h, a)
  {
    hide MergeStart, MergeEnd, Spelled, Tagged, MAGIC;
    CellIsTagged(h, a);
    if h.start < a {
      var p := LeftNeighbour(h, a);
      hide Wf, Freeable;
    } else {
      hide Freeable;
    }
  }

  lemma SamePredecessor(h: Heap, a: nat, p: nat, q: nat)
    requires Spelled(h) && p in h.cells && q in h.cells && p + h.cells[p].size == a == q + h.cells[q].size
    requires p < a && q < a
    ensures p == q
  {
    if p < q {
      InOrder(h, p, q);
    }
    if q < p {
      InOrder(h, q, p);
    }
  }

  /** The two stores of the left-hand branch are those of UnifyLeft. */
  lemma LeftWrites(h: Heap, a: nat, m: Memory)
    requires Wf(h) && Freeable(h, a + HEADER) && m == h.mem[a + 4 := 1]
    ensures |m| == WORD_LIMIT && OVERHEAD <= h.cells[a].size && a + h.cells[a].size <= |m|
      && MergeStart(h, a) + HEADER <= |m|
    ensures Word(m, a + 8) == h.cells[a].size
    ensures var s, t := MergeStart(h, a), a + h.cells[a].size;
      s < a ==> Word(PutWord(m, t - 4, s), s + 8) + (t - a) == t - s
    ensures var s, t := MergeStart(h, a), a + h.cells[a].size;
      a + HEADER <= t < WORD_LIMIT && UnifyLeft(h.mem, s, a, t) ==
        if s < a then PutWord(PutWord(m, t - 4, s), s + 8, t - s) else m
  {
    hide MergeStart, MergeEnd, PutWord, UnifyLeft, HeaderAt, FooterAt, Wf, Word;
    MergeStretch(h, a + HEADER);
    GoodTags(h, a + HEADER);
    LeftStores(h.mem, MergeStart(h, a), a, a + h.cells[a].size);
  }

  lemma LeftStores(m0: Memory, s: nat, a: nat, t: nat)
    requires a + OVERHEAD <= t <= |m0| && t < WORD_LIMIT && (s == a || s + OVERHEAD <= a)
    requires HeaderAt(m0, a, Cell(t - a, false)) && (s < a ==> HeaderAt(m0, s, Cell(a - s, true)))
    ensures var m := m0[a + 4 := 1];
      && Word(m, a + 8) == t - a
      && (s < a ==> Word(PutWord(m, t - 4, s), s + 8) + (t - a) == t - s)
      && UnifyLeft(m0, s, a, t) == if s < a then PutWord(PutWord(m, t - 4, s), s + 8, t - s) else m
  {
    hide PutWord;
  }

  lemma MergeStartIsThere(h: Heap, a: nat, b: nat)
    requires LeftHole(h, a, b) && b < a
    ensures LeftHole(h, a, MergeStart(h, a))
  {
  }

  /** After the left-hand branch: the memory is that of UnifyLeft, and what reads as a hole behind the
      block is one that is indexed, or what stands behind the end of the heap. */
  lemma LeftDone(h: Heap, a: nat, m: Memory)
    requires Wf(h) && Freeable(h, a + HEADER)
    requires var s, t := MergeStart(h, a), a + h.cells[a].size;
      s + HEADER <= |h.mem| && a + HEADER <= t < WORD_LIMIT && t <= |h.mem| && m == UnifyLeft(h.mem, s, a, t)
    ensures var s, t, e := MergeStart(h, a), a + h.cells[a].size, MergeEnd(h, a);
      && |m| == WORD_LIMIT && t + HEADER <= |m| && s + HEADER <= |m|
      && (Word(m, t) == MAGIC && m[t + 4] != 0 <==> ReadsAsHole(h.mem, t))
      && (ReadsAsHole(h.mem, t) && t in h.index <==> t < e)
      && (t < e ==> t + Word(m, t + 8) == e && Word(PutWord(m, s + 8, e - s), t + 8) == e - t)
      && Word(m, s + 8) == t - s && s <= t && e < WORD_LIMIT
  {
    hide MergeStart, UnifyLeft, Wf, PutWord, HeaderAt, FooterAt, Word, ReadsAsHole;
    MergeStretch(h, a + HEADER);
    GoodTags(h, a + HEADER);
    var s, t, e := MergeStart(h, a), a + h.cells[a].size, MergeEnd(h, a);
    LeftTags(h.mem, s, a, t);
    RightTest(h, m, s, t);
    RightStores(m, s, t, e);
  }

  lemma RightStores(m: Memory, s: nat, t: nat, e: nat)
    requires s + OVERHEAD <= t <= e < WORD_LIMIT && t + HEADER <= |m| && HeaderAt(m, s, Cell(t - s, true))
    ensures Word(m, s + 8) == t - s && Word(PutWord(m, s + 8, e - s), t + 8) == Word(m, t + 8)
  {
    hide PutWord;
  }

  /** Reading the header at a cell boundary finds a hole that starts there, and nothing else; at the end
      of the heap it finds whatever memory holds there. */
  lemma RightTest(h: Heap, m: Memory, s: nat, t: nat)
    requires Wf(h) && SameOutside(h.mem, m, s, t) && (t in h.cells || t == h.end)
    ensures |m| == WORD_LIMIT && t + HEADER <= |m|
    ensures Word(m, t) == MAGIC && m[t + 4] != 0 <==> ReadsAsHole(h.mem, t)
    ensures ReadsAsHole(h.mem, t) && t in h.index <==> RightHole(h, t)
    ensures t in h.cells ==> Word(m, t + 8) == h.cells[t].size
  {
    if t in h.cells {
      CellIsGood(h, t);
      TagsSurvive(h.mem, m, s, t, t, h.cells[t]);
    }
  }

  lemma EndIsNotIndexed(h: Heap)
    requires Wf(h)
    ensures h.end !in h.index && h.end !in h.cells
  {
    if h.end in h.cells {
      CellIsGood(h, h.end);
    }
  }

  lemma MergeIs(h: Heap, a: nat, m: Memory, idx: seq<nat>)
    requires Freeable(h, a + HEADER)
    requires var s, t, e := MergeStart(h, a), a + h.cells[a].size, MergeEnd(h, a);
      && m == UnifyRight(UnifyLeft(h.mem, s, a, t), s, t, e)
      && idx == if t < e then Removed(h.index, IndexOf(h.index, t)) else h.index
    ensures Merge(h, a) == h.(mem := m, index := idx, cells := Merge(h, a).cells)
  {
    hide MergeStart, MergeEnd, UnifyLeft, UnifyRight, Removed, IndexOf;
  }

  /** The merged hole as `contract` finds it. */
  lemma UnifiedFacts(h: Heap, p: nat)
    requires Wf(h) && Freeable(h, p)
    ensures var g := Merge(h, p - HEADER); var s := MergeStart(h, p - HEADER);
      && Configured(g) && g.end == h.end && g.start == h.start && s in g.cells && g.start <= s && s + HEADER <= |g.mem|
      && s + OVERHEAD <= MergeEnd(h, p - HEADER) <= h.end && Word(g.mem, s + 8) == MergeEnd(h, p - HEADER) - s
  {
    hide MergeStart, MergeEnd, MergeMem, Spelled, Tagged, FooterAt;
    StretchEdges(h, p);
    MergeTags(h, p);
    MergeKeepsBounds(h, p);
  }

  lemma TrimArithmetic(h: Heap, s: nat, kept: nat)
    requires Configured(h) && h.start <= s <= h.end && kept == ContractTo(s - h.start)
    ensures var rest := (h.end - s - (h.end - h.start - kept)) % WORD_LIMIT;
      && rest == RestAfter(h.start, h.end, s)
      && (s + rest - FOOTER) % WORD_LIMIT == h.start + kept - FOOTER && h.start + kept <= h.end
  {
  }

  /** The writes of `free` from line 332 to 353 amount to Trim. */
  lemma TrimIs(h: Heap, s: nat, t: nat, kept: nat, rest: u32, m: Memory, cells: map<nat, Cell>, idx: seq<nat>)
    requires Configured(h) && h.start <= s && s + OVERHEAD <= h.end && kept == ContractTo(s - h.start)
    requires rest == RestAfter(h.start, h.end, s) && FOOTER <= h.start + kept <= |h.mem|
    requires rest > 0 ==> cells == h.cells[s := Cell(rest, true)] && idx == h.index
    requires rest > 0 ==> m == PutFooter(PutWord(h.mem, s + 8, rest), h.start + kept, s)
    requires rest == 0 ==> m == h.mem && cells == h.cells
    requires rest == 0 ==> idx == if t in h.index then Removed(h.index, IndexOf(h.index, t)) else h.index
    ensures var e := h.start + kept;
      Trim(h, s, t) == h.(mem := m, cells := cells, index := idx, end := e, pages := PagesWithout(h.pages, e, h.end))
  {
    hide PutFooter, PutWord, Removed, IndexOf, PagesWithout, ContractTo, RestAfter;
  }
}
