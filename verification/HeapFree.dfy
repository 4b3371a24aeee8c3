/** `free`: unify left, unify right, contract. */
module HeapFree {
  import opened Machine
  import opened OrderedArrays
  import opened HeapCells
  import opened HeapAlloc
  import opened HeapExpand

  ghost predicate LeftHole(h: Heap, a: nat, b: nat) {
    b in h.cells && h.cells[b].hole && b + h.cells[b].size == a
  }

  /** Where the merged hole begins: at the hole on the left if there is one. */
  ghost function MergeStart(h: Heap, a: nat): (s: nat)
    ensures s == a || LeftHole(h, a, s)
  {
    if exists b: nat :: LeftHole(h, a, b) then var b: nat :| LeftHole(h, a, b); b else a
  }

  predicate RightHole(h: Heap, t: nat) {
    t in h.cells && h.cells[t].hole
  }

  /** Where the merged hole ends: after the hole on the right if there is one. */
  function MergeEnd(h: Heap, a: nat): (e: nat)
    requires a in h.cells
    ensures a + h.cells[a].size <= e
  {
    var t := a + h.cells[a].size;
    if RightHole(h, t) then t + h.cells[t].size else t
  }

  /** The new length `contract` settles on, with its own rounding of the requested one. */
  function ContractTo(length: nat): nat {
    var rounded := if length / 0x1000 % 2 == 1 then 0x1000 + 0x1000 else length;
    if rounded < MIN_SIZE then MIN_SIZE else rounded
  }

  /** Which is the requested length itself, if it is longer than the least one and lies in the lower half of
      a double page; and the least length otherwise. */
  lemma ContractLength(length: nat)
    ensures MIN_SIZE <= length && length % 0x2000 < 0x1000 ==> ContractTo(length) == length
    ensures length < MIN_SIZE || 0x1000 <= length % 0x2000 ==> ContractTo(length) == MIN_SIZE
  {
  }

  /** `p` is the payload of a block; follows from Wf for every block (BlocksAreFreeable). */
  ghost predicate Freeable(h: Heap, p: nat) {
    && |h.mem| == WORD_LIMIT && PAGE <= h.start && h.start + MIN_SIZE <= h.end <= WORD_LIMIT - PAGE && HEADER <= p
    && p - HEADER in h.cells && !h.cells[p - HEADER].hole && OVERHEAD <= h.cells[p - HEADER].size
    && h.start <= MergeStart(h, p - HEADER) <= p - HEADER < MergeEnd(h, p - HEADER) <= h.end
    && (RightHole(h, p - HEADER + h.cells[p - HEADER].size) ==>
          p - HEADER + h.cells[p - HEADER].size in h.index && 0 < h.cells[p - HEADER + h.cells[p - HEADER].size].size)
  }

  /** The block [a, t) becomes a hole; if a hole [s, a) precedes it, that hole's header takes over. */
  function UnifyLeft(m: Memory, s: nat, a: nat, t: nat): (r: Memory)
    requires s <= a && a + HEADER <= t <= |m| && s + HEADER <= |m| && t < WORD_LIMIT
    ensures |r| == |m|
  {
    var m1 := m[a + 4 := 1];
    if s < a then PutWord(PutWord(m1, t - 4, s), s + 8, t - s) else m1
  }

  /** The hole at `s` grows over a hole [t, e). */
  function UnifyRight(m: Memory, s: nat, t: nat, e: nat): (r: Memory)
    requires s <= e < WORD_LIMIT && s + HEADER <= |m|
    ensures |r| == |m|
  {
    if t < e then PutWord(m, s + 8, e - s) else m
  }

  /** The tags that the two unifications write. The absorbed right hole's footer is not among them. */
  ghost function MergeMem(h: Heap, a: nat): (m: Memory)
    requires Freeable(h, a + HEADER)
    ensures |m| == |h.mem|
  {
    var t := a + h.cells[a].size;
    var s, e := MergeStart(h, a), MergeEnd(h, a);
    UnifyRight(UnifyLeft(h.mem, s, a, t), s, t, e)
  }

  /** The heap once the block at `a` has become a hole and is unified with its neighbours. */
  ghost function Merge(h: Heap, a: nat): (g: Heap)
    requires Freeable(h, a + HEADER)
  {
    var t := a + h.cells[a].size;
    var s, e := MergeStart(h, a), MergeEnd(h, a);
    h.(mem := MergeMem(h, a),
       cells := (h.cells - {a, if t < e then t else a})[s := Cell(e - s, true)],
       index := if t < e then Removed(h.index, IndexOf(h.index, t)) else h.index)
  }

  /** The pages that still hold a frame once those strictly between `lo` and `hi` gave theirs up. */
  ghost function PagesWithout(pages: set<nat>, lo: nat, hi: nat): set<nat> {
    set x | x in pages && !(lo < x < hi && x % PAGE == 0)
  }

  /** What contraction leaves of a hole [s, end), in 32-bit arithmetic: it ends at the new end. */
  function RestAfter(start: nat, end: nat, s: nat): (rest: u32)
    requires start <= s <= end && start + MIN_SIZE <= end < WORD_LIMIT
    ensures (s + rest) % WORD_LIMIT == start + ContractTo(s - start)
  {
    (end - s - (end - start - ContractTo(s - start))) % WORD_LIMIT
  }

  /** `contract` and the resizing after it, for the hole [s, end); `t` is the header looked at on the right. */
  ghost function Trim(h: Heap, s: nat, t: nat): (g: Heap)
    requires |h.mem| == WORD_LIMIT && PAGE <= h.start <= s <= h.end <= WORD_LIMIT - PAGE && h.start + MIN_SIZE <= h.end
  {
    var kept, rest := ContractTo(s - h.start), RestAfter(h.start, h.end, s);
    var short := h.(end := h.start + kept, pages := PagesWithout(h.pages, h.start + kept, h.end));
    if rest > 0 then
      var foot := (s + rest) % WORD_LIMIT;
      short.(mem := PutFooter(PutWord(h.mem, s + 8, rest), foot, s), cells := h.cells[s := Cell(rest, true)])
    else
      short.(index := if t in h.index then Removed(h.index, IndexOf(h.index, t)) else h.index)
  }

  /** The merged heap, contracted if the merged hole reaches its end. */
  ghost function MergeAndTrim(h: Heap, a: nat): (g: Heap)
    requires Freeable(h, a + HEADER)
  {
    if MergeEnd(h, a) == h.end then Trim(Merge(h, a), MergeStart(h, a), a + h.cells[a].size) else Merge(h, a)
  }

  /** `free`. */
  ghost function Release(h: Heap, p: nat): (g: Heap)
    requires Freeable(h, p)
  {
    var a := p - HEADER;
    var trimmed := MergeAndTrim(h, a);
    if MergeStart(h, a) < a then trimmed else trimmed.(index := Inserted<nat>(trimmed.index, a, BySize(trimmed.mem)))
  }

  /** What `free` takes for the header of a hole when it looks at address `x`. */
  ghost predicate ReadsAsHole(m: Memory, x: nat) {
    x + HEADER <= |m| && Word(m, x) == MAGIC && m[x + 4] != 0
  }

  /** What a read behind a block that ends the heap meets when the page there holds no frame: a fault; or,
      if the page gave its frame up and kept its present bit, frame 0, which reads as a hole or does not. */
  datatype Behind = Fault | Hole | Other

  /** How a call of `free` ends: with a heap, in the ASSERT that the absorbed header is indexed, or in a
      page fault. */
  datatype Outcome = Done(heap: Heap) | Panic | PageFault

  /** `free` looks at the address behind the block even when the block ends the heap. */
  ghost function FreeOutcome(h: Heap, p: nat, b: Behind): Outcome
    requires Freeable(h, p)
  {
    var t := p - HEADER + h.cells[p - HEADER].size;
    if t == h.end && t !in h.pages then
      match b
      case Fault => PageFault
      case Hole => Panic
      case Other => Done(Release(h, p))
    else if ReadsAsHole(h.mem, t) && t !in h.index then Panic
    else Done(Release(h, p))
  }

  /** The merges are sound: a right merge must reach the end of the heap, and a merged hole that reaches
      the end must start low enough for `contract` to stop at MIN_SIZE. */
  ghost predicate MergeDomain(h: Heap, p: nat)
    requires Freeable(h, p)
  {
    var a := p - HEADER;
    var s, t, e := MergeStart(h, a), a + h.cells[a].size, MergeEnd(h, a);
    && (t < e ==> e == h.end)
    && (e == h.end ==> s - h.start <= MIN_SIZE - OVERHEAD)
  }

  /** Nothing reads as a hole right behind the heap. */
  ghost predicate EndsPlain(h: Heap, b: Behind) {
    if h.end in h.pages then !ReadsAsHole(h.mem, h.end) else b == Other
  }

  /** Where `free` is sound: its merges are, and behind a block that ends the heap nothing reads as a hole. */
  ghost predicate FreeDomain(h: Heap, p: nat, b: Behind)
    requires Freeable(h, p)
  {
    MergeDomain(h, p) && (p - HEADER + h.cells[p - HEADER].size == h.end ==> EndsPlain(h, b))
  }

  lemma BlocksAreFreeable(h: Heap, p: nat)
    requires Wf(h) && HEADER <= p && p - HEADER in h.cells && !h.cells[p - HEADER].hole
    ensures Freeable(h, p)
  {
    var a := p - HEADER;
    CellIsGood(h, a);
    var s, t := MergeStart(h, a), a + h.cells[a].size;
    if s != a {
      CellIsGood(h, s);
    }
    if t in h.cells {
      CellIsGood(h, t);
    }
  }

  /** The stretch [s, e) of a merge holds the freed block and the holes beside it, and nothing else;
      what stands on either side is not a hole. */
  ghost predicate Stretch(h: Heap, a: nat, s: nat, t: nat, e: nat) {
    && a in h.cells && t == a + h.cells[a].size && s in h.cells && (e in h.cells || e == h.end)
      && t <= WORD_LIMIT - PAGE
    && (forall x | s <= x < e && x in h.cells :: x == s || x == a || x == t)
    && (forall b | b in h.cells && h.cells[b].hole :: b + h.cells[b].size != s)
    && (e in h.cells ==> !h.cells[e].hole)
    && Good(h, a) && Good(h, s) && (t < e ==> Good(h, t)) && a + OVERHEAD <= t
    && (s < a ==> s + OVERHEAD <= a) && (t < e ==> t + OVERHEAD <= e) && !OneHole(h)
  }

  lemma MergeStretch(h: Heap, p: nat)
    requires Wf(h) && Freeable(h, p)
    ensures var a := p - HEADER; Stretch(h, a, MergeStart(h, a), a + h.cells[a].size, MergeEnd(h, a))
  {
    hide Wf, HeaderAt, FooterAt, Good, MergeStart, MergeEnd;
    var a := p - HEADER;
    var s, t, e := MergeStart(h, a), a + h.cells[a].size, MergeEnd(h, a);
    StretchCells(h, p);
    StretchBorders(h, p);
    GoodCell(h, a);
    GoodCell(h, s);
    if t < e {
      GoodCell(h, t);
    }
    if OneHole(h) && h.start < a {
      CellsInOrder(h, h.start, a);
    }
  }

  lemma GoodCell(h: Heap, a: nat)
    requires Wf(h) && a in h.cells
    ensures Good(h, a) && OVERHEAD <= h.cells[a].size && a + h.cells[a].size <= WORD_LIMIT - PAGE && h.start <= a
    ensures a + h.cells[a].size == h.end || a + h.cells[a].size in h.cells
  {
    CellIsGood(h, a);
  }

  lemma StretchCells(h: Heap, p: nat)
    requires Wf(h) && Freeable(h, p)
    ensures var a := p - HEADER; var s, t, e := MergeStart(h, a), a + h.cells[a].size, MergeEnd(h, a);
      && s in h.cells && (t < e ==> t in h.cells)
        && (forall x | s <= x < e && x in h.cells :: x == s || x == a || x == t)
      && (s < a ==> s + h.cells[s].size == a) && (t < e ==> t + h.cells[t].size == e)
  {
    hide Wf, MergeStart;
    var a := p - HEADER;
    var s, t, e := MergeStart(h, a), a + h.cells[a].size, MergeEnd(h, a);
    forall x | s <= x < e && x in h.cells ensures x == s || x == a || x == t {
      if s < x { CellsInOrder(h, s, x); }
      if a < x { CellsInOrder(h, a, x); }
      if t < x && t in h.cells { CellsInOrder(h, t, x); }
    }
  }

  lemma StretchBorders(h: Heap, p: nat)
    requires Wf(h) && Freeable(h, p)
    ensures var a := p - HEADER; var s, e := MergeStart(h, a), MergeEnd(h, a);
      && (forall b | b in h.cells && h.cells[b].hole :: b + h.cells[b].size != s) && (e in h.cells || e == h.end)
      && (e in h.cells ==> !h.cells[e].hole)
  {
    hide Wf;
    var a := p - HEADER;
    var s, t, e := MergeStart(h, a), a + h.cells[a].size, MergeEnd(h, a);
    CellBehind(h, a);
    if t in h.cells {
      CellBehind(h, t);
    }
    if e in h.cells && t < e {
      NoHoleBesideHole(h, t);
    }
    forall b | b in h.cells && h.cells[b].hole ensures b + h.cells[b].size != s {
      if b + h.cells[b].size == s {
        assert s == a ==> LeftHole(h, a, b);
        NoHoleBesideHole(h, b);
      }
    }
  }

  lemma LeftTags(m: Memory, s: nat, a: nat, t: nat)
    requires a + OVERHEAD <= t <= |m| && t < WORD_LIMIT && (s == a || s + OVERHEAD <= a)
    requires HeaderAt(m, a, Cell(t - a, false)) && FooterAt(m, t, a)
    requires s < a ==> HeaderAt(m, s, Cell(a - s, true))
    ensures var r := UnifyLeft(m, s, a, t);
      SameOutside(m, r, s, t) && HeaderAt(r, s, Cell(t - s, true)) && FooterAt(r, t, s)
  {
    var m1 := m[a + 4 := 1];
    assert HeaderAt(m1, a, Cell(t - a, true)) && FooterAt(m1, t, a);
    if s < a {
      hide PutWord;
      var m2 := PutWord(m1, t - 4, s);
      assert HeaderAt(m2, s, Cell(a - s, true)) && FooterAt(m2, t, s);
    }
  }

  lemma RightTags(m: Memory, s: nat, t: nat, e: nat)
    requires t < e && s + OVERHEAD <= t && t + OVERHEAD <= e <= |m| && e < WORD_LIMIT
    requires HeaderAt(m, s, Cell(t - s, true)) && FooterAt(m, e, t)
    ensures var r := UnifyRight(m, s, t, e);
      SameOutside(m, r, s, e) && HeaderAt(r, s, Cell(e - s, true)) && FooterAt(r, e, t)
  {
    hide PutWord;
  }

  /** The tags after unification: a header for the whole stretch, whose footer points back at it when
      nothing was absorbed on the right, and still at the absorbed hole when something was. */
  lemma MergeTags(h: Heap, p: nat)
    requires Wf(h) && Freeable(h, p)
    ensures var a := p - HEADER; var t := a + h.cells[a].size;
      var s, e, m := MergeStart(h, a), MergeEnd(h, a), MergeMem(h, a);
      && SameOutside(h.mem, m, s, e) && HeaderAt(m, s, Cell(e - s, true))
      && FooterAt(m, e, if t < e then t else s)
  {
    hide Wf, Good, LeftHole, MergeEnd, MergeStart, OneHole, InPlace, Before, HeaderAt, FooterAt, UnifyLeft;
    MergeStretch(h, p);
    GoodTags(h, p);
    var a := p - HEADER;
    var t := a + h.cells[a].size;
    var s, e := MergeStart(h, a), MergeEnd(h, a);
    LeftTags(h.mem, s, a, t);
    if t < e {
      var m := UnifyLeft(h.mem, s, a, t);
      TagsSurvive(h.mem, m, s, t, t, Cell(e - t, true));
      RightTags(m, s, t, e);
    }
  }

  lemma GoodTags(h: Heap, p: nat)
    requires Wf(h) && Freeable(h, p)
    ensures var a := p - HEADER; var t := a + h.cells[a].size; var s, e := MergeStart(h, a), MergeEnd(h, a);
      && HeaderAt(h.mem, a, h.cells[a]) && FooterAt(h.mem, t, a)
      && (s < a ==> HeaderAt(h.mem, s, Cell(a - s, true)))
      && (t < e ==> FooterAt(h.mem, e, t))
  {
    hide HeaderAt, FooterAt, Configured, Spelled;
    MergeStretch(h, p);
  }

  /** The index after `free`: the absorbed right hole is gone and the merged hole is there, once. */
  ghost predicate IndexAfterFree(h: Heap, g: Heap, p: nat)
    requires Freeable(h, p)
  {
    var a := p - HEADER;
    var s, t := MergeStart(h, a), a + h.cells[a].size;
    NoDuplicates(g.index) && forall x :: x in g.index <==> (x in h.index && !(s <= x < MergeEnd(h, a))) || x == s
  }

  lemma ReleaseIndex(h: Heap, p: nat)
    requires Wf(h) && Freeable(h, p)
    ensures IndexAfterFree(h, Release(h, p), p)
  {
    hide Inserted, Removed, IndexOf, MergeMem, PutFooter, PutWord, HeaderAt, FooterAt, InPlace, Configured, MergeStart;
    MergeStretch(h, p);
    var a := p - HEADER;
    var s, t := MergeStart(h, a), a + h.cells[a].size;
    var e := MergeEnd(h, a);
    if t < e {
      RemovalMembers(h.index, IndexOf(h.index, t));
    }
    var merged := Merge(h, a);
    if t in h.index {
      CellIsGood(h, t);
    }
    assert t !in merged.index;
    assert forall x :: x in merged.index <==> x in h.index && x != t;
    var trimmed := if e == h.end then Trim(merged, s, t) else merged;
    assert trimmed.index == merged.index;
    InsertionMembers<nat>(trimmed.index, a, BySize(trimmed.mem));
  }

  /** The cells [s, e) have become the single hole [s, s + size). */
  ghost predicate OneHoleInstead(h: Heap, g: Heap, s: nat, e: nat, size: nat) {
    && (forall x :: x in g.cells <==> x == s || (x in h.cells && !(s <= x < e)))
    && (forall x | x in g.cells :: g.cells[x] == if x == s then Cell(size, true) else h.cells[x])
  }

  lemma MergeCells(h: Heap, p: nat)
    requires Wf(h) && Freeable(h, p)
    ensures var a := p - HEADER; var s, e := MergeStart(h, a), MergeEnd(h, a);
      OneHoleInstead(h, Merge(h, a), s, e, e - s)
  {
    hide Good, MergeMem, MergeStart, Wf, OneHole;
    MergeStretch(h, p);
  }

  /** `g` is `h` with the merged stretch turned into one hole, and nothing else changed. */
  ghost predicate MergedOnly(h: Heap, p: nat, g: Heap)
    requires Freeable(h, p)
  {
    var s, e := MergeStart(h, p - HEADER), MergeEnd(h, p - HEADER);
    Patched(h, g, s, e) && OneHoleInstead(h, g, s, e, e - s)
  }

  /** A `free` that stays clear of the end of the heap and absorbs nothing on the right. */
  lemma InnerFreeKeepsWf(h: Heap, p: nat)
    requires Wf(h) && Freeable(h, p)
    requires MergeEnd(h, p - HEADER) == p - HEADER + h.cells[p - HEADER].size != h.end
    ensures Wf(Release(h, p)) && MergedOnly(h, p, Release(h, p))
  {
    hide Wf, Release, Merge, MergeMem, HeaderAt, FooterAt, MergeStart, MergeEnd, Configured;
    var a, g := p - HEADER, Release(h, p);
    var s, e := MergeStart(h, a), MergeEnd(h, a);
    MergeStretch(h, p);
    MergeTags(h, p);
    MergeCells(h, p);
    ReleaseIndex(h, p);
    InnerIsMerge(h, p);
    WfIsConfigured(h);
    SameBoundsConfigured(h, g);
    assert Patched(h, g, s, e);
    assert Good(g, s);
    PatchKeepsWf(h, g, s, e) by { hide Good, Patched; }
  }

  /** Away from the end of the heap nothing but the merges and the index change. */
  lemma InnerIsMerge(h: Heap, p: nat)
    requires Freeable(h, p) && MergeEnd(h, p - HEADER) != h.end
    ensures var g := Release(h, p);
      && g.mem == MergeMem(h, p - HEADER) && g.cells == Merge(h, p - HEADER).cells && |g.mem| == |h.mem|
      && g.start == h.start && g.end == h.end && g.max == h.max && g.pages == h.pages
  {
    hide Merge, MergeMem, Release, MergeStart, MergeEnd;
    ReleaseIsTrimmed(h, p);
    MergeKeepsBounds(h, p);
  }

  lemma SameBoundsConfigured(h: Heap, g: Heap)
    requires Configured(h) && |g.mem| == |h.mem|
    requires g.start == h.start && g.end == h.end && g.max == h.max && g.pages == h.pages
    ensures Configured(g)
  {
  }

  /** Below the threshold `contract` always stops at exactly MIN_SIZE. */
  lemma ContractStopsAtMinSize(length: nat)
    ensures ContractTo(length) == MIN_SIZE <==> length <= MIN_SIZE || length / 0x1000 % 2 == 1
  {
  }

  lemma TrimToMinSize(h: Heap, s: nat, t: nat)
    requires |h.mem| == WORD_LIMIT && PAGE <= h.start <= s <= h.end <= WORD_LIMIT - PAGE && h.start + MIN_SIZE <= h.end
    requires s - h.start <= MIN_SIZE - OVERHEAD
    ensures var e := h.start + MIN_SIZE;
      Trim(h, s, t) == h.(end := e, mem := PutFooter(PutWord(h.mem, s + 8, e - s), e, s),
                          cells := h.cells[s := Cell(e - s, true)],
                          pages := PagesWithout(h.pages, e, h.end))
  {
    hide PutFooter, PutWord, PagesWithout, ContractTo;
    ContractStopsAtMinSize(s - h.start);
    var rest := h.start + MIN_SIZE - s;
    assert (h.end - s - (h.end - h.start - MIN_SIZE)) % WORD_LIMIT == rest;
    assert (s + rest) % WORD_LIMIT == s + rest;
  }

  /** The last step of `free` adds to the index, if anything, and changes nothing else. */
  lemma ReleaseIsTrimmed(h: Heap, p: nat)
    requires Freeable(h, p)
    ensures var g := Release(h, p); g == MergeAndTrim(h, p - HEADER).(index := g.index)
  {
    hide Inserted, MergeAndTrim, MergeStart, MergeEnd;
  }

  lemma OuterCells(h: Heap, p: nat)
    requires Wf(h) && Freeable(h, p) && MergeDomain(h, p) && MergeEnd(h, p - HEADER) == h.end
    ensures var s := MergeStart(h, p - HEADER);
      s + OVERHEAD <= h.start + MIN_SIZE && OneHoleInstead(h, Release(h, p), s, h.end, h.start + MIN_SIZE - s)
  {
    hide Release, Merge, MergeStart, MergeEnd, Trim, Wf, OneHoleInstead, PutFooter, PutWord, PagesWithout;
    var a := p - HEADER;
    var merged, s := Merge(h, a), MergeStart(h, a);
    MergeCells(h, p);
    ReleaseIsTrimmed(h, p);
    MergeKeepsBounds(h, p);
    TrimToMinSize(merged, s, a + h.cells[a].size);
    ResizeOneHole(h, merged, s, h.end, h.start + MIN_SIZE - s);
  }

  lemma MergeKeepsBounds(h: Heap, p: nat)
    requires Freeable(h, p)
    ensures var g := Merge(h, p - HEADER);
      |g.mem| == |h.mem| && g.mem == MergeMem(h, p - HEADER) && g.start == h.start && g.end == h.end && g.max == h.max
      && g.pages == h.pages
  {
    hide MergeStart, MergeEnd, MergeMem;
  }

  /** `g` is `h` cut down to MIN_SIZE, with a hole at `s` closing it, tagged over the memory `m`. */
  ghost predicate CutDown(h: Heap, m: Memory, g: Heap, s: nat)
    requires |m| == WORD_LIMIT && h.start + MIN_SIZE <= h.end <= WORD_LIMIT - PAGE
  {
    var e := h.start + MIN_SIZE;
    && g.start == h.start && g.end == e && g.max == h.max && s + OVERHEAD <= e
    && OneHoleInstead(h, g, s, h.end, e - s)
    && g.mem == PutFooter(PutWord(m, s + 8, e - s), e, s)
    && g.pages == PagesWithout(h.pages, e, h.end)
  }

  lemma OuterShape(h: Heap, p: nat)
    requires Wf(h) && Freeable(h, p) && MergeDomain(h, p) && MergeEnd(h, p - HEADER) == h.end
    ensures CutDown(h, MergeMem(h, p - HEADER), Release(h, p), MergeStart(h, p - HEADER))
  {
    hide Release, Merge, MergeMem, MergeStart, MergeEnd, PutFooter, PutWord, Trim, Wf, PagesWithout, OneHoleInstead;
    var a := p - HEADER;
    OuterCells(h, p);
    ReleaseIsTrimmed(h, p);
    MergeKeepsBounds(h, p);
    TrimToMinSize(Merge(h, a), MergeStart(h, a), a + h.cells[a].size);
  }

  lemma ResizeOneHole(h: Heap, g: Heap, s: nat, e: nat, size: nat)
    requires s <= e && OneHoleInstead(h, g, s, e, e - s)
    ensures OneHoleInstead(h, g.(cells := g.cells[s := Cell(size, true)]), s, e, size)
    ensures forall k: Heap | k.cells == g.cells[s := Cell(size, true)] :: OneHoleInstead(h, k, s, e, size)
  {
  }

  lemma OuterPatch(h: Heap, p: nat)
    requires Wf(h) && Freeable(h, p) && MergeDomain(h, p) && MergeEnd(h, p - HEADER) == h.end
    ensures var g := Release(h, p); var s := MergeStart(h, p - HEADER);
      Patched(h, g, s, h.end) && Configured(g) && HeaderAt(g.mem, s, g.cells[s]) && FooterAt(g.mem, g.end, s)
  {
    hide Release, Merge, MergeMem, HeaderAt, FooterAt, MergeStart, MergeEnd, PutFooter, PutWord, Wf, MergeDomain, Good;
    var a, g := p - HEADER, Release(h, p);
    var s := MergeStart(h, a);
    MergeStretch(h, p);
    StretchEdges(h, p);
    ReleaseIndex(h, p);
    OuterShape(h, p);
    OuterTags(h, p);
    WfIsConfigured(h);
    CutDownIsConfigured(h, MergeMem(h, a), g, s);
  }

  lemma OuterTags(h: Heap, p: nat)
    requires Wf(h) && Freeable(h, p) && MergeDomain(h, p) && MergeEnd(h, p - HEADER) == h.end
    ensures var g := Release(h, p); var s := MergeStart(h, p - HEADER);
      && s in g.cells && HeaderAt(g.mem, s, g.cells[s]) && FooterAt(g.mem, g.end, s)
        && SameOutside(h.mem, g.mem, s, h.end)
  {
    hide Release, Merge, MergeMem, HeaderAt, FooterAt, MergeStart, MergeEnd, PutFooter, PutWord, Wf, MergeDomain;
    var a, g := p - HEADER, Release(h, p);
    var s := MergeStart(h, a);
    StretchEdges(h, p);
    MergeTags(h, p);
    OuterShape(h, p);
    GrowHoleTags(MergeMem(h, a), s, h.end - s, g.end - s);
  }

  lemma CutDownIsConfigured(h: Heap, m: Memory, g: Heap, s: nat)
    requires Configured(h) && |m| == WORD_LIMIT && CutDown(h, m, g, s)
    ensures Configured(g)
  {
    hide PutFooter, PutWord, OneHoleInstead;
    LeastEnd(h.start);
  }

  lemma LeastEnd(start: nat)
    requires start % PAGE == 0
    ensures (start + MIN_SIZE) % PAGE == 0
  {
  }

  /** A `free` that reaches the end of the heap leaves it at MIN_SIZE, closed by one trailing hole. */
  lemma OuterFreeKeepsWf(h: Heap, p: nat)
    requires Wf(h) && Freeable(h, p) && MergeDomain(h, p) && MergeEnd(h, p - HEADER) == h.end
    ensures var g := Release(h, p); var s := MergeStart(h, p - HEADER);
      && Wf(g) && g.end == g.start + MIN_SIZE
      && Patched(h, g, s, h.end) && OneHoleInstead(h, g, s, h.end, g.end - s)
  {
    hide Release, Merge, MergeMem, HeaderAt, FooterAt, MergeStart, MergeEnd, PutFooter, PutWord, Patched;
    var g, s := Release(h, p), MergeStart(h, p - HEADER);
    StretchEdges(h, p);
    ReleaseIndex(h, p);
    OuterShape(h, p);
    OuterPatch(h, p);
    assert Good(g, s);
    PatchKeepsWf(h, g, s, h.end) by { hide Good, Patched; }
  }

  lemma FreeKeepsWf(h: Heap, p: nat)
    requires Wf(h) && Freeable(h, p) && MergeDomain(h, p)
    ensures Wf(Release(h, p))
  {
    if MergeEnd(h, p - HEADER) == h.end {
      OuterFreeKeepsWf(h, p);
    } else {
      InnerFreeKeepsWf(h, p);
    }
  }

  lemma OneHoleKeepsBlocks(h: Heap, g: Heap, p: nat, size: nat)
    requires Wf(h) && Freeable(h, p)
    requires Patched(h, g, MergeStart(h, p - HEADER), MergeEnd(h, p - HEADER))
    requires OneHoleInstead(h, g, MergeStart(h, p - HEADER), MergeEnd(h, p - HEADER), size)
    ensures forall b {:trigger KeepsBlock(h, g, b)} | b in h.cells && !h.cells[b].hole && b != p - HEADER ::
      KeepsBlock(h, g, b)
    ensures forall b | b in g.cells && !g.cells[b].hole :: b != p - HEADER && b in h.cells && !h.cells[b].hole
  {
    hide Wf, KeepsBlock, Patched, Good;
    var a := p - HEADER;
    var s, e := MergeStart(h, a), MergeEnd(h, a);
    MergeStretch(h, p);
    forall b | b in h.cells && !h.cells[b].hole && b != a ensures KeepsBlock(h, g, b) {
      OutsideBlocksKept(h, g, s, e, b);
    }
  }

  /** `free` takes away one block and touches no byte of any other. */
  lemma FreeTakesOneBlock(h: Heap, p: nat)
    requires Wf(h) && Freeable(h, p) && MergeDomain(h, p)
    ensures var a := p - HEADER; var g := Release(h, p);
      && (forall b {:trigger KeepsBlock(h, g, b)} | b in h.cells && !h.cells[b].hole && b != a :: KeepsBlock(h, g, b))
      && (forall b | b in g.cells && !g.cells[b].hole :: b != a && b in h.cells && !h.cells[b].hole)
      && g.start == h.start && g.max == h.max
  {
    hide Release, Wf, KeepsBlock, Patched, Good, OneHoleInstead, MergeStart, MergeEnd;
    var g, s := Release(h, p), MergeStart(h, p - HEADER);
    if MergeEnd(h, p - HEADER) == h.end {
      OuterFreeKeepsWf(h, p);
      OuterShape(h, p);
      OneHoleKeepsBlocks(h, g, p, g.end - s);
    } else {
      InnerFreeKeepsWf(h, p);
      InnerBounds(h, p);
      OneHoleKeepsBlocks(h, g, p, MergeEnd(h, p - HEADER) - s);
    }
  }

  lemma InnerBounds(h: Heap, p: nat)
    requires Freeable(h, p) && MergeEnd(h, p - HEADER) != h.end
    ensures Release(h, p).start == h.start && Release(h, p).max == h.max && Release(h, p).end == h.end
    ensures Release(h, p).pages == h.pages
  {
  }

  /** Contracting too far: the merged hole is still indexed, but no longer fits below the end. */
  lemma DeepContractionBreaks(h: Heap, p: nat, cells: map<nat, Cell>)
    requires Wf(h) && Freeable(h, p) && MergeEnd(h, p - HEADER) == h.end
    requires MergeStart(h, p - HEADER) - h.start > MIN_SIZE - OVERHEAD
    ensures !Wf(Release(h, p).(cells := cells))
  {
    hide Inserted, Removed, MergeMem, HeaderAt, FooterAt, MergeStart, MergeEnd, PutFooter, PutWord, MergeEnd;
    var g := Release(h, p).(cells := cells);
    var s := MergeStart(h, p - HEADER);
    MergeStretch(h, p);
    ReleaseIndex(h, p);
    assert s in g.index && g.end < s + OVERHEAD;
    if Wf(g) {
      CellIsGood(g, s);
    }
  }

  lemma AbsorbedPatch(h: Heap, p: nat)
    requires Wf(h) && Freeable(h, p) && MergeEnd(h, p - HEADER) != h.end
    ensures MergedOnly(h, p, Release(h, p)) && Release(h, p).end <= |Release(h, p).mem|
    ensures Release(h, p).cells == Merge(h, p - HEADER).cells && Release(h, p).mem == MergeMem(h, p - HEADER)
  {
    hide Wf, Release, Merge, MergeMem, HeaderAt, FooterAt, MergeStart, MergeEnd, Good;
    StretchEdges(h, p);
    InnerIsMerge(h, p);
    MergeStretch(h, p);
    MergeTags(h, p);
    MergeCells(h, p);
    ReleaseIndex(h, p);
  }

  lemma StretchEdges(h: Heap, p: nat)
    requires Wf(h) && Freeable(h, p)
    ensures var s, e := MergeStart(h, p - HEADER), MergeEnd(h, p - HEADER);
      h.start <= s && s in h.cells && s + OVERHEAD <= e <= h.end && (e in h.cells || e == h.end) && h.end !in h.cells
  {
    hide Wf, HeaderAt, FooterAt, MergeEnd;
    MergeStretch(h, p);
    if h.end in h.cells {
      CellIsGood(h, h.end);
    }
  }

  lemma MergedCellInPlace(h: Heap, g: Heap, s: nat, e: nat)
    requires s <= e && OneHoleInstead(h, g, s, e, e - s) && g.start <= s && s + OVERHEAD <= e <= g.end
    requires e in h.cells || e == g.end
    ensures s in g.cells && g.cells[s] == Cell(e - s, true) && InPlace(g, s)
    ensures forall x | x in g.cells && s <= x < e :: x == s
  {
  }

  lemma AbsorbedIsSpelled(h: Heap, p: nat)
    requires Wf(h) && Freeable(h, p) && MergeEnd(h, p - HEADER) != h.end
    ensures Spelled(Release(h, p))
  {
    hide Release, Merge, MergeMem, HeaderAt, FooterAt, MergeStart, MergeEnd, Patched, Wf;
    var g, s, e := Release(h, p), MergeStart(h, p - HEADER), MergeEnd(h, p - HEADER);
    AbsorbedPatch(h, p);
    StretchEdges(h, p);
    MergeTags(h, p);
    MergeCells(h, p);
    InnerBounds(h, p);
    hide Freeable;
    MergedCellInPlace(h, g, s, e);
    hide OneHoleInstead, InPlace, Spelled;
    PatchIsSpelled(h, g, s, e);
  }

  /** Absorbing a hole that does not end the heap leaves its footer pointing at the absorbed header;
      no other reading of the memory helps, because the headers allow only one layout. */
  lemma StaleFooterBreaks(h: Heap, p: nat, cells: map<nat, Cell>)
    requires Wf(h) && Freeable(h, p)
    requires p - HEADER + h.cells[p - HEADER].size < MergeEnd(h, p - HEADER) != h.end
    ensures !Wf(Release(h, p).(cells := cells))
  {
    hide Release, Merge, MergeMem, MergeStart, MergeEnd, HeaderAt, Patched;
    var g := Release(h, p);
    var s, e := MergeStart(h, p - HEADER), MergeEnd(h, p - HEADER);
    var other := g.(cells := cells);
    if Wf(other) {
      AbsorbedIsSpelled(h, p);
      AbsorbedPatch(h, p);
      StretchEdges(h, p);
      MergeTags(h, p);
      MergeCells(h, p);
      InnerBounds(h, p);
      TheWalkIsTheOnlyLayout(g, other);
      MergedCellInPlace(h, g, s, e);
      hide OneHoleInstead, Freeable, Spelled;
      WfNeedsFooter(other, s);
    }
  }

  /** A cell that does not end the heap must have a footer that points back at it. */
  lemma WfNeedsFooter(h: Heap, a: nat)
    requires Wf(h) && a in h.cells && a + h.cells[a].size != h.end
    ensures FooterAt(h.mem, a + h.cells[a].size, a)
  {
    hide HeaderAt, FooterAt;
    CellIsGood(h, a);
    if h.start < a {
      InOrder(h, h.start, a);
    }
  }

  /** A header inside the heap reads as a hole exactly if there is one, and then it is indexed. */
  lemma BehindIsIndexed(h: Heap, p: nat)
    requires Wf(h) && Freeable(h, p)
    ensures var t := p - HEADER + h.cells[p - HEADER].size;
      (t in h.index ==> t != h.end) && (t != h.end && ReadsAsHole(h.mem, t) ==> t in h.index)
  {
    hide MergeStart, MergeEnd, Spelled;
    var t := p - HEADER + h.cells[p - HEADER].size;
    CellIsGood(h, p - HEADER);
    if t in h.cells {
      CellIsGood(h, t);
    }
  }

  /** When `free` ends with a heap at all. */
  lemma OutcomeIsDoneIff(h: Heap, p: nat, b: Behind)
    requires Wf(h) && Freeable(h, p)
    ensures FreeOutcome(h, p, b).Done? <==> (p - HEADER + h.cells[p - HEADER].size == h.end ==> EndsPlain(h, b))
    ensures FreeOutcome(h, p, b).Done? ==> FreeOutcome(h, p, b).heap == Release(h, p)
  {
    hide Release, Wf, ReadsAsHole, MergeStart, MergeEnd;
    BehindIsIndexed(h, p);
  }

  /** `free` ends with a well-formed heap exactly on its domain: outside it, it stops at the ASSERT or in a
      page fault, or no layout of the memory it leaves behind is well formed. */
  lemma FreeKeepsWfIff(h: Heap, p: nat, b: Behind)
    requires Wf(h) && Freeable(h, p)
    ensures FreeDomain(h, p, b) ==> FreeOutcome(h, p, b) == Done(Release(h, p)) && Wf(Release(h, p))
    ensures FreeOutcome(h, p, b).Done? && (exists cells :: Wf(FreeOutcome(h, p, b).heap.(cells := cells))) ==>
      FreeDomain(h, p, b)
  {
    hide Wf, Release, MergeStart, FreeOutcome, EndsPlain;
    OutcomeIsDoneIff(h, p, b);
    if MergeDomain(h, p) {
      FreeKeepsWf(h, p);
    } else {
      forall cells ensures !Wf(Release(h, p).(cells := cells)) {
        if MergeEnd(h, p - HEADER) == h.end {
          DeepContractionBreaks(h, p, cells);
        } else {
          StaleFooterBreaks(h, p, cells);
        }
      }
    }
  }
}
