/** The end of the heap: what `free` finds behind the last block, and when contraction leaves it a trap. */
module HeapEdge {
  import opened Machine
  import opened HeapCells
  import opened HeapAlloc
  import opened HeapExpand
  import opened HeapFree
  import opened HeapPages

  /** A contraction leaves something that reads as a hole at the new end exactly when it was there once
      the block had become a hole and the hole on its left had taken it over. */
  lemma ContractionLeavesTagIff(h: Heap, p: nat, s: nat, t: nat, g: Heap)
    requires Wf(h) && Freeable(h, p) && MergeDomain(h, p) && MergeEnd(h, p - HEADER) == h.end
    requires s == MergeStart(h, p - HEADER) && t == p - HEADER + h.cells[p - HEADER].size && g == Release(h, p)
    ensures s <= p - HEADER && p <= t <= |h.mem| && s + HEADER <= |h.mem| && t < WORD_LIMIT
    ensures g.end == h.start + MIN_SIZE
    ensures ReadsAsHole(g.mem, g.end) <==> ReadsAsHole(UnifyLeft(h.mem, s, p - HEADER, t), g.end)
  {
    hide Release, MergeStart, MergeEnd, UnifyLeft, Wf, PutFooter, PutWord, ReadsAsHole, MergeDomain;
    var a, e := p - HEADER, h.start + MIN_SIZE;
    OuterShape(h, p);
    StretchEdges(h, p);
    UntouchedBehind(MergeMem(h, a), PutWord(MergeMem(h, a), s + 8, e - s), s + 8, s + 12, e);
    UntouchedBehind(PutWord(MergeMem(h, a), s + 8, e - s), g.mem, e - 8, e, e);
    RightMergeBehind(UnifyLeft(h.mem, s, a, t), s, t, h.end, e);
  }

  lemma UntouchedBehind(m: Memory, r: Memory, lo: int, hi: int, x: nat)
    requires SameOutside(m, r, lo, hi) && (hi <= x || x + 5 <= lo)
    ensures ReadsAsHole(m, x) <==> ReadsAsHole(r, x)
  {
  }

  lemma RightMergeBehind(m: Memory, s: nat, t: nat, e: nat, x: nat)
    requires s <= e < WORD_LIMIT && s + HEADER <= |m| && s + HEADER <= x
    ensures ReadsAsHole(m, x) <==> ReadsAsHole(UnifyRight(m, s, t, e), x)
  {
    hide ReadsAsHole;
    UntouchedBehind(m, UnifyRight(m, s, t, e), s + 8, s + 12, x);
  }

  /** So, wherever the new end comes to lie: the freed block's own header, or that of the hole it absorbed,
      is always left there; in the block's footer it depends on the pointer written; and anywhere else it is
      as before the call. */
  lemma WhichTagsAreLeft(h: Heap, p: nat, s: nat, t: nat, g: Heap)
    requires Wf(h) && Freeable(h, p) && MergeDomain(h, p) && MergeEnd(h, p - HEADER) == h.end
    requires s == MergeStart(h, p - HEADER) && t == p - HEADER + h.cells[p - HEADER].size && g == Release(h, p)
    ensures g.end == h.start + MIN_SIZE && TagsLeft(h, p - HEADER, s, t, g)
  {
    hide Release, MergeStart, MergeEnd, Wf, UnifyLeft, MergeDomain, Freeable, HeaderAt, FooterAt, ReadsAsHole;
    var a, e := p - HEADER, h.start + MIN_SIZE;
    ContractionLeavesTagIff(h, p, s, t, g);
    EdgeFacts(h, p);
    LeftMergeAt(h.mem, s, a, t, e);
    if e == t < h.end {
      HoleReadsAsHole(h, t);
    }
  }

  ghost predicate TagsLeft(h: Heap, a: nat, s: nat, t: nat, g: Heap) {
    var e, found := g.end, ReadsAsHole(g.mem, g.end);
    && (e == a || e == t < h.end ==> found)
    && (e == t - 8 ==> (found <==> s % 0x100 != 0))
    && (t - 8 < e < t - 4 ==> !found)
    && (t - 4 <= e < t ==> (found <==> ReadsAsHole(PointerWritten(h.mem, s, a, t), e)))
    && (e != a && (e < t - 8 || t <= e) ==> (found <==> ReadsAsHole(h.mem, e)))
  }

  /** The footer's pointer follows the header only if a hole on the left took the block over. */
  function PointerWritten(m: Memory, s: nat, a: nat, t: nat): Memory {
    if s < a && 4 <= t <= |m| && s < WORD_LIMIT then PutWord(m, t - 4, s) else m
  }

  lemma EdgeFacts(h: Heap, p: nat)
    requires Wf(h) && Freeable(h, p) && MergeDomain(h, p) && MergeEnd(h, p - HEADER) == h.end
    ensures var a, e := p - HEADER, h.start + MIN_SIZE; var s, t := MergeStart(h, a), a + h.cells[a].size;
      && s + OVERHEAD <= e && e + HEADER <= |h.mem| && (s == a || s + OVERHEAD <= a) && a + OVERHEAD <= t <= |h.mem|
      && HeaderAt(h.mem, a, Cell(t - a, false)) && FooterAt(h.mem, t, a)
      && t < WORD_LIMIT && (t < h.end ==> RightHole(h, t)) && (s < a ==> HeaderAt(h.mem, s, Cell(a - s, true)))
  {
    hide Release, MergeStart, Wf, HeaderAt, FooterAt, Spelled, Tagged;
    MergeStretch(h, p);
    GoodTags(h, p);
  }

  lemma HoleReadsAsHole(h: Heap, a: nat)
    requires Wf(h) && a in h.cells && h.cells[a].hole
    ensures ReadsAsHole(h.mem, a)
  {
    CellIsGood(h, a);
  }

  lemma MagicBytes(m: Memory, x: nat)
    requires x + 4 <= |m|
    ensures Word(m, x) == MAGIC <==> m[x] == 0xAB && m[x + 1] == 0x90 && m[x + 2] == 0x38 && m[x + 3] == 0x12
  {
  }

  lemma LowByte(m: Memory, x: nat)
    requires x + 4 <= |m|
    ensures m[x] == Word(m, x) % 0x100
  {
  }

  lemma LeftMergeAt(m: Memory, s: nat, a: nat, t: nat, x: nat)
    requires s <= a && a + OVERHEAD <= t <= |m| && t < WORD_LIMIT && s + OVERHEAD <= x && (s == a || s + OVERHEAD <= a)
    requires HeaderAt(m, a, Cell(t - a, false)) && FooterAt(m, t, a) && x + HEADER <= |m|
    requires s < a ==> HeaderAt(m, s, Cell(a - s, true))
    ensures var found := ReadsAsHole(UnifyLeft(m, s, a, t), x);
      && (x == a ==> found)
      && (x == t - 8 ==> (found <==> s % 0x100 != 0))
      && (t - 8 < x < t - 4 ==> !found)
      && (t - 4 <= x < t ==> (found <==> ReadsAsHole(PointerWritten(m, s, a, t), x)))
      && (x != a && (x < t - 8 || t <= x) ==> (found <==> ReadsAsHole(m, x)))
  {
    hide PutWord, Word;
    var r := UnifyLeft(m, s, a, t);
    LeftTags(m, s, a, t);
    MagicBytes(m, x);
    MagicBytes(r, x);
    MagicBytes(m, t - 8);
    MagicBytes(r, t - 8);
    MagicBytes(PointerWritten(m, s, a, t), x);
    LowByte(r, t - 4);
    if s < a {
      SameWord(r, PointerWritten(m, s, a, t), t - 4);
    }
  }

  lemma SameWord(m: Memory, r: Memory, x: nat)
    requires x + 4 <= |m| && |m| == |r| && Word(m, x) == Word(r, x)
    ensures forall b | x <= b < x + 4 :: m[b] == r[b]
  {
    SameDigits(m[x], m[x + 1], m[x + 2], m[x + 3], r[x], r[x + 1], r[x + 2], r[x + 3]);
  }

  /** Four bytes are determined by the number they make. */
  lemma SameDigits(b0: u8, b1: u8, b2: u8, b3: u8, c0: u8, c1: u8, c2: u8, c3: u8)
    requires (b0 as int) + 0x100 * (b1 as int) + 0x1_0000 * (b2 as int) + 0x100_0000 * (b3 as int)
          == (c0 as int) + 0x100 * (c1 as int) + 0x1_0000 * (c2 as int) + 0x100_0000 * (c3 as int)
    ensures b0 == c0 && b1 == c1 && b2 == c2 && b3 == c3
  {
    var b, c := (b2 as int) + 0x100 * (b3 as int), (c2 as int) + 0x100 * (c3 as int);
    SameDigit(b0, (b1 as int) + 0x100 * b, c0, (c1 as int) + 0x100 * c);
    SameDigit(b1, b, c1, c);
    SameDigit(b2, b3, c2, c3);
  }

  lemma SameDigit(b: u8, q: int, c: u8, r: int)
    ensures (b as int) + 0x100 * q == (c as int) + 0x100 * r ==> b == c && q == r
  {
  }

  /** As long as no page beyond the heap holds a frame, a block that ends the heap can be freed exactly
      when nothing behind it reads as a hole: at the least length, if the page there has kept its frame, in
      that page; and otherwise in frame 0, if the page was given up and not just never mapped. */
  lemma LastBlockFreeableIff(h: Heap, p: nat, b: Behind)
    requires Wf(h) && Freeable(h, p) && NoStrayPages(h) && h.end < h.max
    requires p - HEADER + h.cells[p - HEADER].size == h.end
    ensures FreeDomain(h, p, b) <==>
      && MergeStart(h, p - HEADER) - h.start <= MIN_SIZE - OVERHEAD
      && if h.end == h.start + MIN_SIZE && h.end in h.pages then !ReadsAsHole(h.mem, h.end) else b == Other
  {
    hide ReadsAsHole, MergeStart, Spelled, Tagged;
    StretchEdges(h, p);
    EndIsNoCell(h);
  }

  lemma EndIsNoCell(h: Heap)
    requires Wf(h)
    ensures h.end !in h.cells
  {
    if h.end in h.cells {
      CellIsGood(h, h.end);
    }
  }
}
