/** kheap.c statement by statement, proved to do what the functions of the heap model say. */
module KHeaps {
  import opened Machine
  import opened OrderedArrays
  import opened HeapCells
  import opened HeapAlloc
  import opened HeapExpand
  import opened HeapFree
  import opened HeapRuns
  import opened KHeapFacts

  /** How a call ends: it returns, fails an ASSERT, or faults. */
  datatype Ending = Returned | Panicked | Faulted

  function EndingOf(o: Outcome): Ending {
    match o
    case Done(_) => Returned
    case Panic => Panicked
    case PageFault => Faulted
  }

  /** `heap_t`, the memory it manages, and the page entries that hold a frame. */
  class KHeap {
    var mem: Memory
    const index: OrderedArray
    var startAddress: nat
    var endAddress: nat
    var maxAddress: nat
    var pages: set<nat>
    ghost var cells: map<nat, Cell>

    ghost function Snapshot(): Heap
      requires index.Valid()
      reads this, index, index.items
    {
      Heap(mem, cells, index.Contents(), startAddress, endAddress, maxAddress, pages)
    }

    /** Well formed, with a free slot in the index: removal reads the slot behind the last one. */
    ghost predicate Valid()
      reads this, index, index.items
    {
      index.Valid() && index.size < index.items.Length && Wf(Snapshot())
    }

    /** `create_heap`; its two ASSERTs are preconditions. */
    constructor (m: Memory, start: nat, end: nat, max: nat, mapped: set<nat>)
      requires |m| == WORD_LIMIT && start % PAGE == 0 && end % PAGE == 0
      requires DataStart(start) + MIN_SIZE <= end <= max <= WORD_LIMIT - PAGE && max - DataStart(start) < 0x8000_0000
      requires FencedBelow(m, DataStart(start)) && forall x | start <= x < end && x % PAGE == 0 :: x in mapped
      ensures Valid() && fresh(index) && fresh(index.items) && index.items.Length == INDEX_SIZE
      ensures Snapshot() == Create(m, start, end, max, mapped)
    {
      hide PutHeader, HeaderAt, Wf;
      var s := start + 4 * INDEX_SIZE;
      if s / PAGE != 0 {
        s := s / PAGE * PAGE;
        s := s + PAGE;
      }
      var holes := new OrderedArray(INDEX_SIZE);
      var written := PutHeader(m, s, Cell(end - s, true));
      holes.Insert(s, BySize(written));
      index := holes;
      startAddress, endAddress, maxAddress, pages := s, end, max, mapped;
      mem := written;
      cells := map[s := Cell(end - s, true)];
      new;
      CreateIsWf(m, start, end, max, mapped);
      assert index.Contents() == [s];
      assert Snapshot() == Create(m, start, end, max, mapped);
    }

    /** `find_smallest_hole`, with -1 for none. */
    method FindSmallestHole(size: nat, pageAlign: bool) returns (found: int)
      requires Valid() && size < 0x8000_0000
      ensures found == var k := Find(Snapshot(), 0, size, pageAlign); if k == index.size then -1 else k
    {
      ghost var h := Snapshot();
      var k := 0;
      while k < index.size
        invariant k <= index.size && Find(h, 0, size, pageAlign) == Find(h, k, size, pageAlign)
      {
        var header := index.Lookup(k);
        HoleIsUsable(h, k);
        if pageAlign {
          var offset := 0;
          if (header + HEADER) / PAGE != 0 {
            offset := PAGE - (header + HEADER) % PAGE;
          }
          var holeSize := Word(mem, header + 8) - offset;
          if holeSize >= size { break; }
        } else if Word(mem, header + 8) >= size {
          break;
        }
        k := k + 1;
      }
      found := if k == index.size then -1 else k;
    }

    /** `expand`, in 32-bit arithmetic; its ASSERTs are preconditions. Each new page is given a frame. */
    method Expand(newSize: u32)
      requires index.Valid() && Configured(Snapshot()) && newSize > endAddress - startAddress
      requires (startAddress + RoundUp(newSize) % WORD_LIMIT) % WORD_LIMIT <= maxAddress
      modifies this`endAddress, this`pages
      ensures var length := RoundUp(newSize) % WORD_LIMIT;
        && endAddress == (startAddress + length) % WORD_LIMIT
        && pages == old(pages) + PagesBehind(startAddress, old(endAddress) - startAddress, length)
    {
      var length := newSize;
      if length / PAGE != 0 {
        length := length / PAGE * PAGE;
        length := (length + PAGE) % WORD_LIMIT;
      }
      MapPages(endAddress - startAddress, length);
      endAddress := (startAddress + length) % WORD_LIMIT;
    }

    /** The loop of `expand`. */
    method MapPages(oldSize: nat, length: u32)
      requires oldSize % PAGE == 0 && (length % PAGE == 0 || length < PAGE)
      modifies this`pages
      ensures pages == old(pages) + PagesBehind(startAddress, oldSize, length)
    {
      hide PagesBehind;
      var i := oldSize;
      NoPagesYet(startAddress, oldSize);
      while i < length
        invariant oldSize <= i && i % PAGE == 0 && (i < length + PAGE || i == oldSize)
        invariant pages == old(pages) + PagesBehind(startAddress, oldSize, i)
      {
        OnePageMore(startAddress, oldSize, i);
        pages := pages + {(startAddress + i) % WORD_LIMIT};
        i := i + PAGE;
      }
      NoPagesBetween(startAddress, oldSize, length, i);
    }

    /** `contract`; its ASSERT is a precondition. Pages above the new end give up their frames. */
    method Contract(newSize: nat) returns (length: nat)
      requires index.Valid() && Configured(Snapshot()) && newSize < endAddress - startAddress
      modifies this`endAddress, this`pages
      ensures length == ContractTo(newSize) && endAddress == startAddress + length
      ensures pages == PagesWithout(old(pages), endAddress, old(endAddress))
    {
      length := newSize;
      if length / 0x1000 % 2 == 1 {
        length := 0x1000;
        length := length + 0x1000;
      }
      if length < MIN_SIZE {
        length := MIN_SIZE;
      }
      PagesApart(endAddress, startAddress);
      GiveUpPages(length, endAddress - startAddress);
      endAddress := startAddress + length;
    }

    /** The loop of `contract`. */
    method GiveUpPages(length: nat, oldSize: nat)
      requires PAGE <= oldSize && oldSize % PAGE == 0 && startAddress % PAGE == 0
      modifies this`pages
      ensures pages == PagesWithout(old(pages), startAddress + length, startAddress + oldSize)
    {
      var i := oldSize - PAGE;
      LastPageFirst(pages, startAddress, length, oldSize);
      while length < i
        invariant 0 <= i <= oldSize - PAGE && i % PAGE == 0
        invariant PagesLeft(old(pages), pages, startAddress, length, oldSize, i)
      {
        PagesApart(startAddress, i);
        OnePageFewer(old(pages), pages, startAddress + length, startAddress + i, startAddress + oldSize);
        pages := pages - {startAddress + i};
        i := i - PAGE;
      }
    }

    /** The endmost header, by location; NO_INDEX stands for none, but is an index position, too. */
    method EndmostHeader() returns (idx: nat)
      requires index.Valid() && forall x | x in index.Contents() :: x > 0
      ensures index.size == 0 ==> idx == NO_INDEX
      ensures index.size > 0 ==> var s := index.Contents();
        idx < index.size && s[idx] == Highest(s) && idx == IndexOf(s, Highest(s))
    {
      ghost var s := index.Contents();
      var k := 0;
      idx := NO_INDEX;
      var value := 0;
      while k < index.size
        invariant k <= index.size
        invariant k == 0 ==> idx == NO_INDEX && value == 0
        invariant k > 0 ==> idx < k && value == s[idx] && value !in s[..idx]
        invariant forall j | 0 <= j < k :: s[j] <= value
      {
        var tmp := index.Lookup(k);
        assert tmp in s;
        if tmp > value {
          value := tmp;
          idx := k;
        }
        k := k + 1;
      }
      if index.size > 0 {
        HighestIs(s, value, idx);
      }
    }

    /** No headers were found: a hole is added at the old end. */
    method AddHole(at: nat, size: nat)
      requires index.Valid() && index.size < index.items.Length
      requires |mem| == WORD_LIMIT && OVERHEAD <= size && at + size < WORD_LIMIT
      modifies this`mem, this`cells, index`size, index.items
      ensures index.items == old(index.items) && index.Valid()
      ensures mem == PutFooter(PutHeader(old(mem), at, Cell(size, true)), at + size, at)
      ensures cells == old(cells)[at := Cell(size, true)]
      ensures index.Contents() == Inserted<nat>(old(index.Contents()), at, BySize(mem))
    {
      hide PutHeader, PutFooter, BySize;
      mem := PutHeader(mem, at, Cell(size, true));
      mem := PutFooter(mem, at + size, at);
      index.Insert(at, BySize(mem));
      cells := cells[at := Cell(size, true)];
    }

    /** The last header is adjusted. */
    method EnlargeHole(header: nat, more: nat)
      requires index.Valid() && |mem| == WORD_LIMIT && header + HEADER <= |mem|
      requires OVERHEAD <= Word(mem, header + 8) && header + Word(mem, header + 8) + more < WORD_LIMIT
      modifies this`mem, this`cells
      ensures var size := Word(old(mem), header + 8) + more;
        && mem == PutFooter(PutWord(old(mem), header + 8, size), header + size, header)
        && cells == old(cells)[header := Cell(size, true)]
    {
      hide PutFooter, PutWord, Word;
      var size := Word(mem, header + 8) + more;
      mem := PutWord(mem, header + 8, size);
      mem := PutFooter(mem, header + size, header);
      cells := cells[header := Cell(size, true)];
    }

    /** The branch of `alloc` that makes room: expand, then enlarge the endmost hole or add one. */
    method MakeRoom(newSize: nat)
      requires Valid() && OVERHEAD <= newSize && NewEnd(Snapshot(), newSize) <= maxAddress
      requires Expandable(Snapshot(), newSize)
      modifies this, index`size, index.items
      ensures index.items == old(index.items) && index.Valid()
      ensures Snapshot() == HeapExpand.Expand(old(Snapshot()), newSize)
    {
      hide SizeAt, PutHeader, PutFooter, PutWord, Wf, Expandable, Configured, Highest, IndexOf, PagesWith, Inserted,
        BySize, Word, NewEnd, RoundUp, PagesBehind;
      ghost var h := Snapshot();
      var oldLength := endAddress - startAddress;
      var oldEndAddress := endAddress;
      ExpansionAmount(h, newSize) by { WfIsConfigured(h); }
      GrowFacts(h, newSize);
      ExpandDoesNotWrap(h, newSize);
      Expand(oldLength + newSize);
      var newLength := endAddress - startAddress;
      var idx := EndmostHeader();
      if idx == NO_INDEX {
        AddHole(oldEndAddress, newLength - oldLength);
      } else {
        var header := index.Lookup(idx);
        EnlargeHole(header, newLength - oldLength);
      }
    }

    /** The end of `alloc`: tag the block, and if anything is left tag and index a hole behind it. */
    method WriteBlock(pos: nat, holeSize: nat, size: nat, newSize: nat, ghost e: nat)
      requires index.Valid() && index.size < index.items.Length
      requires |mem| == WORD_LIMIT && endAddress <= WORD_LIMIT && newSize == HEADER + size + FOOTER < WORD_LIMIT
      requires pos + newSize + HEADER <= WORD_LIMIT
      requires (pos + newSize + (holeSize - newSize) % WORD_LIMIT) % WORD_LIMIT == e && FOOTER <= e <= endAddress
      modifies this`mem, this`cells, index`size, index.items
      ensures index.Valid() && index.items == old(index.items)
      ensures var rest := (holeSize - newSize) % WORD_LIMIT;
        && mem == SplitMem(old(mem), pos, newSize, rest, e)
        && cells == SplitCells(old(cells), pos, newSize, rest)
        && index.Contents() == if rest > 0 then Inserted<nat>(old(index.Contents()), pos + newSize, BySize(mem))
                               else old(index.Contents())
    {
      hide PutHeader, PutFooter, BySize;
      mem := PutHeader(mem, pos, Cell(newSize, false));
      mem := PutFooter(mem, pos + HEADER + size + FOOTER, pos);
      cells := cells[pos := Cell(newSize, false)];
      var rest := (holeSize - newSize) % WORD_LIMIT;
      if rest > 0 {
        WriteRest(pos + HEADER + size + FOOTER, rest, e);
      }
    }

    /** The hole that is left behind the block: tags that fit below the end of the heap, and an index entry. */
    method WriteRest(newHole: nat, rest: u32, ghost e: nat)
      requires index.Valid() && index.size < index.items.Length && |mem| == WORD_LIMIT && endAddress <= WORD_LIMIT
      requires newHole + HEADER <= WORD_LIMIT && (newHole + rest) % WORD_LIMIT == e && FOOTER <= e <= endAddress
      modifies this`mem, this`cells, index`size, index.items
      ensures index.Valid() && index.items == old(index.items)
      ensures mem == PutFooter(PutHeader(old(mem), newHole, Cell(rest, true)), e, newHole)
      ensures cells == old(cells)[newHole := Cell(rest, true)]
      ensures index.Contents() == Inserted<nat>(old(index.Contents()), newHole, BySize(mem))
    {
      hide PutHeader, PutFooter, BySize;
      mem := PutHeader(mem, newHole, Cell(rest, true));
      var holeFooter := (newHole + rest - FOOTER) % WORD_LIMIT;
      FooterBelow(newHole + rest, e);
      if holeFooter < endAddress {
        mem := PutFooter(mem, holeFooter + FOOTER, newHole);
      }
      index.Insert(newHole, BySize(mem));
      cells := cells[newHole := Cell(rest, true)];
    }

    /** The page-aligning branch of `alloc`, which tags a hole in front and moves on behind it, or else
        the removal of the chosen hole from the index. */
    method SetFrontAside(k: nat, pos: nat, holeSize: nat, pageAlign: bool) returns (newPos: nat, newHoleSize: nat)
      requires index.Valid() && k < index.size < index.items.Length
      requires |mem| == WORD_LIMIT && PAGE <= pos && pos + holeSize <= WORD_LIMIT - PAGE && OVERHEAD <= holeSize
      modifies this`mem, this`cells, index`size, index.items
      ensures index.Valid() && index.items == old(index.items) && index.size < index.items.Length
      ensures newPos == if pageAlign then pos + Front(pos) else pos
      ensures newHoleSize == if pageAlign then (holeSize - Front(pos) % WORD_LIMIT) % WORD_LIMIT else holeSize
      ensures pageAlign ==> var front := Cell(Front(pos) % WORD_LIMIT, true);
        && mem == PutFooter(PutHeader(old(mem), pos, front), pos + Front(pos), pos)
        && cells == old(cells)[pos := front] && index.Contents() == old(index.Contents())
      ensures !pageAlign ==> mem == old(mem) && cells == old(cells)
      ensures !pageAlign ==> index.Contents() == Removed(old(index.Contents()), k)
    {
      hide PutHeader, PutFooter, Removed;
      newPos, newHoleSize := pos, holeSize;
      if pageAlign && pos / PAGE != 0 {
        newPos := pos + PAGE - pos % PAGE - HEADER;
        var frontSize := (PAGE - pos % PAGE - HEADER) % WORD_LIMIT;
        mem := PutHeader(mem, pos, Cell(frontSize, true));
        mem := PutFooter(mem, newPos, pos);
        cells := cells[pos := Cell(frontSize, true)];
        newHoleSize := (holeSize - frontSize) % WORD_LIMIT;
      } else {
        index.Remove(k);
      }
    }

    /** The rest of `alloc`: cut the block out of the hole at index position `k`. */
    method CutBlock(k: nat, request: nat, pageAlign: bool) returns (p: nat)
      requires Valid() && Usable(Snapshot(), k) && request + OVERHEAD < 0x8000_0000
      requires FitsAt(Snapshot(), k, request + OVERHEAD, pageAlign)
      modifies this`mem, this`cells, index`size, index.items
      ensures index.Valid() && index.items == old(index.items)
      ensures (Snapshot(), p) == Cut(old(Snapshot()), k, request + OVERHEAD, pageAlign)
    {
      hide SizeAt, PutHeader, PutFooter, PutWord, Word, Wf, SplitMem, SplitCells, Inserted, Removed, Cut, BySize,
        FitsAt;
      ghost var h := Snapshot();
      CutFacts(h, k, request + OVERHEAD, pageAlign);
      var size, newSize := request, request + OVERHEAD;
      var holePos := index.Lookup(k);
      var holeSize: nat := Word(mem, holePos + 8);
      ghost var a, c := holePos, holeSize;
      if holeSize - newSize < OVERHEAD {
        size := size + (holeSize - newSize);
        newSize := holeSize;
      }
      assert newSize == BlockSize(c, request + OVERHEAD);
      holePos, holeSize := SetFrontAside(k, holePos, holeSize, pageAlign);
      assert holePos + newSize + HEADER <= WORD_LIMIT;
      hide BlockSize, Usable, Front;
      ghost var before, beforeIdx, beforeCells := mem, index.Contents(), cells;
      RestEndsTheHole(a, c, newSize, holePos, holeSize);
      WriteBlock(holePos, holeSize, size, newSize, a + c);
      p := holePos + HEADER;
      CutIs(h, k, request + OVERHEAD, pageAlign, newSize, before, beforeCells, beforeIdx, mem, cells, index.Contents());
    }

    /** `alloc`. */
    method Alloc(size: nat, pageAlign: bool) returns (p: nat)
      requires Valid() && size + OVERHEAD < 0x8000_0000 && AllocDomain(Snapshot(), size, pageAlign)
      requires Find(Snapshot(), 0, size + OVERHEAD, pageAlign) == index.size && Appends(Snapshot()) ==>
        index.size + 1 < index.items.Length
      modifies this, index`size, index.items
      ensures index.items == old(index.items) && index.Valid()
      ensures (Snapshot(), p) == Malloc(old(Snapshot()), size, pageAlign)
      decreases maxAddress - endAddress
    {
      hide Spelled, Tagged, Configured, HeapExpand.Expand, Take, Carve;
      ghost var h := Snapshot();
      var newSize := size + HEADER + FOOTER;
      var k := FindSmallestHole(newSize, pageAlign);
      if k == -1 {
        WfIsExpandable(h, newSize);
        ExpandKeepsWf(h, newSize);
        ExpansionAmount(h, newSize);
        ExpandMovesEnd(h, newSize);
        ExpandFillsOneSlot(h, newSize);
        ExpansionHelps(h, newSize);
        MakeRoom(newSize);
        p := Alloc(size, pageAlign);
      } else {
        HoleIsUsable(h, k);
        p := CutBlock(k, size, pageAlign);
      }
    }

    /** The scans of `free` for a header in the index: its position, or the index size if absent. */
    method Search(header: nat) returns (k: nat)
      requires index.Valid()
      ensures k == if header in index.Contents() then IndexOf(index.Contents(), header) else index.size
    {
      ghost var s := index.Contents();
      k := 0;
      while k < index.size && index.items[k] != header
        invariant k <= index.size && header !in s[..k]
      {
        k := k + 1;
      }
      if k < index.size {
        FirstIsIndexOf(s, header, k);
      }
    }

    /** The start of `free`: turn the block into a hole and unify left. Returns the header of the hole so
        far, the end of the block, and whether the hole is still to be indexed. */
    method UnifyLeftward(block: nat) returns (header: nat, after: nat, doAdd: bool)
      requires Valid() && Freeable(Snapshot(), block + HEADER)
      modifies this`mem
      ensures var h := old(Snapshot());
        && header == MergeStart(h, block) && after == block + h.cells[block].size && (doAdd <==> header == block)
        && block + HEADER <= after < WORD_LIMIT && after <= |h.mem| && header + HEADER <= |h.mem|
        && mem == UnifyLeft(h.mem, header, block, after)
    {
      hide PutWord, Word, UnifyLeft, Wf, Freeable;
      ghost var h := Snapshot();
      BlockFacts(h, block);
      header := block;
      var footer := header + Word(mem, header + 8) - FOOTER;
      assert Word(mem, header) == MAGIC && Word(mem, footer) == MAGIC;
      mem := mem[header + 4 := 1];
      doAdd := true;
      var testFooter := header - FOOTER;
      LeftTest(h, block, mem);
      LeftWrites(h, block, mem);
      if Word(mem, testFooter) == MAGIC && mem[Word(mem, testFooter + 4) + 4] == 1 {
        var cacheSize := Word(mem, header + 8);
        header := Word(mem, testFooter + 4);
        mem := PutWord(mem, footer + 4, header);
        mem := PutWord(mem, header + 8, Word(mem, header + 8) + cacheSize);
        doAdd := false;
      }
      after := footer + FOOTER;
    }

    /** The first part of `free`: both unifications. Returns the merged hole's header and end, the header
        looked at on the right, and whether the merged hole is still to be indexed; or that the call ends
        here, with the page fault of reading behind the heap, or with the ASSERT that the header on the
        right is indexed. `behind` is what a page without a frame would show. */
    method Unify(block: nat, behind: Behind)
      returns (header: nat, last: nat, testHeader: nat, doAdd: bool, ending: Ending)
      requires Valid() && Freeable(Snapshot(), block + HEADER)
      modifies this`mem, this`cells, index`size, index.items
      ensures index.Valid() && index.items == old(index.items) && index.size < index.items.Length
      ensures ending == EndingOf(FreeOutcome(old(Snapshot()), block + HEADER, behind))
      ensures ending == Returned ==> var h := old(Snapshot());
        && Snapshot() == Merge(h, block) && header == MergeStart(h, block) && last == MergeEnd(h, block)
        && testHeader == block + h.cells[block].size && (doAdd <==> header == block)
    {
      hide PutWord, Word, UnifyLeft, Wf, Freeable, Removed, IndexOf, ReadsAsHole, Release;
      ghost var h := Snapshot();
      ending := Returned;
      EndIsNotIndexed(h);
      header, testHeader, doAdd := UnifyLeftward(block);
      LeftDone(h, block, mem);
      last := testHeader;
      if testHeader == endAddress && endAddress !in pages {
        if behind == Fault {
          ending := Faulted;
        } else if behind == Hole {
          ending := Panicked;
        }
      } else if Word(mem, testHeader) == MAGIC && mem[testHeader + 4] != 0 {
        var indexed;
        last, indexed := UnifyRightward(header, testHeader);
        ending := if indexed then Returned else Panicked;
      }
      if ending == Returned {
        MergeIs(h, block, mem, index.Contents());
        cells := Merge(h, block).cells;
      }
    }

    /** The header on the right is a hole's: the merged hole grows over it, and its entry is removed. */
    method UnifyRightward(header: nat, testHeader: nat) returns (last: nat, indexed: bool)
      requires index.Valid() && index.size < index.items.Length && |mem| == WORD_LIMIT
      requires header + HEADER <= |mem| && testHeader + HEADER <= |mem|
      modifies this`mem, index`size, index.items
      ensures index.Valid() && index.items == old(index.items) && index.size < index.items.Length
      ensures indexed <==> testHeader in old(index.Contents())
      ensures mem == PutWord(old(mem), header + 8,
        (Word(old(mem), header + 8) + Word(old(mem), testHeader + 8)) % WORD_LIMIT)
      ensures last == (testHeader + Word(mem, testHeader + 8)) % WORD_LIMIT
      ensures indexed ==>
        index.Contents() == Removed(old(index.Contents()), IndexOf(old(index.Contents()), testHeader))
    {
      hide PutWord, Word, Removed, IndexOf;
      mem := PutWord(mem, header + 8, (Word(mem, header + 8) + Word(mem, testHeader + 8)) % WORD_LIMIT);
      last := (testHeader + Word(mem, testHeader + 8)) % WORD_LIMIT;
      var k := Search(testHeader);
      indexed := k < index.size;
      if indexed {
        index.Remove(k);
      }
    }

    /** The second part of `free`: the merged hole [header, end) contracts the heap. */
    method Shrink(header: nat, testHeader: nat)
      requires index.Valid() && index.size < index.items.Length && Configured(Snapshot())
      requires header in cells && startAddress <= header && header + OVERHEAD <= endAddress
      requires Word(mem, header + 8) == endAddress - header
      modifies this, index`size, index.items
      ensures index.Valid() && index.items == old(index.items) && index.size <= old(index.size)
      ensures Snapshot() == Trim(old(Snapshot()), header, testHeader)
    {
      hide PutWord, PutFooter, Removed, IndexOf, ContractTo, PagesWithout, Word, Trim;
      ghost var h := Snapshot();
      var oldLength := endAddress - startAddress;
      var newLength := Contract(header - startAddress);
      TrimArithmetic(h, header, newLength);
      ghost var rest := (h.end - header - (oldLength - newLength)) % WORD_LIMIT;
      if (Word(mem, header + 8) - (oldLength - newLength)) % WORD_LIMIT > 0 {
        var size := (Word(mem, header + 8) - (oldLength - newLength)) % WORD_LIMIT;
        mem := PutWord(mem, header + 8, size);
        var footer := (header + size - FOOTER) % WORD_LIMIT;
        mem := PutFooter(mem, footer + FOOTER, header);
        cells := cells[header := Cell(size, true)];
      } else {
        var k := Search(testHeader);
        if k < index.size {
          index.Remove(k);
        }
      }
      TrimIs(h, header, testHeader, newLength, rest, mem, cells, index.Contents());
    }

    /** `free`. */
    method Free(p: nat, behind: Behind) returns (ending: Ending)
      requires p != 0 ==> Valid() && Freeable(Snapshot(), p)
      modifies this, index`size, index.items
      ensures p == 0 ==> ending == Returned && unchanged(this) && unchanged(index) && unchanged(index.items)
      ensures p != 0 ==> index.Valid() && index.items == old(index.items)
      ensures p != 0 ==> ending == EndingOf(FreeOutcome(old(Snapshot()), p, behind))
      ensures p != 0 && ending == Returned ==> FreeOutcome(old(Snapshot()), p, behind) == Done(Snapshot())
    {
      hide Merge, Trim, Wf, Inserted, MergeStart, MergeEnd, ReadsAsHole;
      ending := Returned;
      if p == 0 { return; }
      ghost var h := Snapshot();
      var header, last, testHeader, doAdd;
      header, last, testHeader, doAdd, ending := Unify(p - HEADER, behind);
      if ending != Returned { return; }
      UnifiedFacts(h, p);
      if last == endAddress {
        Shrink(header, testHeader);
      }
      if doAdd {
        index.Insert(header, BySize(mem));
      }
    }

    /** A client's store. */
    method Write(a: nat, v: u8)
      requires index.Valid() && a < |mem|
      modifies this`mem
      ensures Snapshot() == old(Snapshot()).(mem := old(mem)[a := v])
    {
      mem := mem[a := v];
    }
  }

  // ---------- runs of the code ----------

  /** One call on the code's heap is one step of the run it belongs to. */
  method Perform(k: KHeap, ghost c: Client, op: Op)
    requires k.index.Valid() && k.index.items.Length == INDEX_SIZE
    requires Sound(c) && c.h == k.Snapshot() && InDomain(c, op)
    modifies k, k.index`size, k.index.items
    ensures k.index.Valid() && k.index.items == old(k.index.items) && k.Snapshot() == Step(c, op).h
  {
    hide Wf, AllocDomain, FreeDomain, Freeable, FreeOutcome, Malloc, Release, Find, Appends;
    SoundIsWf(c);
    match op
    case Alloc(size, align) =>
      var p := k.Alloc(size, align);
    case Free(p, behind) =>
      FreeRefines(c, p, behind);
      var ending := k.Free(p, behind);
    case Store(a, v) =>
      StoreInside(c, a, v);
      k.Write(a, v);
  }

  lemma StoreInside(c: Client, a: nat, v: u8)
    requires Sound(c) && InDomain(c, Store(a, v))
    ensures a < |c.h.mem|
  {
    var p :| Owns(c, p, a);
    PayloadInside(c, p);
  }

  /** The code carries out every run in the domain: no call panics, and the heap is at each moment the
      one that the run describes. */
  method PerformAll(k: KHeap, ghost c: Client, ops: seq<Op>)
    requires k.index.Valid() && k.index.items.Length == INDEX_SIZE
    requires Sound(c) && c.h == k.Snapshot() && RunInDomain(c, ops)
    modifies k, k.index`size, k.index.items
    ensures k.index.Valid() && k.index.items == old(k.index.items) && k.Snapshot() == Run(c, ops).h
  {
    hide Wf, Sound, InDomain, Step;
    ghost var d := c;
    var i := 0;
    while i < |ops|
      invariant i <= |ops| && k.index.Valid() && k.index.items == old(k.index.items)
      invariant Sound(d) && d.h == k.Snapshot() && RunInDomain(d, ops[i..]) && Run(c, ops) == Run(d, ops[i..])
    {
      StepRefines(d, ops[i]);
      Perform(k, d, ops[i]);
      d := Step(d, ops[i]);
      i := i + 1;
    }
  }
}
