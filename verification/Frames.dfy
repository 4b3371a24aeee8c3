/** The frame bitmap of paging.c: its words refine a set of frame numbers, and runs over that set. */
module Frames {
  import opened Machine
  import Numerals

  const MAX_FRAMES := 0x10_0000

  // ---------- bits of a word ----------

  function Mask(k: nat): bv32
    requires k < 32
  {
    (1 as bv32) << k
  }

  predicate Tests(w: bv32, a: bv32) {
    w & a != 0
  }

  function Raise(w: bv32, a: bv32): bv32 {
    w | a
  }

  function Lower(w: bv32, a: bv32): bv32 {
    w & !a
  }

  predicate Bit(w: bv32, k: nat)
    requires k < 32
  {
    Tests(w, Mask(k))
  }

  lemma MasksDisjoint(o: nat, k: nat)
    requires o < 32 && k < 32 && o != k
    ensures !Tests(Mask(o), Mask(k))
  {
  }

  lemma MaskNonzero(k: nat)
    requires k < 32
    ensures Mask(k) != 0
  {
  }

  lemma SameMask(w: bv32, a: bv32)
    requires a != 0
    ensures Tests(Raise(w, a), a) && !Tests(Lower(w, a), a)
  {
  }

  lemma RaiseElsewhere(w: bv32, a: bv32, b: bv32)
    requires !Tests(a, b)
    ensures Tests(Raise(w, a), b) == Tests(w, b)
  {
  }

  lemma LowerElsewhere(w: bv32, a: bv32, b: bv32)
    requires !Tests(a, b)
    ensures Tests(Lower(w, a), b) == Tests(w, b)
  {
  }

  /** Setting or clearing bit `o` leaves every other bit of the word alone. */
  lemma WritingABit(w: bv32, o: nat, k: nat)
    requires o < 32 && k < 32
    ensures Bit(Raise(w, Mask(o)), k) <==> k == o || Bit(w, k)
    ensures Bit(Lower(w, Mask(o)), k) <==> k != o && Bit(w, k)
  {
    hide Mask, Tests, Raise, Lower;
    MaskNonzero(o);
    if k == o {
      SameMask(w, Mask(o));
    } else {
      MasksDisjoint(o, k);
      RaiseElsewhere(w, Mask(o), Mask(k));
      LowerElsewhere(w, Mask(o), Mask(k));
    }
  }

  lemma ZeroHasNoBits()
    ensures forall k | 0 <= k < 32 :: !Bit(0, k)
  {
  }

  predicate Covers(w: bv32, a: bv32) {
    w & a == a
  }

  function LowMask(n: nat): bv32
    requires n <= 32
  {
    if n == 0 then 0 else Raise(LowMask(n - 1), Mask(n - 1))
  }

  lemma BitCovers(w: bv32, k: nat)
    requires k < 32 && Bit(w, k)
    ensures Covers(w, Mask(k))
  {
  }

  lemma CoversBoth(w: bv32, a: bv32, b: bv32)
    requires Covers(w, a) && Covers(w, b)
    ensures Covers(w, Raise(a, b))
  {
  }

  lemma {:induction false} LowBitsSet(w: bv32, n: nat)
    requires n <= 32 && forall k | 0 <= k < n :: Bit(w, k)
    ensures Covers(w, LowMask(n))
  {
    if n == 0 {
      CoversNothing(w);
    } else {
      hide Bit, Mask, Covers, Raise;
      LowBitsSet(w, n - 1);
      BitCovers(w, n - 1);
      CoversBoth(w, LowMask(n - 1), Mask(n - 1));
    }
  }

  lemma CoversNothing(w: bv32)
    ensures Covers(w, 0)
  {
  }

  lemma LowMaskIsFull()
    ensures LowMask(32) == 0xFFFF_FFFF
  {
    assert LowMask(4) == 0xF;
    assert LowMask(8) == 0xFF;
    assert LowMask(12) == 0xFFF;
    assert LowMask(16) == 0xFFFF;
    assert LowMask(20) == 0xF_FFFF;
    assert LowMask(24) == 0xFF_FFFF;
    assert LowMask(28) == 0xFFF_FFFF;
  }

  lemma CoversAll(w: bv32)
    requires Covers(w, 0xFFFF_FFFF)
    ensures w == 0xFFFF_FFFF
  {
  }

  /** A word other than all ones has a clear bit. */
  lemma NotAllOnes(w: bv32)
    requires w != 0xFFFF_FFFF
    ensures exists k | 0 <= k < 32 :: !Bit(w, k)
  {
    hide Bit, Covers, LowMask;
    if forall k | 0 <= k < 32 :: Bit(w, k) {
      LowBitsSet(w, 32);
      LowMaskIsFull();
      CoversAll(w);
    }
  }

  // ---------- the set the bitmap stands for ----------

  function Used(words: seq<bv32>): set<nat> {
    set f | 0 <= f < 32 * |words| && Bit(words[f / 32], f % 32)
  }

  /** The least frame number from `f` on that is not in use, or 0 when there is none below `n`. */
  function FirstFree(used: set<nat>, f: nat, n: nat): (r: nat)
    requires f <= n
    ensures r != 0 ==> f <= r < n && r !in used && forall g | f <= g < r :: g in used
    ensures r == 0 ==> (f == 0 && n > 0 && 0 !in used) || forall g | f <= g < n :: g in used
    decreases n - f
  {
    if f == n then 0 else if f !in used then f else FirstFree(used, f + 1, n)
  }

  /** The first free frame is the least absent one whenever one exists; 0 stands for none as well. */
  lemma FirstFreeIsLeast(used: set<nat>, n: nat)
    ensures var r := FirstFree(used, 0, n);
      (exists g | 0 <= g < n :: g !in used) ==> r < n && r !in used && forall g | 0 <= g < r :: g in used
  {
  }

  /** What lies behind the least free number makes no difference. */
  lemma {:induction false} SameFirst(u: set<nat>, w: set<nat>, f: nat, m: nat, n: nat)
    requires f <= m <= n && forall x: nat | x < m :: x in u <==> x in w
    requires m < n ==> m !in u && m !in w
    ensures FirstFree(u, f, n) == FirstFree(w, f, n)
    decreases m - f
  {
    if f < m {
      SameFirst(u, w, f + 1, m, n);
    }
  }

  lemma FirstFreeSkips(used: set<nat>, f: nat, g: nat, n: nat)
    requires f <= g <= n && forall x | f <= x < g :: x in used
    ensures FirstFree(used, f, n) == FirstFree(used, g, n)
    decreases g - f
  {
    if f < g {
      FirstFreeSkips(used, f + 1, g, n);
    }
  }

  /** A page table entry; the accessed, dirty and unused bits play no part. */
  datatype Entry = Entry(present: bool, rw: bool, user: bool, frame: nat)

  const NO_ENTRY := Entry(false, false, false, 0)

  /** `page_table_t`. */
  class PageTable {
    var pages: seq<Entry>

    constructor ()
      ensures pages == seq(1024, _ => NO_ENTRY)
    {
      pages := seq(1024, _ => NO_ENTRY);
    }
  }

  /** The frame a page holds after `alloc_frame`: its own if it has one, else the first free one. */
  function FrameAfterAlloc(frame: nat, used: set<nat>, n: nat): nat {
    if frame != 0 then frame else FirstFree(used, 0, n)
  }

  function UsedAfterAlloc(frame: nat, used: set<nat>, n: nat): set<nat> {
    if frame != 0 then used else used + {FirstFree(used, 0, n)}
  }

  /** `free_frame` hands the frame number to `clear_frame`, which takes it for an address. */
  function UsedAfterFree(frame: nat, used: set<nat>): set<nat> {
    if frame == 0 then used else used - {frame / PAGE}
  }

  /** The entry `alloc_frame` leaves. */
  function Allocated(e: Entry, used: set<nat>, n: nat, isKernel: bool, isWriteable: bool): Entry {
    if e.frame != 0 then e else Entry(true, isWriteable, !isKernel, FrameAfterAlloc(0, used, n))
  }

  /** The frames that the words behind the first `zeroed` ones mark as used. */
  function Leftover(zeroed: nat, tail: seq<bv32>): (s: set<nat>)
    requires |tail| == 3 * zeroed
    ensures forall f | f in s :: 32 * zeroed <= f < 128 * zeroed
  {
    set f | 32 * zeroed <= f < 128 * zeroed && Bit(tail[f / 32 - zeroed], f % 32)
  }

  /** Bit `b` of a number. */
  predicate Odd(w: nat, b: nat) {
    if b == 0 then w % 2 == 1 else Odd(w / 2, b - 1)
  }

  function TwoTo(b: nat): (p: nat)
    ensures p > 0
  {
    if b == 0 then 1 else 2 * TwoTo(b - 1)
  }

  /** It is the one of weight 2 to the b. */
  lemma {:induction false} OddIs(w: nat, b: nat)
    ensures Odd(w, b) <==> w / TwoTo(b) % 2 == 1
  {
    if b > 0 {
      OddIs(w / 2, b - 1);
      HalfQuotient(w, TwoTo(b - 1));
    }
  }

  lemma HalfQuotient(w: nat, d: nat)
    requires d > 0
    ensures w / 2 / d == w / (2 * d)
  {
    var q, r := w / 2 / d, w / 2 % d;
    assert w / 2 == d * q + r;
    Numerals.QuotRemUnique(2 * d, q, w % 2 + 2 * r);
    assert w == 2 * d * q + (w % 2 + 2 * r);
  }

  lemma OddShifts(w: nat, rest: nat, b: nat)
    requires forall c: nat | b <= c < 32 :: Odd(w, c) == Odd(rest, c - b)
    ensures b < 32 ==> Odd(w, b) == (rest % 2 == 1)
    ensures forall c: nat | b + 1 <= c < 32 :: Odd(w, c) == Odd(rest / 2, c - (b + 1))
  {
    assert b < 32 ==> Odd(w, b) == Odd(rest, 0);
  }

  /** The set after the 32 bits from `at` on, as far as they belong to the bitmap, are overwritten. */
  function Stored(used: set<nat>, at: nat, w: nat, n: nat): (r: set<nat>)
    ensures forall f: nat :: f in r <==> if at <= f < at + 32 && f < n then Odd(w, f - at) else f in used
  {
    (set f | f in used && !(at <= f < at + 32 && f < n)) + StoredBits(at, w, 32, n)
  }

  function StoredBits(at: nat, w: nat, k: nat, n: nat): (r: set<nat>)
    ensures forall f: nat :: f in r <==> at <= f < at + k && f < n && Odd(w, f - at)
  {
    if k == 0 then {} else StoredBits(at, w, k - 1, n) + if at + k - 1 < n && Odd(w, k - 1) then {at + k - 1} else {}
  }

  /** The first `b` of those bits are overwritten. */
  ghost predicate StoredUpTo(was: set<nat>, used: set<nat>, at: nat, w: nat, b: nat, n: nat) {
    forall f: nat :: f in used <==> if at <= f < at + b && f < n then Odd(w, f - at) else f in was
  }

  lemma NothingStored(was: set<nat>, at: nat, w: nat, n: nat)
    ensures StoredUpTo(was, was, at, w, 0, n)
  {
  }

  lemma StoredStep(was: set<nat>, used: set<nat>, next: set<nat>, at: nat, w: nat, b: nat, n: nat)
    requires StoredUpTo(was, used, at, w, b, n)
    requires next == if at + b >= n then used else if Odd(w, b) then used + {at + b} else used - {at + b}
    ensures StoredUpTo(was, next, at, w, b + 1, n)
  {
    hide Odd;
  }

  lemma AllStored(was: set<nat>, used: set<nat>, at: nat, w: nat, n: nat)
    requires StoredUpTo(was, used, at, w, 32, n)
    ensures used == Stored(was, at, w, n)
  {
    hide Odd;
  }

  /** The set after the bits from `z` on are zeroed. */
  function Cleared(used: set<nat>, z: nat): (r: set<nat>)
    ensures forall f :: f in r <==> f in used && f < z
  {
    set f | f in used && f < z
  }

  /** `frames[]`, the bitmap. */
  class FrameMap {
    const frames: array<bv32>

    ghost function InUse(): set<nat>
      reads frames
    {
      Used(frames[..])
    }

    function Count(): nat {
      32 * frames.Length
    }

    /** One bit per frame, of which only as many bytes are zeroed as there should be words: the words in
        `tail` stay as memory has them. */
    constructor (nframes: nat, tail: seq<bv32>)
      requires 0 < nframes <= MAX_FRAMES && nframes % 128 == 0 && |tail| == 3 * (nframes / 128)
      ensures fresh(frames) && frames.Length == nframes / 32 && InUse() == Leftover(nframes / 128, tail)
    {
      var zeroed := nframes / 128;
      frames := new bv32[nframes / 32](i requires 0 <= i < nframes / 32 => if i < zeroed then 0 else tail[i - zeroed]);
      new;
      hide Bit;
      ZeroHasNoBits();
      assert InUse() == Leftover(zeroed, tail);
    }

    method SetFrame(frameAddr: nat)
      requires frameAddr / PAGE < Count()
      modifies frames
      ensures InUse() == old(InUse()) + {frameAddr / PAGE}
    {
      hide Bit, Mask, Raise, Lower;
      var frame := frameAddr / PAGE;
      var idx, off := frame / 32, frame % 32;
      ghost var was := frames[..];
      frames[idx] := Raise(frames[idx], Mask(off));
      forall f | 0 <= f < Count() ensures f in InUse() <==> f in Used(was) || f == frame {
        if f / 32 == idx {
          WritingABit(was[idx], off, f % 32);
        }
      }
    }

    method ClearFrame(frameAddr: nat)
      requires frameAddr / PAGE < Count()
      modifies frames
      ensures InUse() == old(InUse()) - {frameAddr / PAGE}
    {
      hide Bit, Mask, Raise, Lower;
      var frame := frameAddr / PAGE;
      var idx, off := frame / 32, frame % 32;
      ghost var was := frames[..];
      frames[idx] := Lower(frames[idx], Mask(off));
      forall f | 0 <= f < Count() ensures f in InUse() <==> f in Used(was) && f != frame {
        if f / 32 == idx {
          WritingABit(was[idx], off, f % 32);
        }
      }
    }

    /** A store of a word into memory that the bitmap shares, from its bit number `at` on. */
    method Store(at: nat, word: nat)
      requires Count() <= MAX_FRAMES
      modifies frames
      ensures InUse() == Stored(old(InUse()), at, word, Count())
    {
      hide Used, Odd, Bit, StoredUpTo, Stored;
      var b, rest := 0, word;
      NothingStored(InUse(), at, word, Count());
      while b < 32
        invariant b <= 32 && forall c: nat | b <= c < 32 :: Odd(word, c) == Odd(rest, c - b)
        invariant StoredUpTo(old(InUse()), InUse(), at, word, b, Count())
      {
        ghost var used := InUse();
        OddShifts(word, rest, b);
        if at + b < Count() {
          WriteBit(at + b, rest % 2 == 1);
        }
        StoredStep(old(InUse()), used, InUse(), at, word, b, Count());
        rest := rest / 2;
        b := b + 1;
      }
      AllStored(old(InUse()), InUse(), at, word, Count());
    }

    method WriteBit(f: nat, value: bool)
      requires f < Count()
      modifies frames
      ensures InUse() == if value then old(InUse()) + {f} else old(InUse()) - {f}
    {
      if value {
        SetFrame(f * PAGE);
      } else {
        ClearFrame(f * PAGE);
      }
    }

    /** Memory is zeroed from the bitmap's bit number `z` on. */
    method ClearFrom(z: nat)
      modifies frames
      ensures InUse() == Cleared(old(InUse()), z)
    {
      hide Used;
      var f := z;
      InUseIsBelow();
      while f < Count()
        invariant z <= f && forall g: nat :: g in InUse() <==> g in old(InUse()) && !(z <= g < f)
      {
        ClearFrame(f * PAGE);
        f := f + 1;
      }
      assert forall g | g in InUse() :: g < z || Count() <= g;
    }

    lemma InUseIsBelow()
      ensures forall f | f in InUse() :: f < Count()
    {
    }

    /** `first_frame`: a scan over words, then over the bits of the first word that is not all ones. */
    method FirstFrame() returns (r: nat)
      ensures r == FirstFree(InUse(), 0, Count())
    {
      hide Mask, Tests;
      var i := 0;
      while i < frames.Length
        invariant i <= frames.Length && forall f | 0 <= f < 32 * i :: f in InUse()
      {
        if frames[i] != 0xFFFF_FFFF {
          NotAllOnes(frames[i]);
          var j := 0;
          while j < 32
            invariant j <= 32 && (forall k | 0 <= k < j :: Bit(frames[i], k))
          {
            var toTest := Mask(j);
            if !Tests(frames[i], toTest) {
              var f := 32 * i + j;
              assert f / 32 == i && f % 32 == j;
              forall g | 0 <= g < f ensures g in InUse() {
                if 32 * i <= g {
                  assert g / 32 == i && Bit(frames[i], g % 32);
                }
              }
              FirstFreeSkips(InUse(), 0, f, Count());
              return f;
            }
            j := j + 1;
          }
        }
        forall f | 32 * i <= f < 32 * (i + 1) ensures f in InUse() {
          assert f / 32 == i;
          AllOnes(f % 32);
        }
        i := i + 1;
      }
      FirstFreeSkips(InUse(), 0, Count(), Count());
      return 0;
    }

    /** `alloc_frame` on entry `i` of a table; the test for frame -1 never panics. */
    method AllocFrame(table: PageTable, i: nat, isKernel: bool, isWriteable: bool)
      requires i < |table.pages| && 0 < Count() <= MAX_FRAMES
      modifies frames, table
      ensures table.pages ==
        old(table.pages)[i := Allocated(old(table.pages[i]), old(InUse()), Count(), isKernel, isWriteable)]
      ensures InUse() == UsedAfterAlloc(old(table.pages[i]).frame, old(InUse()), Count())
      ensures old(table.pages[i]).frame != 0 ==> table.pages == old(table.pages)
      ensures old(table.pages[i]).frame == 0 ==>
        var e := table.pages[i]; e.present && (e.rw <==> isWriteable) && (e.user <==> !isKernel)
    {
      if table.pages[i].frame != 0 {
        return;
      }
      var idx := FirstFrame();
      assert idx != WORD_LIMIT - 1;
      SetFrame(idx * PAGE);
      table.pages := table.pages[i := Entry(true, isWriteable, !isKernel, idx)];
    }

    /** `free_frame` on entry `i` of a table: a frame number goes where an address is expected, and the
        entry stays present. */
    method FreeFrame(table: PageTable, i: nat)
      requires i < |table.pages| && table.pages[i].frame < Count()
      modifies frames, table
      ensures |table.pages| == |old(table.pages)|
      ensures var e, was := table.pages[i], old(table.pages[i]);
        e.frame == 0 && e.present == was.present && e.rw == was.rw && e.user == was.user
      ensures table.pages == old(table.pages)[i := old(table.pages[i]).(frame := 0)]
      ensures InUse() == UsedAfterFree(old(table.pages[i]).frame, old(InUse()))
    {
      var frame := table.pages[i].frame;
      if frame == 0 {
        return;
      }
      ClearFrame(frame);
      table.pages := table.pages[i := table.pages[i].(frame := 0)];
    }
  }

  lemma AllOnes(k: nat)
    requires k < 32
    ensures Bit(0xFFFF_FFFF, k)
  {
  }

  // ---------- runs ----------

  /** What a caller of `alloc_frame` asks for besides the frame. */
  datatype Flags = Flags(isKernel: bool, isWriteable: bool)

  const PLAIN := Flags(false, false)

  /** Frames in use, the frame each page entry holds (0 for none) and the flags it came with; `n` frames in
      all. */
  datatype Pool = Pool(used: set<nat>, held: map<nat, nat>, flags: map<nat, Flags>, n: nat)

  datatype Op = Alloc(page: nat, flags: Flags) | Free(page: nat)

  function Held(m: Pool, page: nat): nat {
    if page in m.held then m.held[page] else 0
  }

  /** `alloc_frame` and `free_frame` as FrameMap carries them out. */
  function Step(m: Pool, op: Op): Pool {
    var f := Held(m, op.page);
    match op
    case Alloc(page, asked) =>
      Pool(UsedAfterAlloc(f, m.used, m.n), m.held[page := FrameAfterAlloc(f, m.used, m.n)],
           if f != 0 then m.flags else m.flags[page := asked], m.n)
    case Free(page) =>
      Pool(UsedAfterFree(f, m.used), m.held[page := 0], m.flags, m.n)
  }

  function Run(m: Pool, ops: seq<Op>): Pool
    decreases |ops|
  {
    if ops == [] then m else Run(Step(m, ops[0]), ops[1..])
  }

  /** No two entries hold the same frame, and every frame held is marked. */
  ghost predicate Exclusive(m: Pool) {
    && (forall p | p in m.held && m.held[p] != 0 :: m.held[p] in m.used && m.held[p] < m.n)
    && (forall p, q | p in m.held && q in m.held && p != q && m.held[p] != 0 :: m.held[p] != m.held[q])
  }

  /** With 4096 frames, as the kernel has, exclusiveness survives every run, exhaustion included. */
  lemma {:induction false} RunStaysExclusive(m: Pool, ops: seq<Op>)
    requires Exclusive(m) && m.n <= PAGE
    ensures Exclusive(Run(m, ops)) && Run(m, ops).n == m.n
    decreases |ops|
  {
    if ops != [] {
      RunStaysExclusive(Step(m, ops[0]), ops[1..]);
    }
  }

  /** For any number of frames: freeing keeps exclusiveness exactly when the bit it clears is not that
      of a frame some other page holds. */
  lemma FreeKeepsExclusiveIff(m: Pool, page: nat)
    requires Exclusive(m) && Held(m, page) != 0
    ensures Exclusive(Step(m, Free(page))) <==>
            Held(m, page) / PAGE == 0 || forall q | q in m.held && q != page :: m.held[q] != Held(m, page) / PAGE
  {
    var f := Held(m, page);
    var d := Step(m, Free(page));
    if f / PAGE != 0 && exists q :: q in m.held && q != page && m.held[q] == f / PAGE {
      var q :| q in m.held && q != page && m.held[q] == f / PAGE;
      assert d.held[q] !in d.used;
    }
  }

  /** `free_frame` never gives the frame itself back: the bit it clears is always another one. */
  lemma FreedFrameStaysUsed(m: Pool, page: nat)
    requires Exclusive(m) && Held(m, page) != 0
    ensures Held(m, page) in Step(m, Free(page)).used && Held(Step(m, Free(page)), page) == 0
  {
  }

  /** Instead, with 4096 frames, the bit it clears is that of frame 0: the next page that asks for a frame
      gets number 0, which stands for none, and only the one after it gets a real one. */
  lemma NextAllocIsVoid(m: Pool, page: nat, next: nat, flags: Flags)
    requires Exclusive(m) && 0 < m.n <= PAGE && Held(m, page) != 0 && (next == page || Held(m, next) == 0)
    ensures Held(Step(Step(m, Free(page)), Alloc(next, flags)), next) == 0
    ensures Step(Step(m, Free(page)), Alloc(next, flags)).used == m.used + {0}
  {
    var d := Step(m, Free(page));
    assert FirstFree(d.used, 0, d.n) == 0;
  }

  /** The nonzero frames handed out along a run, in order. */
  function HandedOut(m: Pool, ops: seq<Op>): seq<nat>
    decreases |ops|
  {
    if ops == [] then [] else
    var d := Step(m, ops[0]);
    (if ops[0].Alloc? && Held(m, ops[0].page) == 0 && Held(d, ops[0].page) != 0 then [Held(d, ops[0].page)] else [])
    + HandedOut(d, ops[1..])
  }

  /** So with 4096 frames no frame is ever handed out twice, however many are freed in between. */
  lemma {:induction false} NoFrameIsReused(m: Pool, ops: seq<Op>)
    requires Exclusive(m) && m.n <= PAGE
    ensures forall k | 0 <= k < |HandedOut(m, ops)| :: HandedOut(m, ops)[k] !in m.used && 0 < HandedOut(m, ops)[k] < m.n
    ensures forall j, k | 0 <= j < k < |HandedOut(m, ops)| :: HandedOut(m, ops)[j] != HandedOut(m, ops)[k]
    decreases |ops|
  {
    if ops != [] {
      var d := Step(m, ops[0]);
      RunStaysExclusive(m, [ops[0]]);
      assert Run(m, [ops[0]]) == d;
      NoFrameIsReused(d, ops[1..]);
      assert forall f | f in m.used && f != 0 :: f in d.used;
    }
  }

  /** Before any frame is handed out. */
  function Unheld(n: nat): Pool {
    Pool({}, map[], map[], n)
  }

  function Below(k: nat): (s: set<nat>)
    ensures forall x :: x in s <==> 0 <= x < k
  {
    if k == 0 then {} else Below(k - 1) + {k - 1}
  }

  function PlainUpTo(k: nat): map<nat, Flags> {
    if k == 0 then map[] else PlainUpTo(k - 1)[k - 1 := PLAIN]
  }

  /** The first `k` pages hold the first `k` frames. */
  function Filled(k: nat, n: nat): Pool {
    Pool(Below(k), map q | q in Below(k) :: q, PlainUpTo(k), n)
  }

  function Allocs(i: nat, k: nat): seq<Op>
    requires i <= k
    decreases k - i
  {
    if i == k then [] else [Alloc(i, PLAIN)] + Allocs(i + 1, k)
  }

  lemma {:induction false} FillingUp(i: nat, k: nat, n: nat)
    requires i <= k <= n
    ensures Run(Filled(i, n), Allocs(i, k)) == Filled(k, n)
    decreases k - i
  {
    if i < k {
      hide Filled, Step;
      FillingOne(i, n);
      FillingUp(i + 1, k, n);
    }
  }

  lemma FillingOne(i: nat, n: nat)
    requires i < n
    ensures Step(Filled(i, n), Alloc(i, PLAIN)) == Filled(i + 1, n)
  {
    hide FirstFree, PlainUpTo;
    var m := Filled(i, n);
    NextIs(m.used, i, n);
    PlainNext(i);
    assert m.used + {i} == Below(i + 1);
  }

  lemma NextIs(used: set<nat>, i: nat, n: nat)
    requires i < n && used == Below(i)
    ensures FirstFree(used, 0, n) == i
  {
    FirstFreeSkips(used, 0, i, n);
  }

  lemma PlainNext(i: nat)
    ensures PlainUpTo(i + 1) == PlainUpTo(i)[i := PLAIN]
  {
  }

  lemma {:induction false} RunAppend(m: Pool, a: seq<Op>, b: seq<Op>)
    ensures Run(m, a + b) == Run(Run(m, a), b)
    decreases |a|
  {
    if a == [] {
      assert a + b == b;
    } else {
      assert (a + b)[0] == a[0] && (a + b)[1..] == a[1..] + b;
      RunAppend(Step(m, a[0]), a[1..], b);
    }
  }

  /** With more frames than 4096, a run from the start gives one frame to two pages: frame 4096 is handed
      out, and freeing it clears the bit of frame 1. */
  lemma FrameGivenTwice(n: nat) returns (ops: seq<Op>)
    requires n > PAGE
    ensures Held(Run(Unheld(n), ops), 1) == Held(Run(Unheld(n), ops), PAGE) == 1
  {
    var rest := [Free(PAGE), Alloc(PAGE, PLAIN)];
    ops := Allocs(0, PAGE + 1) + rest;
    assert Unheld(n) == Filled(0, n);
    FillingUp(0, PAGE + 1, n);
    RunAppend(Unheld(n), Allocs(0, PAGE + 1), rest);
    var m := Filled(PAGE + 1, n);
    var d := Step(m, rest[0]);
    assert d.used == m.used - {1};
    FirstFreeSkips(d.used, 0, 1, n);
    assert rest[1..] == [Alloc(PAGE, PLAIN)] && rest[1..][1..] == [];
    assert Run(d, rest[1..]) == Run(Step(d, rest[1]), []);
  }

  /** So every run from the start keeps frames exclusive exactly when there are no more than 4096. */
  lemma ExclusiveThroughoutIff(n: nat)
    ensures (forall ops :: Exclusive(Run(Unheld(n), ops))) <==> n <= PAGE
  {
    if n <= PAGE {
      forall ops ensures Exclusive(Run(Unheld(n), ops)) {
        RunStaysExclusive(Unheld(n), ops);
      }
    } else {
      var ops := FrameGivenTwice(n);
      var m := Run(Unheld(n), ops);
      assert !Exclusive(m);
    }
  }

  /** The flags of a page that holds a frame are those of the request that gave it the frame: the last at
      which it held none. A page that held one all along (k < 0) has kept its flags. */
  lemma {:induction false} FlagsAreAsAsked(m: Pool, ops: seq<Op>, p: nat) returns (k: int)
    requires Held(Run(m, ops), p) != 0
    ensures k < |ops| && forall j | 0 <= j <= |ops| && k < j :: Held(Run(m, ops[..j]), p) != 0
    ensures k < 0 ==> (p in Run(m, ops).flags <==> p in m.flags)
    ensures k < 0 && p in m.flags ==> Run(m, ops).flags[p] == m.flags[p]
    ensures 0 <= k ==> Held(Run(m, ops[..k]), p) == 0 && p in Run(m, ops).flags
    ensures 0 <= k ==> ops[k] == Alloc(p, Run(m, ops).flags[p])
    decreases |ops|
  {
    if ops == [] {
      k := -1;
    } else {
      var d := Step(m, ops[0]);
      var i := FlagsAreAsAsked(d, ops[1..], p);
      assert ops[1..][..0] == [];
      assert i < 0 ==> Held(Run(d, ops[1..][..0]), p) != 0;
      k := if i < 0 && Held(m, p) != 0 then -1 else if i < 0 then 0 else i + 1;
      forall j | 0 <= j <= |ops| && k < j ensures Held(Run(m, ops[..j]), p) != 0 {
        if j > 0 {
          assert ops[..j][1..] == ops[1..][..j - 1];
        }
      }
      assert k > 0 ==> ops[..k][1..] == ops[1..][..i];
    }
  }

  // ---------- runs of the code ----------

  const SLOTS_PER_TABLE := 1024

  /** The entry of page number `p`. */
  ghost function EntryOf(tables: seq<PageTable>, p: nat): Entry
    requires p / SLOTS_PER_TABLE < |tables| && |tables[p / SLOTS_PER_TABLE].pages| == SLOTS_PER_TABLE
    reads tables
  {
    tables[p / SLOTS_PER_TABLE].pages[p % SLOTS_PER_TABLE]
  }

  ghost predicate Tabled(tables: seq<PageTable>)
    reads tables
  {
    && (forall t | 0 <= t < |tables| :: |tables[t].pages| == SLOTS_PER_TABLE)
    && (forall s, t | 0 <= s < t < |tables| :: tables[s] != tables[t])
  }

  /** An entry has the frame that the page holds, and with it the flags that were asked for: it is present,
      and the user's unless the kernel asked for it. */
  ghost predicate EntryIs(m: Pool, p: nat, e: Entry) {
    && e.frame == Held(m, p)
    && (e.frame != 0 ==>
          p in m.flags && e.present && (e.rw <==> m.flags[p].isWriteable) && (e.user <==> !m.flags[p].isKernel))
  }

  /** The bitmap and the tables hold what the pool says. */
  ghost predicate Represents(m: Pool, frames: FrameMap, tables: seq<PageTable>)
    reads frames.frames, tables
  {
    && Tabled(tables) && m.used == frames.InUse() && 0 < m.n == frames.Count() <= MAX_FRAMES
    && (forall p | p in m.held :: m.held[p] < m.n)
    && (forall p: nat | p / SLOTS_PER_TABLE < |tables| :: EntryIs(m, p, EntryOf(tables, p)))
  }

  lemma OtherEntriesStay(p: nat, q: nat)
    ensures p == q <==> p / SLOTS_PER_TABLE == q / SLOTS_PER_TABLE && p % SLOTS_PER_TABLE == q % SLOTS_PER_TABLE
  {
  }

  /** One call on the code's bitmap and tables is one step of the run it belongs to. */
  method Perform(frames: FrameMap, tables: seq<PageTable>, ghost m: Pool, op: Op)
    requires Represents(m, frames, tables) && op.page / SLOTS_PER_TABLE < |tables|
    modifies frames.frames, tables
    ensures Represents(Step(m, op), frames, tables)
  {
    hide Used, FirstFree;
    var table, slot := tables[op.page / SLOTS_PER_TABLE], op.page % SLOTS_PER_TABLE;
    assert EntryOf(tables, op.page) == table.pages[slot];
    match op {
      case Alloc(page, flags) => frames.AllocFrame(table, slot, flags.isKernel, flags.isWriteable);
      case Free(page) => frames.FreeFrame(table, slot);
    }
    ghost var d := Step(m, op);
    forall p: nat | p / SLOTS_PER_TABLE < |tables| ensures EntryIs(d, p, EntryOf(tables, p)) {
      OtherEntriesStay(p, op.page);
      assert old(EntryIs(m, p, EntryOf(tables, p)));
      assert p != op.page ==> Held(d, p) == Held(m, p);
    }
  }

  /** The code carries out every run. */
  method PerformAll(frames: FrameMap, tables: seq<PageTable>, ghost m: Pool, ops: seq<Op>)
    requires Represents(m, frames, tables)
    requires forall k | 0 <= k < |ops| :: ops[k].page / SLOTS_PER_TABLE < |tables|
    modifies frames.frames, tables
    ensures Represents(Run(m, ops), frames, tables)
  {
    hide Represents, Step;
    ghost var d := m;
    var i := 0;
    while i < |ops|
      invariant i <= |ops| && Represents(d, frames, tables) && Run(m, ops) == Run(d, ops[i..])
    {
      Perform(frames, tables, d, ops[i]);
      d := Step(d, ops[i]);
      i := i + 1;
    }
  }
}
