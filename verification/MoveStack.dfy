/** `move_stack` in task.c: copying the stack, then relocating what looks like saved frame pointers. */
module MoveStacks {
  import opened Machine

  /** What the relocation makes of a word: shifted exactly when it lies strictly between the old stack
      pointer and the top of the old stack. */
  function Reloc(v: u32, sp: nat, top: nat, offset: nat): u32 {
    if sp < v < top then (v + offset) % WORD_LIMIT else v
  }

  /** `memcpy` between ranges that do not meet. */
  function Copied(m: Memory, dst: nat, src: nat, len: nat): (r: Memory)
    requires dst + len <= |m| && src + len <= |m|
    ensures |r| == |m| && (forall b | dst <= b < dst + len :: r[b] == m[b - dst + src])
      && SameOutside(m, r, dst, dst + len)
  {
    m[..dst] + m[src..src + len] + m[dst + len..]
  }

  function RelocateAt(m: Memory, at: nat, sp: nat, top: nat, offset: nat): (r: Memory)
    requires at + 4 <= |m|
    ensures |r| == |m| && Word(r, at) == Reloc(Word(m, at), sp, top, offset) && SameOutside(m, r, at, at + 4)
  {
    if sp < Word(m, at) < top then PutWord(m, at, Reloc(Word(m, at), sp, top, offset)) else m
  }

  /** The backward pass over the `n` words at `at`, `at - 4`, and so on. */
  function Relocated(m: Memory, at: int, n: nat, sp: nat, top: nat, offset: nat): (r: Memory)
    requires at + 4 <= |m| && (n > 0 ==> 0 <= at - 4 * (n - 1))
    ensures |r| == |m|
    decreases n
  {
    if n == 0 then m else
    Relocated(RelocateAt(m, at, sp, top, offset), at - 4, n - 1, sp, top, offset)
  }

  lemma {:induction false} RelocatedElsewhere(m: Memory, at: int, n: nat, sp: nat, top: nat, offset: nat)
    requires at + 4 <= |m| && (n > 0 ==> 0 <= at - 4 * (n - 1))
    ensures SameOutside(m, Relocated(m, at, n, sp, top, offset), at + 4 - 4 * n, at + 4)
    decreases n
  {
    if n > 0 {
      hide RelocateAt;
      RelocatedElsewhere(RelocateAt(m, at, sp, top, offset), at - 4, n - 1, sp, top, offset);
    }
  }

  /** The pass rewrites each of its words once, from its own old value. */
  lemma {:induction false} RelocatedWord(m: Memory, at: int, n: nat, sp: nat, top: nat, offset: nat, k: nat, b: nat)
    requires at + 4 <= |m| && (n > 0 ==> 0 <= at - 4 * (n - 1)) && k < n && b == at - 4 * k
    ensures Word(Relocated(m, at, n, sp, top, offset), b) == Reloc(Word(m, b), sp, top, offset)
    decreases n
  {
    hide RelocateAt;
    var m1 := RelocateAt(m, at, sp, top, offset);
    if k > 0 {
      RelocatedWord(m1, at - 4, n - 1, sp, top, offset, k - 1, b);
    } else {
      RelocatedElsewhere(m1, at - 4, n - 1, sp, top, offset);
    }
  }

  function Words(size: nat): nat {
    (size + 3) / 4
  }

  /** What the code needs: the stack in use is smaller than the new one, and the two do not overlap. */
  ghost predicate Movable(m: Memory, sp: nat, top: nat, newTop: nat, size: nat) {
    && |m| == WORD_LIMIT && sp <= top < WORD_LIMIT && top - sp < size && size + PAGE <= newTop
      && newTop + 4 <= WORD_LIMIT
    && (newTop + 4 <= sp || top <= newTop - size)
  }

  ghost function Moved(m: Memory, sp: nat, top: nat, newTop: nat, size: nat): (r: Memory)
    requires Movable(m, sp, top, newTop, size)
    ensures |r| == |m|
  {
    Relocated(Copied(m, newTop - (top - sp), sp, top - sp), newTop, Words(size), sp, top, (newTop - top) % WORD_LIMIT)
  }

  /** Every word of the used stack arrives as its old value, relocated exactly when it lay strictly
      between the old stack pointer and the top; the old stack is left as it was. */
  lemma MovedWord(m: Memory, sp: nat, top: nat, newTop: nat, size: nat, a: nat)
    requires Movable(m, sp, top, newTop, size) && sp <= a && a + 4 <= top && (top - a) % 4 == 0
    ensures var r := Moved(m, sp, top, newTop, size); var b := a - top + newTop;
      && 0 <= b && Word(r, b) == (if sp < Word(m, a) < top then Word(m, a) - top + newTop else Word(m, a))
      && Word(r, a) == Word(m, a)
  {
    hide Relocated, Copied, Reloc;
    var c := Copied(m, newTop - (top - sp), sp, top - sp);
    var offset, k, b := (newTop - top) % WORD_LIMIT, (top - a) / 4, a - top + newTop;
    assert top - a == 4 * k;
    RelocatedWord(c, newTop, Words(size), sp, top, offset, k, b);
    RelocatedElsewhere(c, newTop, Words(size), sp, top, offset);
    CopiedWord(m, newTop - (top - sp), sp, top - sp, a - sp);
    ShiftIsExact(Word(m, a), sp, top, newTop);
  }

  lemma CopiedWord(m: Memory, dst: nat, src: nat, len: nat, k: nat)
    requires dst + len <= |m| && src + len <= |m| && k + 4 <= len
    ensures Word(Copied(m, dst, src, len), dst + k) == Word(m, src + k)
  {
  }

  /** The 32-bit offset wraps, but a relocated address never does. */
  lemma ShiftIsExact(v: u32, sp: nat, top: nat, newTop: nat)
    requires sp < v < top ==> top - sp < newTop < WORD_LIMIT && top < WORD_LIMIT
    ensures Reloc(v, sp, top, (newTop - top) % WORD_LIMIT) == if sp < v < top then v - top + newTop else v
  {
  }

  /** Outside the new stack and the word just above it no byte changes. */
  lemma MovedElsewhere(m: Memory, sp: nat, top: nat, newTop: nat, size: nat)
    requires Movable(m, sp, top, newTop, size)
    ensures SameOutside(m, Moved(m, sp, top, newTop, size), newTop - size, newTop + 4)
  {
    hide Relocated, Copied;
    var c := Copied(m, newTop - (top - sp), sp, top - sp);
    RelocatedElsewhere(c, newTop, Words(size), sp, top, (newTop - top) % WORD_LIMIT);
  }

  /** Below the part of the new stack that is in use the pass goes on, over whatever memory holds there, down
      to the last word that starts above the bottom. */
  lemma RestOfStack(m: Memory, sp: nat, top: nat, newTop: nat, size: nat, b: nat)
    requires Movable(m, sp, top, newTop, size) && (newTop - b) % 4 == 0 && b + 4 <= newTop - (top - sp)
    ensures var r := Moved(m, sp, top, newTop, size);
      Word(r, b) == if newTop - size < b && sp < Word(m, b) < top then Word(m, b) - top + newTop else Word(m, b)
  {
    hide Relocated, Copied, Reloc;
    var c := Copied(m, newTop - (top - sp), sp, top - sp);
    var offset, k := (newTop - top) % WORD_LIMIT, (newTop - b) / 4;
    assert newTop - b == 4 * k && Word(c, b) == Word(m, b);
    RelocatedElsewhere(c, newTop, Words(size), sp, top, offset);
    if newTop - size < b {
      RelocatedWord(c, newTop, Words(size), sp, top, offset, k, b);
      ShiftIsExact(Word(m, b), sp, top, newTop);
    }
  }

  /** The pass starts one word too high: it also shifts the word just above the new stack, exactly when
      that word happens to look like an address in the old one. */
  lemma WordAboveStack(m: Memory, sp: nat, top: nat, newTop: nat, size: nat)
    requires Movable(m, sp, top, newTop, size) && top != newTop
    ensures Word(Moved(m, sp, top, newTop, size), newTop) != Word(m, newTop) <==> sp < Word(m, newTop) < top
  {
    hide Relocated, Copied;
    var c := Copied(m, newTop - (top - sp), sp, top - sp);
    RelocatedWord(c, newTop, Words(size), sp, top, (newTop - top) % WORD_LIMIT, 0, newTop);
    assert Word(c, newTop) == Word(m, newTop);
    ShiftIsExact(Word(m, newTop), sp, top, newTop);
  }

  // ---------- the chain of frame pointers ----------

  /** Following saved frame pointers `k` steps from `e`. */
  function Follow(m: Memory, e: nat, k: nat): nat
    decreases k
  {
    if k == 0 then e else Follow(m, if e + 4 <= |m| then Word(m, e) else 0, k - 1)
  }

  /** A frame pointer that points at a word of the used stack, above its lowest one. */
  ghost predicate Frame(e: nat, sp: nat, top: nat) {
    sp < e && e + 4 <= top && (top - e) % 4 == 0
  }

  lemma FrameIsAWord(m: Memory, sp: nat, top: nat, newTop: nat, size: nat, e: nat)
    requires Movable(m, sp, top, newTop, size) && Frame(e, sp, top)
    ensures e + 4 <= |m| && sp <= e && e + 4 <= top && (top - e) % 4 == 0 && 0 <= e - top + newTop
      && e - top + newTop + 4 <= |m|
    ensures sp < e < top
  {
  }

  /** For every depth, the chain in the new stack is the old chain shifted: each frame by the same
      amount, and where the old chain leaves the stack the new one ends at the same value. */
  lemma {:induction false} ChainMoves(m: Memory, sp: nat, top: nat, newTop: nat, size: nat, e: nat, k: nat)
    requires Movable(m, sp, top, newTop, size) && Frame(e, sp, top)
    requires forall j | 0 <= j < k :: Frame(Follow(m, e, j), sp, top)
    ensures var r := Moved(m, sp, top, newTop, size); var last := Follow(m, e, k);
      Follow(r, e - top + newTop, k) == if sp < last < top then last - top + newTop else last
    decreases k
  {
    hide Moved, Movable, Word, Follow;
    var r, b := Moved(m, sp, top, newTop, size), e - top + newTop;
    if k == 0 {
      FollowNone(m, e);
      FrameIsAWord(m, sp, top, newTop, size, e);
      FollowNone(r, b);
    } else {
      hide Frame;
      FrameIsAWord(m, sp, top, newTop, size, e);
      MovedWord(m, sp, top, newTop, size, e);
      var next := Word(m, e);
      FollowStep(m, e, k);
      FollowStep(r, b, k);
      if k == 1 {
        FollowNone(m, next);
        FollowNone(r, Word(r, b));
      } else {
        ChainShifts(m, e, next, k, sp, top);
        ChainMoves(m, sp, top, newTop, size, next, k - 1);
      }
    }
  }

  lemma ChainShifts(m: Memory, e: nat, next: nat, k: nat, sp: nat, top: nat)
    requires k > 1 && e + 4 <= |m| && next == Word(m, e)
    requires forall j | 0 <= j < k :: Frame(Follow(m, e, j), sp, top)
    ensures Frame(next, sp, top) && sp < next < top && forall j | 0 <= j < k - 1 :: Frame(Follow(m, next, j), sp, top)
  {
    forall j | 0 <= j < k - 1 ensures Frame(Follow(m, next, j), sp, top) {
      FollowStep(m, e, j + 1);
    }
    FollowNone(m, next);
  }

  lemma FollowStep(m: Memory, e: nat, k: nat)
    requires k > 0 && e + 4 <= |m|
    ensures Follow(m, e, k) == Follow(m, Word(m, e), k - 1)
  {
  }

  lemma FollowNone(m: Memory, e: nat)
    ensures Follow(m, e, 0) == e
  {
  }

  // ---------- the pages of the new stack ----------

  /** The page numbers the mapping loop visits. */
  ghost function PagesMapped(newTop: nat, size: nat): set<nat>
    requires size <= newTop
  {
    set k | 0 <= k <= size / PAGE :: (newTop - k * PAGE) / PAGE
  }

  /** It visits every page from the one of the top down, one for each whole page of the size, and no other. */
  lemma PagesMappedAre(newTop: nat, size: nat, q: nat)
    requires size <= newTop
    ensures q in PagesMapped(newTop, size) <==> newTop / PAGE - size / PAGE <= q <= newTop / PAGE
  {
    if newTop / PAGE - size / PAGE <= q <= newTop / PAGE {
      var k := newTop / PAGE - q;
      assert (newTop - k * PAGE) / PAGE == q;
    }
    if q in PagesMapped(newTop, size) {
      var k: nat :| 0 <= k <= size / PAGE && (newTop - k * PAGE) / PAGE == q;
      assert (newTop - k * PAGE) / PAGE == newTop / PAGE - k;
    }
  }

  /** The loop steps down by whole pages, so it reaches the lowest page of the new stack exactly when
      the last step does not fall short of it. */
  lemma AllPagesMappedIff(newTop: nat, size: nat)
    requires size <= newTop
    ensures (forall a | newTop - size <= a <= newTop :: a / PAGE in PagesMapped(newTop, size))
       <==> size % PAGE <= newTop % PAGE
  {
    var steps := size / PAGE;
    var lowest := (newTop - steps * PAGE) / PAGE;
    assert lowest == newTop / PAGE - steps;
    if size % PAGE <= newTop % PAGE {
      forall a | newTop - size <= a <= newTop ensures a / PAGE in PagesMapped(newTop, size) {
        var k := newTop / PAGE - a / PAGE;
        assert (newTop - k * PAGE) / PAGE == a / PAGE;
      }
    } else {
      var a := newTop - size;
      assert a / PAGE < lowest;
      forall k | 0 <= k <= steps ensures (newTop - k * PAGE) / PAGE != a / PAGE {
      }
      assert a / PAGE !in PagesMapped(newTop, size);
    }
  }

  /** The processor and the memory it addresses. */
  class Processor {
    var mem: Memory
    var esp: u32
    var ebp: u32
    const initialEsp: u32

    constructor (m: Memory, sp: u32, bp: u32, top: u32)
      ensures mem == m && esp == sp && ebp == bp && initialEsp == top
    {
      mem, esp, ebp, initialEsp := m, sp, bp, top;
    }

    method MapNewStack(newTop: u32, size: nat) returns (mapped: set<nat>)
      requires size + PAGE <= newTop
      ensures mapped == PagesMapped(newTop, size)
    {
      mapped := {};
      var i := newTop;
      ghost var n := 0;
      while i >= newTop - size
        invariant i == newTop - n * PAGE && newTop - size - PAGE <= i
        invariant mapped == set k | 0 <= k < n :: (newTop - k * PAGE) / PAGE
        decreases i
      {
        mapped := mapped + {i / PAGE};
        i := i - 0x1000;
        n := n + 1;
      }
      assert n == size / PAGE + 1;
    }

    method Memcpy(dst: nat, src: nat, len: nat)
      requires dst + len <= |mem| && src + len <= |mem| && (dst + len <= src || src + len <= dst)
      modifies this`mem
      ensures mem == Copied(old(mem), dst, src, len)
    {
      var k := 0;
      while k < len
        invariant k <= len && |mem| == |old(mem)|
        invariant forall b | dst <= b < dst + k :: mem[b] == old(mem)[b - dst + src]
        invariant SameOutside(old(mem), mem, dst, dst + k)
      {
        mem := mem[dst + k := mem[src + k]];
        k := k + 1;
      }
      assert mem == Copied(old(mem), dst, src, len);
    }

    /** The backtrace: from the word at the new top down to the bottom of the new stack. */
    method RelocateStack(newTop: u32, size: nat, oldSp: u32, offset: u32)
      requires |mem| == WORD_LIMIT && size + PAGE <= newTop && newTop + 4 <= WORD_LIMIT
      modifies this`mem
      ensures mem == Relocated(old(mem), newTop, Words(size), oldSp, initialEsp, offset)
    {
      hide Word, PutWord;
      ghost var n := 0;
      var i := newTop;
      while i > newTop - size
        invariant i == newTop - 4 * n && newTop - size - 4 < i && n <= Words(size) && |mem| == WORD_LIMIT
        invariant Relocated(old(mem), newTop, Words(size), oldSp, initialEsp, offset)
               == Relocated(mem, i, Words(size) - n, oldSp, initialEsp, offset)
        decreases i
      {
        var tmp := Word(mem, i);
        if oldSp < tmp < initialEsp {
          tmp := (tmp + offset) % WORD_LIMIT;
          mem := PutWord(mem, i, tmp);
        }
        i := i - 4;
        n := n + 1;
      }
    }

    /** `move_stack`. The page entries it fills are reported in `mapped`. */
    method MoveStack(newTop: u32, size: nat) returns (mapped: set<nat>)
      requires Movable(mem, esp, initialEsp, newTop, size)
      modifies this
      ensures mem == Moved(old(mem), old(esp), initialEsp, newTop, size)
      ensures esp == old(esp) - initialEsp + newTop
      ensures ebp == (old(ebp) - initialEsp + newTop) % WORD_LIMIT
      ensures mapped == PagesMapped(newTop, size)
    {
      hide Copied, PagesMapped, Relocated;
      mapped := MapNewStack(newTop, size);
      var oldSp, oldBp := esp, ebp;
      var offset := (newTop - initialEsp) % WORD_LIMIT;
      var newSp := (oldSp + offset) % WORD_LIMIT;
      var newBp := (oldBp + offset) % WORD_LIMIT;
      assert newSp == newTop - (initialEsp - oldSp);
      Memcpy(newSp, oldSp, initialEsp - oldSp);
      RelocateStack(newTop, size, oldSp, offset);
      esp := newSp;
      ebp := newBp;
    }
  }
}
