/** The 32-bit machine: unsigned words, and byte-addressed little-endian memory. */
module Machine {
  const WORD_LIMIT := 0x1_0000_0000
  const PAGE := 0x1000

  type u8 = x: int | 0 <= x < 0x100
  type u32 = x: int | 0 <= x < 0x1_0000_0000
  type Memory = seq<u8>

  /** The `int` a word stands for. */
  function Signed(w: u32): (v: int)
    ensures -0x8000_0000 <= v < 0x8000_0000 && v % WORD_LIMIT == w
  {
    if w < 0x8000_0000 then w else w - WORD_LIMIT
  }

  /** The 32-bit word stored at address `a`, least significant byte first. */
  function Word(m: Memory, a: nat): (w: u32)
    requires a + 4 <= |m|
  {
    (m[a] as int) + 0x100 * (m[a + 1] as int) + 0x1_0000 * (m[a + 2] as int) + 0x100_0000 * (m[a + 3] as int)
  }

  /** Memory after the word at `a` is overwritten: it reads back, and no other byte moves. */
  function PutWord(m: Memory, a: nat, w: u32): (r: Memory)
    requires a + 4 <= |m|
    ensures |r| == |m|
    ensures Word(r, a) == w
    ensures forall b | 0 <= b < |m| && !(a <= b < a + 4) :: r[b] == m[b]
  {
    var w1 := w / 0x100;
    var w2 := w1 / 0x100;
    m[a := w % 0x100][a + 1 := w1 % 0x100][a + 2 := w2 % 0x100][a + 3 := w2 / 0x100]
  }

  /** The four bytes of a word, least significant first. */
  function Bytes(w: u32): seq<u8> {
    [w % 0x100, w / 0x100 % 0x100, w / 0x1_0000 % 0x100, w / 0x100_0000]
  }

  lemma WordBytes(m: Memory, a: nat, w: u32)
    requires a + 4 <= |m|
    ensures PutWord(m, a, w)[a..a + 4] == Bytes(w)
  {
    assert w / 0x100 / 0x100 == w / 0x1_0000 && w / 0x1_0000 / 0x100 == w / 0x100_0000;
  }

  /** Two memories agree on every byte of [lo, hi). */
  ghost predicate SameBytes(m: Memory, r: Memory, lo: int, hi: int)
  {
    |m| == |r| && forall b | 0 <= b < |m| && lo <= b < hi :: m[b] == r[b]
  }

  /** Two memories agree on every byte outside [lo, hi). */
  ghost predicate SameOutside(m: Memory, r: Memory, lo: int, hi: int)
  {
    |m| == |r| && forall b | 0 <= b < |m| && !(lo <= b < hi) :: m[b] == r[b]
  }
}
