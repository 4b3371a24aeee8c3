/** Whole runs of `alloc`, `free` and of stores by the owners of live blocks, from `create_heap` on. */
module HeapRuns {
  import opened Machine
  import opened OrderedArrays
  import opened HeapCells
  import opened HeapAlloc
  import opened HeapExpand
  import opened HeapFree

  const INDEX_SIZE := 0x20000

  // ---------- create_heap ----------

  /** Where the data area starts: past the index, and always moved up to the next page. */
  function DataStart(start: nat): (s: nat)
    ensures s % PAGE == 0 && start + 4 * INDEX_SIZE < s <= start + 4 * INDEX_SIZE + PAGE
  {
    (start + 4 * INDEX_SIZE) / PAGE * PAGE + PAGE
  }

  /** `create_heap`: one big hole, indexed, with a header but no footer. */
  ghost function Create(m: Memory, start: nat, end: nat, max: nat, pages: set<nat>): (h: Heap)
    requires |m| == WORD_LIMIT && DataStart(start) + MIN_SIZE <= end < WORD_LIMIT
  {
    var s := DataStart(start);
    var hole := Cell(end - s, true);
    Heap(PutHeader(m, s, hole), map[s := hole], [s], s, end, max, pages)
  }

  lemma CreateIsWf(m: Memory, start: nat, end: nat, max: nat, pages: set<nat>)
    requires |m| == WORD_LIMIT && start % PAGE == 0 && end % PAGE == 0
    requires DataStart(start) + MIN_SIZE <= end <= max <= WORD_LIMIT - PAGE && max - DataStart(start) < 0x8000_0000
    requires FencedBelow(m, DataStart(start))
    requires forall x | start <= x < end && x % PAGE == 0 :: x in pages
    ensures Wf(Create(m, start, end, max, pages))
  {
    hide PutHeader, HeaderAt;
    var h := Create(m, start, end, max, pages);
    assert Good(h, h.start);
    GoodCellsMakeWf(h);
  }

  // ---------- clients ----------

  /** The heap together with what its clients hold: the size they asked for at each live pointer. */
  datatype Client = Client(h: Heap, live: map<nat, nat>)

  datatype Op = Alloc(size: nat, align: bool) | Free(p: nat, behind: Behind) | Store(a: nat, v: u8)

  ghost predicate Holds(c: Client, p: nat)
    requires p in c.live
  {
    && HEADER <= p && p - HEADER in c.h.cells && !c.h.cells[p - HEADER].hole
    && c.live[p] + OVERHEAD <= c.h.cells[p - HEADER].size
  }

  /** The live pointers are exactly the payloads of the blocks, each at least as long as asked. */
  ghost predicate Sound(c: Client) {
    && Wf(c.h)
    && (forall p {:trigger Holds(c, p)} | p in c.live :: Holds(c, p))
    && (forall a | a in c.h.cells && !c.h.cells[a].hole :: a + HEADER in c.live)
  }

  ghost predicate Owns(c: Client, p: nat, a: nat) {
    p in c.live && p <= a < p + c.live[p]
  }

  /** The array has a free slot, and one more if a hole must be added at the old end. */
  ghost predicate IndexHasRoom(h: Heap, need: nat, align: bool)
    requires Wf(h)
  {
    |h.index| + (if Find(h, 0, need, align) == |h.index| && Appends(h) then 1 else 0) < INDEX_SIZE
  }

  ghost predicate InDomain(c: Client, op: Op)
    requires Sound(c)
  {
    match op
    case Alloc(size, align) =>
      size + OVERHEAD < 0x8000_0000 && AllocDomain(c.h, size, align) && IndexHasRoom(c.h, size + OVERHEAD, align)
    case Free(p, behind) =>
      p == 0 || (p in c.live && Freeable(c.h, p) && FreeDomain(c.h, p, behind) && |c.h.index| < INDEX_SIZE)
    case Store(a, v) => exists p :: Owns(c, p, a)
  }

  ghost function Step(c: Client, op: Op): Client
    requires Sound(c) && InDomain(c, op)
  {
    match op
    case Alloc(size, align) =>
      var (g, p) := Malloc(c.h, size, align);
      Client(g, c.live[p := size])
    case Free(p, _) => if p == 0 then c else Client(Release(c.h, p), c.live - {p})
    case Store(a, v) =>
      if a < |c.h.mem| then c.(h := c.h.(mem := c.h.mem[a := v])) else c
  }

  /** Every live payload with its contents: all that a client can see. */
  ghost function View(c: Client): map<nat, seq<u8>>
    requires Sound(c)
  {
    map p | p in c.live :: Payload(c, p)
  }

  ghost function Payload(c: Client, p: nat): seq<u8>
    requires Sound(c) && p in c.live
    ensures |Payload(c, p)| == c.live[p]
  {
    PayloadInside(c, p);
    c.h.mem[p..p + c.live[p]]
  }

  lemma PayloadInside(c: Client, p: nat)
    requires Sound(c) && p in c.live
    ensures c.h.start < p && p + c.live[p] < c.h.end <= |c.h.mem|
    ensures Holds(c, p) && p + c.live[p] + FOOTER <= p - HEADER + c.h.cells[p - HEADER].size
  {
    assert Holds(c, p);
    CellIsGood(c.h, p - HEADER);
  }

  /** Live payloads are pairwise disjoint. */
  lemma PayloadsDisjoint(c: Client, p: nat, q: nat)
    requires Sound(c) && p in c.live && q in c.live && p < q
    ensures p + c.live[p] < q
  {
    PayloadInside(c, p);
    PayloadInside(c, q);
    InOrder(c.h, p - HEADER, q - HEADER);
  }

  /** The reference: a store of separate buffers, where allocation adds one of the size asked, freeing
      removes one, and a byte written shows up in its own buffer and nowhere else. */
  ghost predicate Buffers(v: map<nat, seq<u8>>, op: Op, w: map<nat, seq<u8>>) {
    match op
    case Alloc(size, align) =>
      exists p :: p !in v && p in w && w == v[p := w[p]] && |w[p]| == size && (align ==> p % PAGE == 0)
    case Free(p, _) => w == v - {p}
    case Store(a, b) =>
      w == map p | p in v :: if p <= a < p + |v[p]| then v[p][a - p := b] else v[p]
  }

  lemma KeptPayload(c: Client, d: Client, q: nat)
    requires Sound(c) && Sound(d) && q in c.live && q in d.live && c.live[q] == d.live[q]
    requires HEADER <= q && KeepsBlock(c.h, d.h, q - HEADER)
    ensures Payload(c, q) == Payload(d, q)
  {
    hide Wf;
    PayloadInside(c, q);
    PayloadInside(d, q);
  }

  lemma AllocIsSound(c: Client, size: nat, align: bool)
    requires Sound(c) && InDomain(c, Alloc(size, align))
    ensures var (g, p) := Malloc(c.h, size, align);
      && Step(c, Alloc(size, align)) == Client(g, c.live[p := size]) && Sound(Client(g, c.live[p := size]))
      && p !in c.live && (align ==> p % PAGE == 0)
      && forall q | q in c.live :: HEADER <= q && KeepsBlock(c.h, g, q - HEADER)
  {
    hide Wf, Malloc, AllocDomain, KeepsBlock;
    MallocGrants(c.h, size, align);
    var (g, p) := Malloc(c.h, size, align);
    var d := Client(g, c.live[p := size]);
    assert p in c.live ==> Holds(c, p);
    forall q | q in c.live ensures Holds(d, q) && HEADER <= q && KeepsBlock(c.h, g, q - HEADER) {
      assert Holds(c, q);
      KeptCell(c.h, g, q - HEADER);
    }
  }

  lemma KeptCell(h: Heap, g: Heap, b: nat)
    ensures KeepsBlock(h, g, b) ==> b in h.cells && b in g.cells && h.cells[b] == g.cells[b]
  {
  }

  lemma AllocView(c: Client, d: Client, p: nat, size: nat)
    requires Sound(c) && Sound(d) && p !in c.live && d.live == c.live[p := size]
    requires forall q | q in c.live :: HEADER <= q && KeepsBlock(c.h, d.h, q - HEADER)
    ensures p in View(d) && View(d) == View(c)[p := View(d)[p]] && |View(d)[p]| == size && p !in View(c)
  {
    hide Sound, Payload, KeepsBlock;
    forall q | q in c.live ensures Payload(d, q) == Payload(c, q) {
      KeptPayload(c, d, q);
    }
  }

  lemma AllocRefines(c: Client, size: nat, align: bool)
    requires Sound(c) && InDomain(c, Alloc(size, align))
    ensures var d := Step(c, Alloc(size, align));
      Sound(d) && Buffers(View(c), Alloc(size, align), View(d))
  {
    var d, p := Step(c, Alloc(size, align)), Malloc(c.h, size, align).1;
    AllocIsSound(c, size, align);
    hide Sound, Step, InDomain, View, KeepsBlock, Malloc;
    AllocView(c, d, p, size);
  }

  lemma FreeIsSound(c: Client, p: nat, b: Behind)
    requires Sound(c) && InDomain(c, Free(p, b)) && p != 0
    ensures var g := Release(c.h, p);
      && Sound(Client(g, c.live - {p}))
      && forall q | q in c.live && q != p :: HEADER <= q && KeepsBlock(c.h, g, q - HEADER)
  {
    hide Wf, Release, MergeDomain, KeepsBlock;
    FreeKeepsWf(c.h, p);
    FreeTakesOneBlock(c.h, p);
    var g := Release(c.h, p);
    var d := Client(g, c.live - {p});
    forall q | q in c.live && q != p ensures Holds(d, q) && HEADER <= q && KeepsBlock(c.h, g, q - HEADER) {
      assert Holds(c, q);
      assert KeepsBlock(c.h, g, q - HEADER);
      KeptCell(c.h, g, q - HEADER);
    }
  }

  lemma SoundIsWf(c: Client)
    requires Sound(c)
    ensures Wf(c.h)
  {
  }

  lemma FreeRefines(c: Client, p: nat, b: Behind)
    requires Sound(c) && InDomain(c, Free(p, b))
    ensures Sound(Step(c, Free(p, b))) && Buffers(View(c), Free(p, b), View(Step(c, Free(p, b))))
    ensures p != 0 ==> FreeOutcome(c.h, p, b) == Done(Step(c, Free(p, b)).h)
  {
    hide Sound, Payload, KeepsBlock, Release, FreeOutcome, FreeDomain, Freeable;
    NullIsNotLive(c);
    if p == 0 {
      assert View(c) == View(c) - {p};
    } else {
      FreeIsSound(c, p, b);
      FreeKeepsWfIff(c.h, p, b) by { SoundIsWf(c); }
      var d := Client(Release(c.h, p), c.live - {p});
      forall q | q in d.live ensures Payload(d, q) == Payload(c, q) {
        KeptPayload(c, d, q);
      }
      assert View(d) == View(c) - {p};
    }
  }

  lemma NullIsNotLive(c: Client)
    requires Sound(c)
    ensures 0 !in c.live
  {
    assert 0 in c.live ==> Holds(c, 0);
  }

  /** A store by the owner of a payload touches no tag and no other payload. */
  lemma StoreIsSound(c: Client, p: nat, a: nat, v: u8)
    requires Sound(c) && Owns(c, p, a)
    ensures a < |c.h.mem| && Sound(c.(h := c.h.(mem := c.h.mem[a := v])))
  {
    hide HeaderAt, FooterAt, Configured;
    PayloadInside(c, p);
    var h := c.h;
    var g := h.(mem := h.mem[a := v]);
    var b := p - HEADER;
    forall x | x in g.cells ensures Good(g, x) {
      CellIsGood(h, x);
      if x < b {
        InOrder(h, x, b);
      } else if b < x {
        InOrder(h, b, x);
      }
      StoreKeepsTags(h.mem, a, v, x, h.cells[x]);
    }
    assert Configured(h) && Configured(g) by {
      StoreStaysConfigured(h, a, v);
    }
    GoodCellsMakeWf(g);
    forall q | q in c.live ensures Holds(c.(h := g), q) {
      assert Holds(c, q);
    }
  }

  lemma StoreStaysConfigured(h: Heap, a: nat, v: u8)
    requires Wf(h) && a < |h.mem|
    ensures Configured(h) && Configured(h.(mem := h.mem[a := v]))
  {
  }

  lemma StoreKeepsTags(m: Memory, a: nat, v: u8, x: nat, c: Cell)
    requires a < |m| && OVERHEAD <= c.size && (a < x || x + HEADER <= a < x + c.size - FOOTER || x + c.size <= a)
    ensures HeaderAt(m, x, c) ==> HeaderAt(m[a := v], x, c)
    ensures FooterAt(m, x + c.size, x) ==> FooterAt(m[a := v], x + c.size, x)
  {
  }

  lemma StoreRefines(c: Client, a: nat, v: u8)
    requires Sound(c) && InDomain(c, Store(a, v))
    ensures Sound(Step(c, Store(a, v))) && Buffers(View(c), Store(a, v), View(Step(c, Store(a, v))))
  {
    hide Wf, Sound;
    var p :| Owns(c, p, a);
    StoreIsSound(c, p, a, v);
    var d := c.(h := c.h.(mem := c.h.mem[a := v]));
    forall q | q in c.live
      ensures Payload(d, q) == if q <= a < q + c.live[q] then Payload(c, q)[a - q := v] else Payload(c, q)
    {
      PayloadInside(c, q);
    }
  }

  /** One step, whichever it is, behaves like the same step on separate buffers. */
  lemma StepRefines(c: Client, op: Op)
    requires Sound(c) && InDomain(c, op)
    ensures Sound(Step(c, op)) && Buffers(View(c), op, View(Step(c, op)))
  {
    match op
    case Alloc(size, align) => AllocRefines(c, size, align);
    case Free(p, b) => FreeRefines(c, p, b);
    case Store(a, v) => StoreRefines(c, a, v);
  }

  // ---------- runs ----------

  ghost predicate RunInDomain(c: Client, ops: seq<Op>)
    requires Sound(c)
    decreases |ops|
  {
    ops == [] || (InDomain(c, ops[0]) && (StepRefines(c, ops[0]); RunInDomain(Step(c, ops[0]), ops[1..])))
  }

  ghost function Run(c: Client, ops: seq<Op>): (d: Client)
    requires Sound(c) && RunInDomain(c, ops)
    ensures Sound(d)
    decreases |ops|
  {
    if ops == [] then c else
    StepRefines(c, ops[0]);
    Run(Step(c, ops[0]), ops[1..])
  }

  /** The same run on separate buffers. */
  ghost predicate BuffersRun(v: map<nat, seq<u8>>, ops: seq<Op>, w: map<nat, seq<u8>>)
    decreases |ops|
  {
    if ops == [] then v == w else exists u :: Buffers(v, ops[0], u) && BuffersRun(u, ops[1..], w)
  }

  /** Every run in the domain keeps the heap well formed and is, to its clients, a run on separate
      buffers: tiling, footers, index and the isolation of live payloads hold throughout. */
  lemma {:induction false} RunRefines(c: Client, ops: seq<Op>)
    requires Sound(c) && RunInDomain(c, ops)
    ensures BuffersRun(View(c), ops, View(Run(c, ops)))
    decreases |ops|
  {
    if ops != [] {
      StepRefines(c, ops[0]);
      RunRefines(Step(c, ops[0]), ops[1..]);
    }
  }

  lemma StepKeepsPayload(c: Client, op: Op, p: nat)
    requires Sound(c) && InDomain(c, op) && p in c.live && !(op.Free? && op.p == p)
    requires op.Store? ==> !(p <= op.a < p + c.live[p])
    ensures Sound(Step(c, op)) && p in Step(c, op).live
    ensures Step(c, op).live[p] == c.live[p] && Payload(Step(c, op), p) == Payload(c, p)
  {
    hide Sound, Payload, InDomain, Step;
    StepRefines(c, op);
    var d := Step(c, op);
    assert p in View(c) && View(c)[p] == Payload(c, p);
    assert p in View(d) && View(d)[p] == View(c)[p];
    assert |Payload(d, p)| == |Payload(c, p)|;
  }

  /** A payload nobody frees or stores into is the same at the end of the run. */
  lemma {:induction false} UntouchedPayloadSurvives(c: Client, ops: seq<Op>, p: nat)
    requires Sound(c) && RunInDomain(c, ops) && p in c.live
    requires forall k | 0 <= k < |ops| :: !(ops[k].Free? && ops[k].p == p)
    requires forall k | 0 <= k < |ops| && ops[k].Store? :: !(p <= ops[k].a < p + c.live[p])
    ensures p in Run(c, ops).live && Payload(Run(c, ops), p) == Payload(c, p)
    decreases |ops|
  {
    if ops != [] {
      hide Sound, Payload, InDomain, Step;
      StepKeepsPayload(c, ops[0], p);
      var d := Step(c, ops[0]);
      UntouchedPayloadSurvives(d, ops[1..], p);
    }
  }

  /** From `create_heap` with no live pointer, every run in the domain stays sound. */
  lemma FreshHeapRuns(m: Memory, start: nat, end: nat, max: nat, pages: set<nat>, ops: seq<Op>)
    requires |m| == WORD_LIMIT && start % PAGE == 0 && end % PAGE == 0
    requires DataStart(start) + MIN_SIZE <= end <= max <= WORD_LIMIT - PAGE && max - DataStart(start) < 0x8000_0000
    requires FencedBelow(m, DataStart(start))
    requires forall x | start <= x < end && x % PAGE == 0 :: x in pages
    ensures var c := Client(Create(m, start, end, max, pages), map[]);
      Sound(c) && (RunInDomain(c, ops) ==> Sound(Run(c, ops)) && Wf(Run(c, ops).h))
  {
    hide PutHeader, Run, RunInDomain, Wf;
    CreateIsWf(m, start, end, max, pages);
    var c := Client(Create(m, start, end, max, pages), map[]);
    if RunInDomain(c, ops) {
      RunRefines(c, ops);
    }
  }
}
