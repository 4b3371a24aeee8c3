/** Two-level page tables, the placement allocator, and the start-up of paging in paging.c. */
module Paging {
  import opened Machine
  import opened Frames

  const TABLES := 1024
  const SLOTS := 1024
  const PAGES := 0x10_0000
  const KHEAP_START := 0xC000_0000
  const KHEAP_INITIAL_SIZE := 0x10_0000
  const HEAP_PAGE := 0xC_0000
  const HEAP_PAGES := 256
  const DIRECTORY_SIZE := 8196
  const MEM_END := 0x100_0000

  /** How many of the bitmap's 128 words are zeroed. */
  const ZEROED := 32

  // ---------- the placement allocator ----------

  /** Where `kmalloc_int` puts `sz` bytes before there is a heap. Aligning moves even an aligned
      address up a page. */
  function Place(p: nat, align: bool): (at: nat)
    ensures !align ==> at == p
    ensures align && PAGE <= p ==> at % PAGE == 0 && p < at <= p + PAGE
  {
    if align && p / PAGE != 0 then p / PAGE * PAGE + PAGE else p
  }

  /** A page-aligned table raises the placement address by more than a page and at most two. */
  lemma TableGrowth(p: nat)
    requires p >= PAGE
    ensures Place(p, true) % PAGE == 0 && p < Place(p, true) <= p + PAGE
    ensures p + PAGE < Place(p, true) + PAGE <= p + 2 * PAGE
  {
  }

  class Placement {
    var address: u32

    /** `kmalloc_int` while there is no heap; the physical address is the address itself. */
    method Kmalloc(sz: nat, align: bool) returns (at: u32)
      requires Place(address, align) + sz < WORD_LIMIT
      modifies this
      ensures at == Place(old(address), align) && address == at + sz
    {
      if align && address / PAGE != 0 {
        address := address / PAGE * PAGE;
        address := address + PAGE;
      }
      at := address;
      address := address + sz;
    }
  }

  // ---------- directories ----------

  /** The low three bits set: present, writeable, user. */
  function Or7(x: nat): (r: nat)
    ensures r % 8 == 7 && r / 8 == x / 8
    ensures x % PAGE == 0 ==> r / PAGE == x / PAGE && r % PAGE == 7
  {
    x - x % 8 + 7
  }

  // ---------- the map that a directory stands for ----------

  datatype Option<+T> = None | Some(value: T)

  /** The entries of each table, or None where there is no table. */
  type Contents = seq<Option<seq<Entry>>>

  ghost predicate Shaped(c: Contents) {
    |c| == TABLES && forall t | 0 <= t < TABLES && c[t].Some? :: |c[t].value| == SLOTS
  }

  /** All the page entries, by 20-bit page number: ten bits pick the table, ten the slot. */
  ghost function ViewOf(c: Contents): map<nat, Entry>
    requires Shaped(c)
  {
    map p | 0 <= p < PAGES && c[p / SLOTS].Some? :: c[p / SLOTS].value[p % SLOTS]
  }

  /** The pages of the table that covers `page`, all empty, if `made`. */
  ghost function ZeroEntries(made: bool, page: nat): map<nat, Entry> {
    map p | 0 <= p < PAGES && made && p / SLOTS == page / SLOTS :: NoEntries()[p % SLOTS]
  }

  function NoEntries(): (s: seq<Entry>)
    ensures |s| == SLOTS && forall k | 0 <= k < SLOTS :: s[k] == NO_ENTRY
  {
    seq(SLOTS, _ => NO_ENTRY)
  }

  /** A new table adds its pages, empty, and changes no entry that was there. */
  lemma MakingATable(c: Contents, page: nat)
    requires Shaped(c) && page < PAGES && c[page / SLOTS].None?
    ensures var d := c[page / SLOTS := Some(NoEntries())];
      Shaped(d) && ViewOf(d) == ViewOf(c) + ZeroEntries(true, page)
      && ViewOf(d).Keys - ViewOf(c).Keys == ZeroEntries(true, page).Keys
  {
    var d := c[page / SLOTS := Some(NoEntries())];
    forall p | 0 <= p < PAGES && p / SLOTS == page / SLOTS
      ensures p in ViewOf(d) && p !in ViewOf(c) && ViewOf(d)[p] == NO_ENTRY
    {
    }
  }

  /** Distinct page numbers have distinct places: writing one page's entry changes the map at that page
      and nowhere else. */
  lemma WritingAnEntry(c: Contents, page: nat, e: Entry)
    requires Shaped(c) && page < PAGES && c[page / SLOTS].Some?
    ensures var d := c[page / SLOTS := Some(c[page / SLOTS].value[page % SLOTS := e])];
      page in ViewOf(c) && Shaped(d) && ViewOf(d) == ViewOf(c)[page := e]
  {
    var d := c[page / SLOTS := Some(c[page / SLOTS].value[page % SLOTS := e])];
    assert ViewOf(d).Keys == ViewOf(c).Keys;
    forall p | p in ViewOf(c) ensures ViewOf(d)[p] == if p == page then e else ViewOf(c)[p] {
      assert p == p / SLOTS * SLOTS + p % SLOTS && page == page / SLOTS * SLOTS + page % SLOTS;
    }
  }

  ghost function TableSet(ts: seq<PageTable?>): set<PageTable> {
    set t | 0 <= t < |ts| && ts[t] != null :: ts[t]
  }

  lemma TablesAdded(ts: seq<PageTable?>, k: nat, t: PageTable)
    requires k < |ts| && ts[k] == null
    ensures TableSet(ts[k := t]) == TableSet(ts) + {t}
  {
    var us := ts[k := t];
    forall x | x in TableSet(ts) + {t} ensures x in TableSet(us) {
      if x in TableSet(ts) {
        var j :| 0 <= j < |ts| && ts[j] != null && ts[j] == x;
        assert us[j] == x;
      } else {
        assert us[k] == x;
      }
    }
  }

  /** `page_directory_t`. */
  class Directory {
    var tables: seq<PageTable?>
    var tablesPhysical: seq<nat>
    var physicalAddr: u32

    ghost predicate Valid()
      reads this, Repr()
    {
      && |tables| == TABLES && |tablesPhysical| == TABLES
      && (forall t | 0 <= t < TABLES && tables[t] != null :: |tables[t].pages| == SLOTS)
      && (forall s, t | 0 <= s < t < TABLES && tables[s] != null :: tables[s] != tables[t])
    }

    /** The processor's entry for a table is present, writeable and the user's exactly if there is one. */
    ghost predicate EntriesMatch()
      reads this
    {
      && |tables| == TABLES && |tablesPhysical| == TABLES
      && forall t | 0 <= t < TABLES :: if tables[t] == null then tablesPhysical[t] == 0 else tablesPhysical[t] % 8 == 7
    }

    /** The objects that hold the entries. */
    ghost function Repr(): set<PageTable>
      reads this
    {
      TableSet(tables)
    }

    ghost function Contents(): (c: Contents)
      requires Valid()
      reads this, Repr()
      ensures Shaped(c)
    {
      seq(TABLES, t requires 0 <= t < TABLES && Valid() reads this, Repr() =>
        if tables[t] == null then None else Some(tables[t].pages))
    }

    ghost function View(): map<nat, Entry>
      requires Valid()
      reads this, Repr()
    {
      ViewOf(Contents())
    }

    /** A blank directory at physical address `phys`; the processor is given that of the physical entries. */
    constructor (phys: u32)
      ensures Valid() && View() == map[] && Repr() == {} && forall t | 0 <= t < TABLES :: tablesPhysical[t] == 0
      ensures physicalAddr == (phys + 4 * TABLES) % WORD_LIMIT && EntriesMatch()
      ensures forall t | 0 <= t < TABLES :: tables[t] == null
    {
      tables := seq(TABLES, _ => null);
      tablesPhysical := seq(TABLES, _ => 0);
      physicalAddr := (phys + 4 * TABLES) % WORD_LIMIT;
    }

    /** `get_page`: the entry of an address as a table and a slot; a null table stands for a null result. */
    method GetPage(address: u32, make: bool, placement: Placement) returns (table: PageTable?, slot: nat)
      requires Valid() && Place(placement.address, true) + PAGE < WORD_LIMIT
      modifies this, placement
      ensures Valid() && slot == address / PAGE % SLOTS && table == tables[address / PAGE / SLOTS]
      ensures table == tables[address / 0x40_0000] && slot == address % 0x40_0000 / 0x1000
      ensures old(EntriesMatch()) ==> EntriesMatch()
      ensures table == null <==> old(tables[address / PAGE / SLOTS]) == null && !make
      ensures var t := address / PAGE / SLOTS; var made := old(tables[t]) == null && make;
        && Contents() == (if made then old(Contents())[t := Some(NoEntries())] else old(Contents()))
        && View() == old(View()) + ZeroEntries(made, address / PAGE)
        && (made ==> fresh(table) && tables == old(tables)[t := table] && Repr() == old(Repr()) + {table})
        && (!made ==> tables == old(tables)) && physicalAddr == old(physicalAddr)
        && tablesPhysical == PhysicalAfter(made, old(tablesPhysical), t, Place(old(placement.address), true))
        && placement.address == (if made then Place(old(placement.address), true) + PAGE else old(placement.address))
    {
      var page := address / PAGE;
      var tableIdx := page / SLOTS;
      slot := page % SLOTS;
      TenAndTenBits(address);
      ghost var c := Contents();
      if tables[tableIdx] != null {
        table := tables[tableIdx];
      } else if make {
        var tmp := placement.Kmalloc(PAGE, true);
        var made := new PageTable();
        tables := tables[tableIdx := made];
        tablesPhysical := tablesPhysical[tableIdx := Or7(tmp)];
        table := made;
        assert made.pages == NoEntries();
        assert Contents() == c[tableIdx := Some(NoEntries())];
        TablesAdded(old(tables), tableIdx, made);
        MakingATable(c, page);
      } else {
        table := null;
      }
    }

    /** `get_page` with `make`, where the pointers of the directory lie over the bitmap from its bit number
        `z` on: the pointer to a new table is stored there, too. */
    method GetPageOver(address: u32, frames: FrameMap, z: nat, placement: Placement)
      returns (table: PageTable, slot: nat)
      requires Valid() && Place(placement.address, true) + PAGE < WORD_LIMIT && frames.Count() <= MAX_FRAMES
      modifies this, placement, frames.frames
      ensures Valid() && slot == address / PAGE % SLOTS && table == tables[address / PAGE / SLOTS]
      ensures old(EntriesMatch()) ==> EntriesMatch()
      ensures var t := address / PAGE / SLOTS; var made := old(tables[t]) == null;
        && Contents() == (if made then old(Contents())[t := Some(NoEntries())] else old(Contents()))
        && View() == old(View()) + ZeroEntries(made, address / PAGE)
        && (made ==> fresh(table) && tables == old(tables)[t := table] && Repr() == old(Repr()) + {table})
        && (!made ==> tables == old(tables)) && physicalAddr == old(physicalAddr)
        && tablesPhysical == PhysicalAfter(made, old(tablesPhysical), t, Place(old(placement.address), true))
        && frames.InUse() == Marked(made, old(frames.InUse()), z, t, Place(old(placement.address), true),
          frames.Count())
        && placement.address == (if made then Place(old(placement.address), true) + PAGE else old(placement.address))
    {
      var t := address / PAGE / SLOTS;
      var absent := tables[t] == null;
      var found;
      found, slot := GetPage(address, true, placement);
      table := found;
      if absent {
        frames.Store(z + 32 * t, placement.address - PAGE);
      }
    }

    /** `alloc_frame(get_page(address, 1, dir), 0, 0)`: only the entry of that page changes, after its
        table, if it was absent, has come up with empty entries. `damaged` says that the frame handed out
        has its bit in the directory's memory, so that a pointer there is no longer what it was. */
    method AllocPage(address: u32, frames: FrameMap, z: nat, placement: Placement) returns (damaged: bool)
      requires Valid() && Place(placement.address, true) + PAGE < WORD_LIMIT && 0 < frames.Count() <= MAX_FRAMES
      modifies this, placement, frames.frames, Repr()
      ensures Valid() && physicalAddr == old(physicalAddr) && (old(EntriesMatch()) ==> EntriesMatch())
      ensures tablesPhysical == PhysicalAfter(old(tables[address / PAGE / SLOTS]) == null, old(tablesPhysical),
                                              address / PAGE / SLOTS, Place(old(placement.address), true))
      ensures var k := address / PAGE; var t := k / SLOTS; var made := old(tables[t]) == null;
        var v := old(View()) + ZeroEntries(made, k);
        var used := Marked(made, old(frames.InUse()), z, t, Place(old(placement.address), true), frames.Count());
        && k in v && View() == v[k := Allocated(v[k], used, frames.Count(), false, false)]
        && frames.InUse() == UsedAfterAlloc(v[k].frame, used, frames.Count())
        && (damaged <==> v[k].frame == 0 && z <= FirstFree(used, 0, frames.Count()))
        && placement.address == (if made then Place(old(placement.address), true) + PAGE else old(placement.address))
        && tables[t] != null && tables == old(tables)[t := tables[t]]
        && (made ==> fresh(tables[t]) && Repr() == old(Repr()) + {tables[t]}) && (!made ==> tables == old(tables))
    {
      hide Marked, ZeroEntries, Stored, PhysicalAfter;
      var table, slot := GetPageOver(address, frames, z, placement);
      ghost var c, k := Contents(), address / PAGE;
      assert old(tables[k / SLOTS]) != null ==> table in old(Repr());
      var none := table.pages[slot].frame == 0;
      frames.AllocFrame(table, slot, false, false);
      ghost var e := table.pages[slot];
      damaged := none && z <= table.pages[slot].frame;
      assert Contents() == c[k / SLOTS := Some(c[k / SLOTS].value[slot := e])];
      WritingAnEntry(c, k, e);
    }
  }

  /** The physical entries once a table at `addr`, if it was made, has its own. */
  function PhysicalAfter(made: bool, phys: seq<nat>, t: nat, addr: nat): seq<nat> {
    if made && t < |phys| then phys[t := Or7(addr)] else phys
  }

  /** The pointers of two tables lie four bytes apart for each slot between them, so that storing one leaves
      the other's bits as they were written. */
  lemma PointersKeepApart(used: set<nat>, z: nat, s: nat, t: nat, a: nat, b: nat, n: nat, c: nat)
    requires s != t && c < 32 && z + 32 * s + c < n
    ensures z + 32 * s + c in Marked(true, Marked(true, used, z, s, a, n), z, t, b, n) <==> Odd(a, c)
  {
    hide Odd;
  }

  /** An address is ten bits that pick the table, ten that pick the slot, and twelve inside the page. */
  lemma TenAndTenBits(address: u32)
    ensures address / PAGE / SLOTS == address / 0x40_0000 && address / PAGE % SLOTS == address % 0x40_0000 / 0x1000
  {
  }

  /** The frames marked once the pointer to the table at `addr`, if it was made, is stored. */
  function Marked(made: bool, used: set<nat>, z: nat, t: nat, addr: nat, n: nat): set<nat> {
    if made then Stored(used, z + 32 * t, addr, n) else used
  }

  // ---------- which frames are handed out ----------

  /** The frames in use after `k` have been handed out, starting from those in `g`. */
  function UsedAfter(g: set<nat>, k: nat, n: nat): set<nat> {
    if k == 0 then g else UsedAfter(g, k - 1, n) + {FirstFree(UsedAfter(g, k - 1, n), 0, n)}
  }

  /** The frame handed out after `k` others, or 0 when there is none left. */
  function Handed(g: set<nat>, k: nat, n: nat): nat {
    FirstFree(UsedAfter(g, k, n), 0, n)
  }

  lemma {:induction false} UsedGrows(g: set<nat>, k: nat, n: nat)
    ensures g <= UsedAfter(g, k, n)
  {
    if k > 0 {
      UsedGrows(g, k - 1, n);
    }
  }

  lemma {:induction false} InOrder(g: set<nat>, m: nat, n: nat, k: nat)
    requires k <= m <= n && forall f | f in g :: m <= f
    ensures forall f: nat | f < m :: f in UsedAfter(g, k, n) <==> f < k
    ensures k < m ==> Handed(g, k, n) == k
  {
    if k > 0 {
      InOrder(g, m, n, k - 1);
    }
    if k < m {
      FirstFreeSkips(UsedAfter(g, k, n), 0, k, n);
    }
  }

  /** The first `m` frames are handed out in order exactly when there are as many and none of them was
      marked before. */
  lemma HandedInOrderIff(g: set<nat>, m: nat, n: nat)
    requires m > 1
    ensures (forall j | 0 <= j < m :: Handed(g, j, n) == j) <==> m <= n && forall f | f in g :: m <= f
  {
    if m <= n && forall f | f in g :: m <= f {
      forall j | 0 <= j < m ensures Handed(g, j, n) == j {
        InOrder(g, m, n, j);
      }
    }
    if forall j | 0 <= j < m :: Handed(g, j, n) == j {
      assert Handed(g, 1, n) == 1 && Handed(g, m - 1, n) == m - 1;
      forall f | f in g ensures m <= f {
        UsedGrows(g, f, n);
        assert f < m ==> Handed(g, f, n) == f;
      }
    }
  }

  /** The frames below `n` that are not in use. */
  function FreeOnes(used: set<nat>, n: nat): set<nat> {
    Below(n) - used
  }

  lemma HandingOutOne(u: set<nat>, n: nat)
    requires n > 0
    ensures var f := FirstFree(u, 0, n);
      && |FreeOnes(u + {f}, n)| == (if |FreeOnes(u, n)| == 0 then 0 else |FreeOnes(u, n)| - 1)
      && 0 in u + {f}
  {
    hide Below;
    var f := FirstFree(u, 0, n);
    if FreeOnes(u, n) == {} {
      assert forall x | 0 <= x < n :: x in u || x in FreeOnes(u, n);
      assert FreeOnes(u + {f}, n) == {};
    } else {
      var x :| x in FreeOnes(u, n);
      assert f in FreeOnes(u, n);
      assert FreeOnes(u + {f}, n) == FreeOnes(u, n) - {f};
    }
  }

  lemma {:induction false} HandingOutUsesOne(g: set<nat>, k: nat, n: nat)
    requires n > 0
    ensures |FreeOnes(UsedAfter(g, k, n), n)| == if k <= |FreeOnes(g, n)| then |FreeOnes(g, n)| - k else 0
    ensures k > 0 ==> 0 in UsedAfter(g, k, n)
  {
    hide FreeOnes, FirstFree, UsedAfter;
    UsedStep(g, k, n);
    if k > 0 {
      HandingOutUsesOne(g, k - 1, n);
      HandingOutOne(UsedAfter(g, k - 1, n), n);
    }
  }

  lemma UsedStep(g: set<nat>, k: nat, n: nat)
    ensures UsedAfter(g, k, n) ==
      if k == 0 then g else UsedAfter(g, k - 1, n) + {FirstFree(UsedAfter(g, k - 1, n), 0, n)}
  {
  }

  /** A frame is handed out exactly as long as frames were left at the start. */
  lemma HandedIff(g: set<nat>, k: nat, n: nat)
    requires n > 0 && k > 0
    ensures Handed(g, k, n) != 0 <==> k < |FreeOnes(g, n)|
  {
    HandingOutUsesOne(g, k, n);
    var u := UsedAfter(g, k, n);
    if FreeOnes(u, n) == {} {
      assert forall f | 0 <= f < n :: f in u || f in FreeOnes(u, n);
    } else {
      var f :| f in FreeOnes(u, n);
    }
  }

  /** The entry of a page that got the `k`-th frame. */
  function Mapped(g: set<nat>, k: nat): Entry {
    Entry(true, false, true, Handed(g, k, MEM_END / PAGE))
  }

  // ---------- the bound that moves ----------

  /** The number of tables that `k` pages fill. */
  function Tables(k: nat): nat {
    (k + SLOTS - 1) / SLOTS
  }

  /** Where the identity-mapping loop stops: `a` pages are taken before it, and each table that it makes
      takes two more. */
  function Settle(a: nat, k: nat): (r: nat)
    ensures r >= k && r >= a + 2 * Tables(r) + 1 && forall j | k <= j < r :: j < a + 2 * Tables(j) + 1
    decreases 2 * a + 10 - k
  {
    if k >= a + 2 * Tables(k) + 1 then k else Settle(a, k + 1)
  }

  /** The pages taken before the loop, when the placement address starts at `p`: up to the end of the
      bitmap's page, three for the directory, two for the table of the heap. */
  function TakenBefore(p: nat): nat {
    (p + MEM_END / PAGE / 32) / PAGE + 5
  }

  /** The number of low pages that `initialize_paging` maps. */
  function PagesFor(p: nat): nat {
    Settle(TakenBefore(p), 0)
  }

  /** The loop settles with its bound met exactly. */
  lemma SettlesExactly(a: nat)
    ensures Settle(a, 0) == a + 2 * Tables(Settle(a, 0)) + 1
  {
    var k := Settle(a, 0);
    assert Tables(k - 1) <= Tables(k) && k - 1 < a + 2 * Tables(k - 1) + 1;
  }

  /** Low pages and heap pages fit into the frames there are exactly below this address. */
  lemma FitsIff(p: nat)
    ensures PagesFor(p) + HEAP_PAGES <= MEM_END / PAGE <==> p + 128 < 0xEF_3000
    ensures PagesFor(p) + HEAP_PAGES <= MEM_END / PAGE / 4 <==> p + 128 < 0x2F_9000
  {
    SettlesExactly(TakenBefore(p));
  }

  // ---------- initialize_paging ----------

  /** Entries exist and are empty for the pages of the heap, and every entry from page `k` on is empty. */
  ghost predicate EmptyFrom(v: map<nat, Entry>, k: nat) {
    (forall q | HEAP_PAGE <= q < HEAP_PAGE + HEAP_PAGES :: q in v) && forall q | q in v && k <= q :: v[q] == NO_ENTRY
  }

  /** The tables there are: the heap's, and those of the first `n` times 1024 pages. */
  ghost predicate TablesUpTo(dir: Directory, n: nat)
    reads dir
  {
    |dir.tables| == TABLES && forall t | 0 <= t < TABLES :: dir.tables[t] != null <==> t < n || t == HEAP_PAGE / SLOTS
  }

  /** The physical entries there are then: a table's lies two pages above the one before, the first right
      behind the page `a`, and the heap's in the page before that. */
  ghost predicate PhysicalUpTo(phys: seq<nat>, a: nat, n: nat) {
    && |phys| == TABLES
    && forall t | 0 <= t < TABLES :: phys[t] ==
         if t < n then (a + 2 * t + 1) * PAGE + 7 else if t == HEAP_PAGE / SLOTS then (a - 1) * PAGE + 7 else 0
  }

  method MakeHeapTables(dir: Directory, placement: Placement)
    requires dir.Valid() && dir.View() == map[] && dir.Repr() == {} && forall t | 0 <= t < TABLES ::
      dir.tables[t] == null
    requires PAGE <= placement.address && placement.address + 4 * PAGE <= KHEAP_START && dir.EntriesMatch()
    modifies dir, placement
    ensures dir.Valid() && fresh(dir.Repr()) && EmptyFrom(dir.View(), 0) && TablesUpTo(dir, 0) && dir.EntriesMatch()
    ensures PhysicalUpTo(dir.tablesPhysical, placement.address / PAGE, 0)
    ensures placement.address == Place(old(placement.address), true) + PAGE && dir.physicalAddr == old(dir.physicalAddr)
  {
    var i := KHEAP_START;
    while i < KHEAP_START + KHEAP_INITIAL_SIZE
      invariant i % PAGE == 0 && KHEAP_START <= i && dir.Valid() && fresh(dir.Repr())
      invariant dir.physicalAddr == old(dir.physicalAddr)
      invariant forall q | q in dir.View() :: dir.View()[q] == NO_ENTRY
      invariant i == KHEAP_START ==> placement.address == old(placement.address) && dir.tables == old(dir.tables)
      invariant i == KHEAP_START ==> dir.tablesPhysical == old(dir.tablesPhysical)
      invariant i > KHEAP_START ==> PhysicalUpTo(dir.tablesPhysical, placement.address / PAGE, 0)
      invariant dir.EntriesMatch()
      invariant i > KHEAP_START ==> forall q | HEAP_PAGE <= q < HEAP_PAGE + HEAP_PAGES :: q in dir.View()
      invariant i > KHEAP_START ==> placement.address == Place(old(placement.address), true) + PAGE
      invariant i > KHEAP_START ==> TablesUpTo(dir, 0)
    {
      assert i / PAGE / SLOTS == HEAP_PAGE / SLOTS;
      var table, slot := dir.GetPage(i, true, placement);
      i := i + PAGE;
    }
  }

  // ---------- a bitmap that shares memory with the directory ----------

  /** The bitmap's bit number at which the directory starts, when the placement address starts at `p`: no
      bit of the bitmap if it ends before. */
  function DirectoryBit(p: nat): (z: nat)
    ensures z >= 8 * (MEM_END / PAGE / 32)
  {
    8 * (Place(p + MEM_END / PAGE / 32, true) - p)
  }

  /** Below bit `z` the bitmap marks the frames handed out, starting from `g`, and no frame was handed out
      whose bit lies further on; the first bit of the directory is clear. */
  ghost predicate Tracks(used: set<nat>, g: set<nat>, k: nat, z: nat) {
    var n := MEM_END / PAGE;
    && (forall f: nat | f < z && f < n :: f in used <==> f in UsedAfter(g, k, n))
    && (z < n ==> z !in used && forall f | f in UsedAfter(g, k, n) :: f < z)
  }

  /** None of the first `m` frames handed out has its bit in the directory. */
  ghost predicate Undamaged(g: set<nat>, m: nat, z: nat) {
    MEM_END / PAGE <= z || forall j | 0 <= j < m :: Handed(g, j, MEM_END / PAGE) < z
  }

  lemma TracksHands(used: set<nat>, g: set<nat>, k: nat, z: nat)
    requires Tracks(used, g, k, z)
    ensures FirstFree(used, 0, MEM_END / PAGE) == Handed(g, k, MEM_END / PAGE)
  {
    var n := MEM_END / PAGE;
    SameFirst(used, UsedAfter(g, k, n), 0, if z < n then z else n, n);
  }

  lemma TracksOneMore(used: set<nat>, g: set<nat>, k: nat, z: nat)
    requires Tracks(used, g, k, z) && (MEM_END / PAGE <= z || Handed(g, k, MEM_END / PAGE) < z)
    ensures Tracks(used + {FirstFree(used, 0, MEM_END / PAGE)}, g, k + 1, z)
  {
    hide FirstFree;
    TracksHands(used, g, k, z);
    UsedStep(g, k + 1, MEM_END / PAGE);
  }

  /** A pointer to a page-aligned table has its lowest bit clear, so storing it hides nothing. */
  lemma TracksStore(made: bool, used: set<nat>, g: set<nat>, k: nat, z: nat, t: nat, addr: nat)
    requires Tracks(used, g, k, z) && addr % PAGE == 0
    ensures Tracks(Marked(made, used, z, t, addr, MEM_END / PAGE), g, k, z)
  {
    hide UsedAfter;
    assert addr % 2 == 0;
    assert Odd(addr, 0) == false;
  }

  lemma {:induction false} UsedIsBelow(g: set<nat>, k: nat, z: nat)
    requires (forall f | f in g :: f < z) && Undamaged(g, k, z) && z < MEM_END / PAGE
    ensures forall f | f in UsedAfter(g, k, MEM_END / PAGE) :: f < z
  {
    if k > 0 {
      UsedIsBelow(g, k - 1, z);
      assert Handed(g, k - 1, MEM_END / PAGE) < z;
    }
  }

  /** As long as frames below `m` are left, those behind it are not asked for. */
  lemma {:induction false} SameBelow(g: set<nat>, k: nat, m: nat, n: nat)
    requires 0 < m <= n && k <= |FreeOnes(g, m)|
    ensures UsedAfter(g, k, n) == UsedAfter(g, k, m)
    ensures k < |FreeOnes(g, m)| ==> Handed(g, k, n) == Handed(g, k, m) < m
  {
    hide FreeOnes, FirstFree, UsedAfter;
    UsedStep(g, k, m);
    UsedStep(g, k, n);
    if k > 0 {
      SameBelow(g, k - 1, m, n);
    }
    if k < |FreeOnes(g, m)| {
      HandingOutUsesOne(g, k, m);
      SomeFreeBelow(UsedAfter(g, k, m), m, n);
    }
  }

  lemma SomeFreeBelow(u: set<nat>, m: nat, n: nat)
    requires m <= n && |FreeOnes(u, m)| > 0
    ensures FirstFree(u, 0, n) == FirstFree(u, 0, m) < m
  {
    var x :| x in FreeOnes(u, m);
    var f := FirstFree(u, 0, m);
    FirstFreeSkips(u, 0, f, m);
    FirstFreeSkips(u, 0, f, n);
  }

  /** The directory stays undamaged exactly as long as frames are left whose bits lie before it. */
  lemma UndamagedIff(g: set<nat>, m: nat, z: nat)
    requires 0 < z < MEM_END / PAGE && forall f | f in g :: f < z
    ensures Undamaged(g, m, z) <==> m <= |FreeOnes(g, z)|
  {
    hide Below, FirstFree, UsedAfter;
    var c, n := |FreeOnes(g, z)|, MEM_END / PAGE;
    forall j | 0 <= j < c ensures Handed(g, j, n) < z {
      SameBelow(g, j, z, n);
    }
    UsedIsBelow(g, c, z);
    SameBelow(g, c, z, n);
    HandingOutUsesOne(g, c, z);
    NoneFreeBelow(UsedAfter(g, c, n), z, n);
    assert Handed(g, c, n) == z;
  }

  lemma NoneFreeBelow(u: set<nat>, m: nat, n: nat)
    requires 0 < m < n && |FreeOnes(u, m)| == 0 && forall f | f in u :: f < m
    ensures FirstFree(u, 0, n) == m
  {
    assert forall x | 0 <= x < m :: x in u || x in FreeOnes(u, m);
    FirstFreeSkips(u, 0, m, n);
  }

  // ---------- the loops of initialize_paging ----------

  /** What the identity-mapping loop has done after `k` pages. */
  ghost predicate IdentityUpTo(v: map<nat, Entry>, used: set<nat>, g: set<nat>, k: nat, z: nat) {
    && (forall q | 0 <= q < k :: q in v && v[q] == Mapped(g, q)) && EmptyFrom(v, k)
    && Tracks(used, g, k, z) && Undamaged(g, k, z)
  }

  /** One round: the frame handed out is the k-th, and either the directory is damaged by it or the round is
      done as meant. */
  lemma IdentityStep(v: map<nat, Entry>, was: set<nat>, g: set<nat>, k: nat, z: nat, made: bool, addr: nat)
    requires IdentityUpTo(v, was, g, k, z) && k < PAGES && addr % PAGE == 0
    requires made ==> forall q | q in ZeroEntries(made, k) :: q !in v
    requires k in v + ZeroEntries(made, k)
    ensures var w, n := v + ZeroEntries(made, k), MEM_END / PAGE;
      var used := Marked(made, was, z, k / SLOTS, addr, n);
      && w[k] == NO_ENTRY && FirstFree(used, 0, n) == Handed(g, k, n)
      && (n <= z || Handed(g, k, n) < z ==>
            IdentityUpTo(w[k := Allocated(w[k], used, n, false, false)],
                         UsedAfterAlloc(w[k].frame, used, n), g, k + 1, z))
  {
    hide FirstFree, Handed, Tracks, Marked;
    var w, n := v + ZeroEntries(made, k), MEM_END / PAGE;
    var used := Marked(made, was, z, k / SLOTS, addr, n);
    assert w[k] == NO_ENTRY;
    hide ZeroEntries;
    TracksStore(made, was, g, k, z, k / SLOTS, addr);
    TracksHands(used, g, k, z);
    assert Allocated(w[k], used, n, false, false) == Mapped(g, k);
    if n <= z || Handed(g, k, n) < z {
      TracksOneMore(used, g, k, z);
    }
  }

  lemma AbsentTableHasNoPages(dir: Directory, page: nat)
    requires dir.Valid() && page < PAGES && dir.tables[page / SLOTS] == null
    ensures forall q | q in ZeroEntries(true, page) :: q !in dir.View()
  {
  }

  lemma NothingMappedYet(v: map<nat, Entry>, g: set<nat>, z: nat)
    requires EmptyFrom(v, 0) && forall f | f in g :: f < z
    ensures IdentityUpTo(v, g, g, 0, z)
  {
  }

  /** One page more may need one table more. */
  lemma OneMoreTable(k: nat)
    ensures Tables(k + 1) == Tables(k) + if k % SLOTS == 0 then 1 else 0
    ensures k / SLOTS < Tables(k) <==> k % SLOTS != 0
    ensures k % SLOTS == 0 ==> k / SLOTS == Tables(k)
  {
  }

  /** The identity-mapping loop. Its body raises its own bound by making tables, and yet it ends, with just
      the number of pages that PagesFor gives; page k gets the k-th frame, unless the directory is damaged
      on the way, where this method stops. */
  method IdentityMap(dir: Directory, frames: FrameMap, z: nat, placement: Placement, ghost a: nat)
    returns (k: nat, damaged: bool)
    requires dir.Valid() && EmptyFrom(dir.View(), 0) && TablesUpTo(dir, 0)
    requires dir.EntriesMatch() && PhysicalUpTo(dir.tablesPhysical, a, 0)
    requires 0 < z && forall f | f in frames.InUse() :: f < z
    requires 0 < a && placement.address == a * PAGE && a + 0x800 <= HEAP_PAGE && frames.Count() == MEM_END / PAGE
    modifies dir, frames.frames, placement, dir.Repr()
    ensures dir.Valid() && fresh(dir.Repr() - old(dir.Repr())) && dir.physicalAddr == old(dir.physicalAddr)
    ensures dir.EntriesMatch() && (!damaged ==> PhysicalUpTo(dir.tablesPhysical, a, Tables(k)))
    ensures damaged ==> !Undamaged(old(frames.InUse()), Settle(a, 0), z)
    ensures !damaged ==> IdentityUpTo(dir.View(), frames.InUse(), old(frames.InUse()), k, z)
    ensures !damaged ==> k == Settle(a, 0) && k + 4 <= HEAP_PAGE && placement.address + PAGE == k * PAGE
  {
    hide IdentityUpTo, ViewOf, Used, Allocated, UsedAfterAlloc, Tables, Settle, EmptyFrom, Handed, Marked, PhysicalUpTo,
      PhysicalAfter;
    ghost var g := frames.InUse();
    NothingMappedYet(dir.View(), g, z);
    NoTablesYet(a);
    var i := 0;
    k, damaged := 0, false;
    while i < placement.address + 0x1000
      invariant i == k * PAGE && k + 4 <= HEAP_PAGE && Settle(a, k) == Settle(a, 0)
      invariant dir.Valid() && fresh(dir.Repr() - old(dir.Repr())) && dir.physicalAddr == old(dir.physicalAddr)
      invariant placement.address == (a + 2 * Tables(k)) * PAGE && TablesUpTo(dir, Tables(k))
      invariant dir.EntriesMatch() && PhysicalUpTo(dir.tablesPhysical, a, Tables(k))
      invariant IdentityUpTo(dir.View(), frames.InUse(), g, k, z)
      decreases Settle(a, 0) - k
    {
      ghost var v, used, addr := dir.View(), frames.InUse(), Place(placement.address, true);
      ghost var made := dir.tables[k / SLOTS] == null;
      OneMoreTable(k);
      StaysLow(a, k);
      PhysicalStep(dir.tablesPhysical, a, k);
      assert i / PAGE == k && made == (k % SLOTS == 0);
      if made {
        AbsentTableHasNoPages(dir, k);
      }
      damaged := dir.AllocPage(i, frames, z, placement);
      IdentityStep(v, used, g, k, z, made, addr);
      if damaged {
        DamageDone(g, k, Settle(a, 0), z);
        return;
      }
      i := i + 0x1000;
      k := k + 1;
    }
    SettledAt(a, k);
  }

  /** A frame handed out from `z` on is damage to a directory that starts there. */
  lemma DamageDone(g: set<nat>, k: nat, m: nat, z: nat)
    requires z <= Handed(g, k, MEM_END / PAGE) && 0 < z && k < m
    ensures !Undamaged(g, m, z)
  {
  }

  lemma NoTablesYet(a: nat)
    ensures Tables(0) == 0
  {
  }

  /** Inside the loop the bound stays below the heap. */
  lemma StaysLow(a: nat, k: nat)
    requires k < HEAP_PAGE && k < a + 2 * Tables(k) + 1 && 0 < a && a + 0x800 <= HEAP_PAGE
    ensures Tables(k) <= HEAP_PAGE / SLOTS && k + 5 <= HEAP_PAGE && k / SLOTS < HEAP_PAGE / SLOTS
    ensures Settle(a, k + 1) == Settle(a, k) && k < Settle(a, k)
    ensures Place((a + 2 * Tables(k)) * PAGE, true) == (a + 2 * Tables(k) + 1) * PAGE
  {
    NextTablePlace(a + 2 * Tables(k));
  }

  lemma NextTablePlace(b: nat)
    requires 0 < b
    ensures Place(b * PAGE, true) == (b + 1) * PAGE
  {
  }

  lemma PhysicalStep(phys: seq<nat>, a: nat, k: nat)
    requires PhysicalUpTo(phys, a, Tables(k)) && k / SLOTS < HEAP_PAGE / SLOTS
    ensures var after := PhysicalAfter(k % SLOTS == 0, phys, k / SLOTS, (a + 2 * Tables(k) + 1) * PAGE);
      PhysicalUpTo(after, a, Tables(k + 1))
  {
    OneMoreTable(k);
  }

  lemma SettledAt(a: nat, k: nat)
    requires Settle(a, k) == Settle(a, 0) && k >= a + 2 * Tables(k) + 1
    ensures k == Settle(a, 0) == a + 2 * Tables(k) + 1
  {
    SettlesExactly(a);
  }

  /** What the last loop has done after `j` pages of the heap. */
  ghost predicate HeapMapped(v: map<nat, Entry>, g: set<nat>, k: nat, j: nat) {
    && (forall q | 0 <= q < k :: q in v && v[q] == Mapped(g, q))
    && (forall q | HEAP_PAGE <= q < HEAP_PAGE + HEAP_PAGES :: q in v)
    && forall q | q in v && k <= q ::
         v[q] == if HEAP_PAGE <= q < HEAP_PAGE + j then Mapped(g, k + (q - HEAP_PAGE)) else NO_ENTRY
  }

  lemma HeapStep(v: map<nat, Entry>, used: set<nat>, g: set<nat>, k: nat, j: nat, z: nat)
    requires HeapMapped(v, g, k, j) && Tracks(used, g, k + j, z) && Undamaged(g, k + j, z) && k <= HEAP_PAGE
      && j < HEAP_PAGES
    ensures var p, n := HEAP_PAGE + j, MEM_END / PAGE;
      && p in v && v[p] == NO_ENTRY && FirstFree(used, 0, n) == Handed(g, k + j, n)
      && HeapMapped(v[p := Allocated(v[p], used, n, false, false)], g, k, j + 1)
      && (n <= z || Handed(g, k + j, n) < z ==>
            Tracks(UsedAfterAlloc(v[p].frame, used, n), g, k + j + 1, z) && Undamaged(g, k + j + 1, z))
  {
    hide FirstFree, Handed, Tracks;
    TracksHands(used, g, k + j, z);
    if MEM_END / PAGE <= z || Handed(g, k + j, MEM_END / PAGE) < z {
      TracksOneMore(used, g, k + j, z);
    }
  }

  method MapHeapPages(dir: Directory, frames: FrameMap, z: nat, placement: Placement, ghost g: set<nat>, ghost k: nat)
    returns (damaged: bool)
    requires dir.Valid() && placement.address + 4 * PAGE <= KHEAP_START && k <= HEAP_PAGE && z > 0
    requires frames.Count() == MEM_END / PAGE && HeapMapped(dir.View(), g, k, 0)
    requires Tracks(frames.InUse(), g, k, z) && Undamaged(g, k, z)
    modifies dir, frames.frames, placement, dir.Repr()
    ensures dir.Valid() && placement.address == old(placement.address) && dir.physicalAddr == old(dir.physicalAddr)
    ensures old(dir.EntriesMatch()) ==> dir.EntriesMatch()
    ensures !damaged ==> dir.tablesPhysical == old(dir.tablesPhysical)
    ensures damaged ==> !Undamaged(g, k + HEAP_PAGES, z)
    ensures !damaged ==> HeapMapped(dir.View(), g, k, HEAP_PAGES) && Undamaged(g, k + HEAP_PAGES, z)
    ensures !damaged ==> Tracks(frames.InUse(), g, k + HEAP_PAGES, z)
  {
    hide HeapMapped, ViewOf, Used, Allocated, UsedAfterAlloc, Tracks, Handed, Undamaged, Marked, ZeroEntries, FirstFree;
    var i := KHEAP_START;
    ghost var j := 0;
    damaged := false;
    while i < KHEAP_START + KHEAP_INITIAL_SIZE
      invariant i == KHEAP_START + j * PAGE && j <= HEAP_PAGES
      invariant dir.Valid() && dir.Repr() == old(dir.Repr()) && placement.address == old(placement.address)
      invariant HeapMapped(dir.View(), g, k, j) && Tracks(frames.InUse(), g, k + j, z) && Undamaged(g, k + j, z)
      invariant dir.physicalAddr == old(dir.physicalAddr) && dir.tablesPhysical == old(dir.tablesPhysical)
      invariant old(dir.EntriesMatch()) ==> dir.EntriesMatch()
    {
      ghost var v, used := dir.View(), frames.InUse();
      assert i / PAGE == HEAP_PAGE + j;
      HeapStep(v, used, g, k, j, z);
      PresentPageHasTable(dir, HEAP_PAGE + j);
      NothingMade(v, used, z, (HEAP_PAGE + j) / SLOTS, Place(placement.address, true), HEAP_PAGE + j);
      damaged := dir.AllocPage(i, frames, z, placement);
      if damaged {
        DamageDone(g, k + j, k + HEAP_PAGES, z);
        return;
      }
      i := i + PAGE;
      j := j + 1;
    }
  }

  lemma NothingMade(v: map<nat, Entry>, used: set<nat>, z: nat, t: nat, addr: nat, page: nat)
    ensures v + ZeroEntries(false, page) == v && Marked(false, used, z, t, addr, MEM_END / PAGE) == used
  {
    assert ZeroEntries(false, page) == map[];
  }

  lemma PresentPageHasTable(dir: Directory, p: nat)
    requires dir.Valid() && p in dir.View()
    ensures dir.tables[p / SLOTS] != null
  {
  }

  /** The frames that stale words mark once the directory, too, is zeroed. */
  function Stale(p: nat, tail: seq<bv32>): (g: set<nat>)
    requires |tail| == 3 * ZEROED
    ensures forall f :: f in g <==> f in Leftover(ZEROED, tail) && f < DirectoryBit(p)
  {
    Cleared(Leftover(ZEROED, tail), DirectoryBit(p))
  }

  /** `initialize_paging` up to switching the directory on. `tail` is what memory holds in the words of the
      bitmap that are not zeroed. It maps the pages below the final placement address plus a page, unless a
      frame is handed out whose bit lies in the directory: then a pointer in the directory is damaged, and
      what the code does with it is not followed any further. */
  method InitializePaging(placement: Placement, tail: seq<bv32>)
    returns (frames: FrameMap, dir: Directory, damaged: bool)
    requires PAGE <= placement.address && placement.address + 0x80_8000 <= KHEAP_START && |tail| == 3 * ZEROED
    modifies placement
    ensures dir.Valid() && frames.Count() == MEM_END / PAGE
    ensures PagesFor(old(placement.address)) <= HEAP_PAGE
    ensures dir.physicalAddr == Place(old(placement.address) + 128, true) + 4 * TABLES && dir.EntriesMatch()
    ensures !damaged ==>
      PhysicalUpTo(dir.tablesPhysical, TakenBefore(old(placement.address)), Tables(PagesFor(old(placement.address))))
    ensures var p := old(placement.address); var k := PagesFor(p);
      && (damaged <==> !Undamaged(Stale(p, tail), k + HEAP_PAGES, DirectoryBit(p)))
      && (!damaged ==> placement.address + PAGE == k * PAGE && HeapMapped(dir.View(), Stale(p, tail), k, HEAP_PAGES))
      && (!damaged ==> Tracks(frames.InUse(), Stale(p, tail), k + HEAP_PAGES, DirectoryBit(p)))
  {
    hide HeapMapped, IdentityUpTo, ViewOf, Used, Leftover, Settle, Handed, Tracks, Undamaged, Place, TakenBefore,
      DirectoryBit, EmptyFrom, PhysicalUpTo, TablesUpTo, Directory.EntriesMatch, Tables;
    ghost var p := placement.address;
    StartAddresses(p);
    frames := new FrameMap(MEM_END / PAGE, tail);
    var bitmap := placement.Kmalloc(MEM_END / PAGE / 32, false);
    var memory := placement.Kmalloc(DIRECTORY_SIZE, true);
    var z := 8 * (memory - bitmap);
    frames.ClearFrom(z);
    dir := new Directory(memory);
    MakeHeapTables(dir, placement);
    LowPagesStayLow(p);
    var k;
    k, damaged := IdentityMap(dir, frames, z, placement, TakenBefore(p));
    MoreDamaged(Stale(p, tail), PagesFor(p), PagesFor(p) + HEAP_PAGES, z);
    if !damaged {
      IdentityIsHeapMapped(dir.View(), frames.InUse(), Stale(p, tail), k, z);
      damaged := MapHeapPages(dir, frames, z, placement, Stale(p, tail), k);
    }
  }

  /** Where the placement allocator puts things before the identity-mapping loop. */
  lemma StartAddresses(p: nat)
    requires PAGE <= p && p + 0x80_8000 <= KHEAP_START
    ensures var d := Place(p + 128, true);
      && Place(p, false) == p < d <= p + 128 + PAGE && d + DIRECTORY_SIZE + 4 * PAGE <= KHEAP_START
        && DirectoryBit(p) == 8 * (d - p)
      && PAGE <= d + DIRECTORY_SIZE && Place(d + DIRECTORY_SIZE, true) + PAGE == TakenBefore(p) * PAGE
      && 0 < TakenBefore(p) && TakenBefore(p) + 0x800 <= HEAP_PAGE
  {
  }

  lemma MoreDamaged(g: set<nat>, k: nat, m: nat, z: nat)
    requires k <= m
    ensures !Undamaged(g, k, z) ==> !Undamaged(g, m, z)
  {
  }

  lemma LowPagesStayLow(p: nat)
    requires TakenBefore(p) + 0x800 <= HEAP_PAGE
    ensures PagesFor(p) <= HEAP_PAGE
  {
    SettlesExactly(TakenBefore(p));
  }

  lemma IdentityIsHeapMapped(v: map<nat, Entry>, used: set<nat>, g: set<nat>, k: nat, z: nat)
    requires IdentityUpTo(v, used, g, k, z)
    ensures HeapMapped(v, g, k, 0) && Tracks(used, g, k, z) && Undamaged(g, k, z)
  {
  }

  /** The low pages are mapped to themselves, and the heap pages to the frames that follow; all of them are
      present, and the user may read them but not write. */
  ghost predicate MappedAsMeant(v: map<nat, Entry>, k: nat) {
    && (forall q | 0 <= q < k :: q in v && v[q] == Entry(true, false, true, q))
    && forall q | HEAP_PAGE <= q < HEAP_PAGE + HEAP_PAGES ::
         q in v && v[q] == Entry(true, false, true, k + (q - HEAP_PAGE))
  }

  /** How many frames may be asked for: as many as there are, and none whose bit lies in the directory. */
  function Limit(p: nat): nat {
    if DirectoryBit(p) < MEM_END / PAGE then DirectoryBit(p) else MEM_END / PAGE
  }

  /** The directory is undamaged and every mapping is what it is meant to be exactly when the placement
      address starts low enough, no frame is needed whose bit lies in the directory, and no stale word of
      the bitmap marks a frame that is needed. */
  lemma MappingIsSoundIff(p: nat, tail: seq<bv32>, v: map<nat, Entry>, damaged: bool)
    requires |tail| == 3 * ZEROED && PagesFor(p) <= HEAP_PAGE
    requires damaged <==> !Undamaged(Stale(p, tail), PagesFor(p) + HEAP_PAGES, DirectoryBit(p))
    requires !damaged ==> HeapMapped(v, Stale(p, tail), PagesFor(p), HEAP_PAGES)
    ensures !damaged && MappedAsMeant(v, PagesFor(p)) <==>
      && p + 128 < 0xEF_3000 && PagesFor(p) + HEAP_PAGES <= DirectoryBit(p)
      && forall f | f in Leftover(ZEROED, tail) :: PagesFor(p) + HEAP_PAGES <= f
  {
    hide Settle, Handed, DirectoryBit, Leftover;
    var k, g, n := PagesFor(p), Stale(p, tail), MEM_END / PAGE;
    FitsIff(p);
    HandedInOrderIff(g, k + HEAP_PAGES, n);
    if !damaged && MappedAsMeant(v, k) {
      forall j | 0 <= j < k + HEAP_PAGES ensures Handed(g, j, n) == j {
        var q := if j < k then j else HEAP_PAGE + (j - k);
        assert v[q] == Mapped(g, j);
      }
      var last := k + HEAP_PAGES - 1;
      assert Handed(g, last, n) == last;
    }
    if k + HEAP_PAGES <= n && k + HEAP_PAGES <= DirectoryBit(p) && forall f | f in g :: k + HEAP_PAGES <= f {
      forall j | 0 <= j < k + HEAP_PAGES ensures Handed(g, j, n) == j {
        InOrder(g, k + HEAP_PAGES, n, j);
      }
    }
  }

  /** An address low enough at which no stale word marks anything, and yet the directory is damaged: the
      bitmap starts 132 bytes before it. */
  lemma OverlapDamages()
    ensures var p := 0x33_FF7C;
      p + 128 < 0xEF_3000 && PagesFor(p) == 839 && DirectoryBit(p) == 1056
      && !Undamaged({}, PagesFor(p) + HEAP_PAGES, DirectoryBit(p))
  {
    hide Settle, FreeOnes, Handed, Below;
    SettlesExactly(TakenBefore(0x33_FF7C));
    UndamagedIff({}, 839 + HEAP_PAGES, 1056);
    AllFree(1056);
  }

  lemma {:induction false} BelowCounts(n: nat)
    ensures |Below(n)| == n
  {
    if n > 0 {
      BelowCounts(n - 1);
    }
  }

  lemma AllFree(n: nat)
    ensures |FreeOnes({}, n)| == n
  {
    hide Below;
    BelowCounts(n);
    assert Below(n) - {} == Below(n);
  }

  /** In particular, below this address it makes no difference what the stale words hold, and above it some
      contents spoil the mapping. */
  lemma StaleWordsHarmlessIff(p: nat)
    ensures p + 128 < 0x2F_9000 <==>
      forall tail: seq<bv32>, f: nat | |tail| == 3 * ZEROED && f in Leftover(ZEROED, tail) ::
        PagesFor(p) + HEAP_PAGES <= f
  {
    hide Settle;
    FitsIff(p);
    var first := MEM_END / PAGE / 4;
    var tail: seq<bv32> := seq(3 * ZEROED, i => if i == 0 then 1 else 0);
    assert Bit(1, 0);
    assert first in Leftover(ZEROED, tail);
  }

  /** The bitmap is given one byte per 32 frames where it needs four: its tail and the page directory
      placed after it share memory exactly when it starts late enough in a page. */
  lemma BitmapOverlapsDirectoryIff(p: nat)
    requires PAGE <= p
    ensures DirectoryBit(p) < MEM_END / PAGE <==> (p + 128) % PAGE > PAGE - 384
  {
  }
}
