/** `clone_directory`, and the sharing of tables along any chain of clones. */
module Directories {
  import opened Machine
  import opened Frames
  import opened Paging

  // ---------- clones ----------

  /** Table pointers and their physical entries; `nil` below is the null pointer. */
  datatype Dir<T> = Dir(tables: seq<T>, phys: seq<nat>)

  /** The directory `clone_directory` builds when `clone_table` returns the tables `made`, at `at`. */
  function Clone<T(==)>(nil: T, kernel: Dir<T>, src: Dir<T>, made: seq<T>, at: seq<nat>): (d: Dir<T>)
    requires |kernel.tables| == |src.tables| == |src.phys| == |made| == |at|
  {
    var n := |src.tables|;
    Dir(seq(n, i requires 0 <= i < n => CloneTable(nil, kernel, src, made, i)),
        seq(n, i requires 0 <= i < n => ClonePhys(nil, kernel, src, at, i)))
  }

  function CloneTable<T(==)>(nil: T, kernel: Dir<T>, src: Dir<T>, made: seq<T>, i: nat): T
    requires i < |kernel.tables| == |src.tables| == |made|
  {
    if src.tables[i] == nil then nil else if kernel.tables[i] == src.tables[i] then src.tables[i] else made[i]
  }

  function ClonePhys<T(==)>(nil: T, kernel: Dir<T>, src: Dir<T>, at: seq<nat>, i: nat): nat
    requires i < |kernel.tables| == |src.tables| == |src.phys| == |at|
  {
    if src.tables[i] == nil then 0 else if kernel.tables[i] == src.tables[i] then src.phys[i] else Or7(at[i])
  }

  /** The slots whose table `clone_directory` copies: those the source does not share with the kernel. */
  predicate NeedsCopy<T(==)>(nil: T, kernel: Dir<T>, src: Dir<T>, i: nat)
    requires i < |kernel.tables| == |src.tables|
  {
    src.tables[i] != nil && kernel.tables[i] != src.tables[i]
  }

  /** `clone_table` as far as this model goes: a fresh table, whatever it holds. */
  method CopyTable(contents: seq<Entry>) returns (t: PageTable)
    ensures fresh(t) && t.pages == contents
  {
    t := new PageTable();
    t.pages := contents;
  }

  /** `clone_directory`. `phys` is where the new directory lies, `at[i]` is the physical address
      `clone_table` reports for slot i, `contents[i]`
      what it leaves in the new table. */
  method CloneDirectory(src: Directory, kernel: Directory, phys: u32, at: seq<nat>, contents: seq<seq<Entry>>)
    returns (dir: Directory, ghost made: seq<PageTable?>)
    requires src.Valid() && kernel.Valid() && |at| == TABLES && |contents| == TABLES
    ensures |dir.tablesPhysical| == TABLES && (src.EntriesMatch() ==> dir.EntriesMatch())
    ensures forall i | 0 <= i < TABLES ::
      dir.tablesPhysical[i] == if src.tables[i] == null then 0
        else if src.tables[i] == kernel.tables[i] then src.tablesPhysical[i] else at[i] - at[i] % 8 + 7
    ensures fresh(dir) && |made| == TABLES && dir.physicalAddr == (phys + 4 * TABLES) % WORD_LIMIT
    ensures var k, s := Dir(kernel.tables, kernel.tablesPhysical), Dir(src.tables, src.tablesPhysical);
      && Dir(dir.tables, dir.tablesPhysical) == Clone(null, k, s, made, at)
      && (forall i | 0 <= i < TABLES && NeedsCopy(null, k, s, i) :: made[i] != null && fresh(made[i]))
      && (forall i, j | 0 <= i < j < TABLES && NeedsCopy(null, k, s, i) :: made[i] != made[j])
  {
    dir := new Directory(phys);
    made := [];
    ghost var k, s := Dir(kernel.tables, kernel.tablesPhysical), Dir(src.tables, src.tablesPhysical);
    var i := 0;
    while i < TABLES
      modifies dir
      invariant dir.physicalAddr == (phys + 4 * TABLES) % WORD_LIMIT
      invariant i <= TABLES && |made| == i && |dir.tables| == TABLES && |dir.tablesPhysical| == TABLES
      invariant forall j | 0 <= j < i :: made[j] == null || fresh(made[j])
      invariant forall j | 0 <= j < i && NeedsCopy(null, k, s, j) :: made[j] != null
      invariant forall j, l | 0 <= j < l < i && made[j] != null :: made[j] != made[l]
      invariant forall j | i <= j < TABLES :: dir.tables[j] == null && dir.tablesPhysical[j] == 0
      invariant forall j | 0 <= j < i ::
        dir.tables[j] == (if s.tables[j] == null then null else if k.tables[j] == s.tables[j] then s.tables[j]
          else made[j])
        && dir.tablesPhysical[j] == ClonePhys(null, k, s, at, j)
    {
      ghost var copied: PageTable? := null;
      if src.tables[i] == null {
      } else if kernel.tables[i] == src.tables[i] {
        dir.tables := dir.tables[i := src.tables[i]];
        dir.tablesPhysical := dir.tablesPhysical[i := src.tablesPhysical[i]];
      } else {
        var t := CopyTable(contents[i]);
        dir.tables := dir.tables[i := t];
        dir.tablesPhysical := dir.tablesPhysical[i := Or7(at[i])];
        copied := t;
      }
      made := made + [copied];
      i := i + 1;
    }
  }

  // ---------- chains of clones ----------

  /** Directory 0 is the kernel's, which stays as it is. Any directory may be cloned, and any other one
      may get a new table through `get_page`. */
  datatype Op<T> = CloneOf(d: nat, made: seq<T>, at: seq<nat>) | AddTable(d: nat, slot: nat, table: T, addr: nat)

  ghost predicate Unused<T>(nil: T, dirs: seq<Dir<T>>, t: T) {
    t != nil && forall d, i | 0 <= d < |dirs| && 0 <= i < |dirs[d].tables| :: dirs[d].tables[i] != t
  }

  /** New tables are really new. */
  ghost predicate Legal<T>(nil: T, dirs: seq<Dir<T>>, op: Op<T>) {
    match op
    case CloneOf(d, made, at) =>
      && d < |dirs| && |made| == |at| == TABLES == |dirs[0].tables| == |dirs[d].tables|
      && (forall i | 0 <= i < TABLES && NeedsCopy(nil, dirs[0], dirs[d], i) :: Unused(nil, dirs, made[i]))
      && (forall i, j | 0 <= i < j < TABLES && NeedsCopy(nil, dirs[0], dirs[d], i)
        && NeedsCopy(nil, dirs[0], dirs[d], j) ::
            made[i] != made[j])
    case AddTable(d, slot, table, addr) =>
      0 < d < |dirs| && slot < TABLES && |dirs[d].tables| == |dirs[d].phys| == TABLES && dirs[d].tables[slot] == nil
      && Unused(nil, dirs, table)
  }

  ghost predicate Private<T>(dirs: seq<Dir<T>>, d: nat, i: nat)
    requires d < |dirs| && i < |dirs[d].tables|
  {
    forall e, j | 0 <= e < |dirs| && 0 <= j < |dirs[e].tables| && !(e == d && j == i) ::
      dirs[e].tables[j] != dirs[d].tables[i]
  }

  ghost predicate SharedOrPrivate<T>(nil: T, dirs: seq<Dir<T>>, d: nat, i: nat)
    requires |dirs| > 0 && d < |dirs| && i < |dirs[d].tables| && i < |dirs[d].phys| && i < |dirs[0].tables|
      && i < |dirs[0].phys|
  {
    dirs[d].tables[i] != nil ==>
      (dirs[d].tables[i] == dirs[0].tables[i] && dirs[d].phys[i] == dirs[0].phys[i]) || Private(dirs, d, i)
  }

  /** Every table is either the kernel's, with its physical entry, or belongs to one slot of one directory. */
  ghost predicate Sharing<T>(nil: T, dirs: seq<Dir<T>>) {
    && |dirs| > 0
    && (forall d | 0 <= d < |dirs| :: |dirs[d].tables| == |dirs[d].phys| == TABLES)
    && (forall i, j | 0 <= i < j < TABLES && dirs[0].tables[i] != nil :: dirs[0].tables[i] != dirs[0].tables[j])
    && (forall d, i | 0 <= d < |dirs| && 0 <= i < TABLES :: SharedOrPrivate(nil, dirs, d, i))
  }

  function Apply<T(==)>(nil: T, dirs: seq<Dir<T>>, op: Op<T>): seq<Dir<T>>
    requires Sharing(nil, dirs) && Legal(nil, dirs, op)
  {
    match op
    case CloneOf(d, made, at) => dirs + [Clone(nil, dirs[0], dirs[d], made, at)]
    case AddTable(d, slot, table, addr) =>
      dirs[d := Dir(dirs[d].tables[slot := table], dirs[d].phys[slot := Or7(addr)])]
  }

  /** A clone has a table exactly where its source has one, shares a table with its source exactly where
      the source shares it with the kernel, and then its physical entry is the kernel's too. */
  lemma CloneMatchesSource<T>(nil: T, dirs: seq<Dir<T>>, op: Op<T>, i: nat)
    requires Sharing(nil, dirs) && Legal(nil, dirs, op) && op.CloneOf? && i < TABLES
    ensures var src, dir := dirs[op.d], Clone(nil, dirs[0], dirs[op.d], op.made, op.at);
      && (dir.tables[i] == nil <==> src.tables[i] == nil)
      && (src.tables[i] != nil ==> (dir.tables[i] == src.tables[i] <==> src.tables[i] == dirs[0].tables[i]))
      && (src.tables[i] != nil && src.tables[i] == dirs[0].tables[i] ==> dir.phys[i] == dirs[0].phys[i])
  {
    assert SharedOrPrivate(nil, dirs, op.d, i);
    assert NeedsCopy(nil, dirs[0], dirs[op.d], i) ==> Unused(nil, dirs, op.made[i]);
  }

  lemma CloneKeepsSharing<T>(nil: T, dirs: seq<Dir<T>>, op: Op<T>)
    requires Sharing(nil, dirs) && Legal(nil, dirs, op) && op.CloneOf?
    ensures Sharing(nil, Apply(nil, dirs, op))
  {
    var after, n := Apply(nil, dirs, op), |dirs|;
    forall d, i | 0 <= d < |after| && 0 <= i < TABLES ensures SharedOrPrivate(nil, after, d, i) {
      if d < n {
        assert SharedOrPrivate(nil, dirs, d, i);
        if Private(dirs, d, i) && after[d].tables[i] != nil && after[d].tables[i] != dirs[0].tables[i] {
          forall j | 0 <= j < TABLES ensures after[n].tables[j] != after[d].tables[i] {
            assert NeedsCopy(nil, dirs[0], dirs[op.d], j) ==> Unused(nil, dirs, op.made[j]);
          }
        }
      } else {
        CloneMatchesSource(nil, dirs, op, i);
        assert NeedsCopy(nil, dirs[0], dirs[op.d], i) ==> Unused(nil, dirs, op.made[i]);
      }
    }
  }

  lemma AddKeepsSharing<T>(nil: T, dirs: seq<Dir<T>>, op: Op<T>)
    requires Sharing(nil, dirs) && Legal(nil, dirs, op) && op.AddTable?
    ensures Sharing(nil, Apply(nil, dirs, op))
  {
    var after := Apply(nil, dirs, op);
    forall d, i | 0 <= d < |after| && 0 <= i < TABLES ensures SharedOrPrivate(nil, after, d, i) {
      assert SharedOrPrivate(nil, dirs, d, i);
    }
  }

  ghost predicate LegalRun<T>(nil: T, dirs: seq<Dir<T>>, ops: seq<Op<T>>)
    requires Sharing(nil, dirs)
    decreases |ops|
  {
    ops == [] || (Legal(nil, dirs, ops[0])
      && (ApplyKeepsSharing(nil, dirs, ops[0]); LegalRun(nil, Apply(nil, dirs, ops[0]), ops[1..])))
  }

  lemma ApplyKeepsSharing<T>(nil: T, dirs: seq<Dir<T>>, op: Op<T>)
    requires Sharing(nil, dirs) && Legal(nil, dirs, op)
    ensures Sharing(nil, Apply(nil, dirs, op))
  {
    if op.CloneOf? {
      CloneKeepsSharing(nil, dirs, op);
    } else {
      AddKeepsSharing(nil, dirs, op);
    }
  }

  ghost function Run<T>(nil: T, dirs: seq<Dir<T>>, ops: seq<Op<T>>): (after: seq<Dir<T>>)
    requires Sharing(nil, dirs) && LegalRun(nil, dirs, ops)
    ensures Sharing(nil, after)
    decreases |ops|
  {
    if ops == [] then dirs else
    ApplyKeepsSharing(nil, dirs, ops[0]);
    Run(nil, Apply(nil, dirs, ops[0]), ops[1..])
  }

  /** Through any chain: kernel tables stay shared, private tables stay private, the kernel directory and
      every directory's kernel tables stay as they were. */
  lemma {:induction false} SharingThroughAnyChain<T>(nil: T, dirs: seq<Dir<T>>, ops: seq<Op<T>>)
    requires Sharing(nil, dirs) && LegalRun(nil, dirs, ops)
    ensures var after := Run(nil, dirs, ops);
      && |after| >= |dirs| && after[0] == dirs[0]
      && forall d, i | 0 <= d < |dirs| && 0 <= i < TABLES && dirs[d].tables[i] != nil ::
           after[d].tables[i] == dirs[d].tables[i] && after[d].phys[i] == dirs[d].phys[i]
    decreases |ops|
  {
    if ops != [] {
      ApplyKeepsSharing(nil, dirs, ops[0]);
      SharingThroughAnyChain(nil, Apply(nil, dirs, ops[0]), ops[1..]);
    }
  }

  /** Every directory has each of the kernel's tables, with its physical entry. */
  ghost predicate CoversKernel<T>(nil: T, dirs: seq<Dir<T>>)
    requires Sharing(nil, dirs)
  {
    forall d, i | 0 <= d < |dirs| && 0 <= i < TABLES && dirs[0].tables[i] != nil ::
      dirs[d].tables[i] == dirs[0].tables[i] && dirs[d].phys[i] == dirs[0].phys[i]
  }

  lemma ApplyKeepsCover<T>(nil: T, dirs: seq<Dir<T>>, op: Op<T>)
    requires Sharing(nil, dirs) && Legal(nil, dirs, op) && CoversKernel(nil, dirs)
    ensures Sharing(nil, Apply(nil, dirs, op)) && CoversKernel(nil, Apply(nil, dirs, op))
  {
    ApplyKeepsSharing(nil, dirs, op);
  }

  /** Whatever directories are cloned and whatever tables of their own they get in between, every
      descendant has each of the kernel's tables, with its physical entry. */
  lemma {:induction false} DescendantsCoverTheKernel<T>(nil: T, dirs: seq<Dir<T>>, ops: seq<Op<T>>)
    requires Sharing(nil, dirs) && LegalRun(nil, dirs, ops) && CoversKernel(nil, dirs)
    ensures CoversKernel(nil, Run(nil, dirs, ops))
    decreases |ops|
  {
    if ops != [] {
      ApplyKeepsCover(nil, dirs, ops[0]);
      DescendantsCoverTheKernel(nil, Apply(nil, dirs, ops[0]), ops[1..]);
    }
  }

  /** The kernel's directory alone, if its tables are distinct, is where such a run starts. */
  lemma KernelAlone<T>(nil: T, kernel: Dir<T>)
    requires |kernel.tables| == |kernel.phys| == TABLES
    requires forall i, j | 0 <= i < j < TABLES && kernel.tables[i] != nil :: kernel.tables[i] != kernel.tables[j]
    ensures Sharing(nil, [kernel]) && CoversKernel(nil, [kernel])
  {
    forall i | 0 <= i < TABLES ensures SharedOrPrivate(nil, [kernel], 0, i) {
    }
  }

  // ---------- physical entries ----------

  /** Where each table lies: on a page of its own. */
  ghost predicate Addresses<T>(addr: map<T, nat>) {
    && (forall t | t in addr :: addr[t] % PAGE == 0)
    && (forall s, t | s in addr && t in addr && s != t :: addr[s] != addr[t])
  }

  /** The processor's entry of a slot is that of the table in it, present, writeable and the user's. */
  ghost predicate Located<T>(nil: T, addr: map<T, nat>, dirs: seq<Dir<T>>) {
    forall d, i | 0 <= d < |dirs| && 0 <= i < |dirs[d].tables| && i < |dirs[d].phys| ::
      LocatedSlot(nil, addr, dirs[d], i)
  }

  ghost predicate LocatedSlot<T>(nil: T, addr: map<T, nat>, dir: Dir<T>, i: nat)
    requires i < |dir.tables| && i < |dir.phys|
  {
    if dir.tables[i] == nil then dir.phys[i] == 0
    else dir.tables[i] in addr && dir.phys[i] == addr[dir.tables[i]] + 7
  }

  /** The physical addresses reported for new tables are those at which they lie. */
  ghost predicate ReportedRight<T>(nil: T, addr: map<T, nat>, dirs: seq<Dir<T>>, op: Op<T>)
    requires Sharing(nil, dirs) && Legal(nil, dirs, op)
  {
    match op
    case CloneOf(d, made, at) =>
      forall i | 0 <= i < TABLES && NeedsCopy(nil, dirs[0], dirs[d], i) :: made[i] in addr && at[i] == addr[made[i]]
    case AddTable(d, slot, table, at) => table in addr && at == addr[table]
  }

  ghost predicate ReportedThroughout<T>(nil: T, addr: map<T, nat>, dirs: seq<Dir<T>>, ops: seq<Op<T>>)
    requires Sharing(nil, dirs) && LegalRun(nil, dirs, ops)
    decreases |ops|
  {
    ops == [] ||
    (ReportedRight(nil, addr, dirs, ops[0])
     && (ApplyKeepsSharing(nil, dirs, ops[0]); ReportedThroughout(nil, addr, Apply(nil, dirs, ops[0]), ops[1..])))
  }

  lemma ApplyKeepsLocated<T>(nil: T, addr: map<T, nat>, dirs: seq<Dir<T>>, op: Op<T>)
    requires Sharing(nil, dirs) && Legal(nil, dirs, op) && Addresses(addr) && Located(nil, addr, dirs)
    requires ReportedRight(nil, addr, dirs, op)
    ensures Located(nil, addr, Apply(nil, dirs, op))
  {
    var after := Apply(nil, dirs, op);
    forall d, i | 0 <= d < |after| && 0 <= i < |after[d].tables| && i < |after[d].phys|
      ensures LocatedSlot(nil, addr, after[d], i)
    {
      if d < |dirs| {
        assert LocatedSlot(nil, addr, dirs[d], i);
      } else {
        assert LocatedSlot(nil, addr, dirs[op.d], i);
      }
    }
  }

  lemma {:induction false} RunKeepsLocated<T>(nil: T, addr: map<T, nat>, dirs: seq<Dir<T>>, ops: seq<Op<T>>)
    requires Sharing(nil, dirs) && LegalRun(nil, dirs, ops) && Addresses(addr) && Located(nil, addr, dirs)
    requires ReportedThroughout(nil, addr, dirs, ops)
    ensures Located(nil, addr, Run(nil, dirs, ops))
    decreases |ops|
  {
    if ops != [] {
      hide Located, Addresses, ReportedRight, Apply;
      ApplyKeepsSharing(nil, dirs, ops[0]);
      ApplyKeepsLocated(nil, addr, dirs, ops[0]);
      RunKeepsLocated(nil, addr, Apply(nil, dirs, ops[0]), ops[1..]);
    }
  }

  /** Through any chain the processor sees the tables that the kernel sees: in all the directories, two slots
      have the same physical entry exactly if they have the same table, and an absent table has entry 0. */
  lemma PhysicalEntriesFollowTables<T>(nil: T, addr: map<T, nat>, dirs: seq<Dir<T>>, ops: seq<Op<T>>)
    requires Sharing(nil, dirs) && LegalRun(nil, dirs, ops) && Addresses(addr) && Located(nil, addr, dirs)
    requires ReportedThroughout(nil, addr, dirs, ops)
    ensures var after := Run(nil, dirs, ops);
      forall d, e, i, j | 0 <= d < |after| && 0 <= e < |after| && 0 <= i < TABLES && 0 <= j < TABLES ::
        && (after[d].tables[i] == nil <==> after[d].phys[i] == 0)
        && (after[d].phys[i] == after[e].phys[j] <==> after[d].tables[i] == after[e].tables[j])
  {
    RunKeepsLocated(nil, addr, dirs, ops);
    var after := Run(nil, dirs, ops);
    hide Run, LegalRun, ReportedThroughout, SharedOrPrivate;
    forall d, e, i, j | 0 <= d < |after| && 0 <= e < |after| && 0 <= i < TABLES && 0 <= j < TABLES
      ensures after[d].tables[i] == nil <==> after[d].phys[i] == 0
      ensures after[d].phys[i] == after[e].phys[j] <==> after[d].tables[i] == after[e].tables[j]
    {
      assert LocatedSlot(nil, addr, after[d], i) && LocatedSlot(nil, addr, after[e], j);
    }
  }
}
