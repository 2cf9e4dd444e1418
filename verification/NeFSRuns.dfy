/**
 Whole runs of creates and removes from the formatted disk: the invariant, the
 counters, and the refinement of the catalog chain to a plain directory.
 */
module NeFSRuns {
  import opened Arithmetic
  import opened CStrings
  import opened NeFSLayout
  import opened NeFSVolume

  datatype Operation =
    | Create(name: CString, flags: int, kind: int)
    | Remove(name: CString)

  // The calls the parser carries out without leaving its buffers or
  // dereferencing a missing record.
  predicate Defined(d: Disk, op: Operation) {
    match op
    case Create(name, _, kind) =>
      && 0 < |name| < NAME_LENGTH
      && (WellSuffixed(name, kind) && Lookup(d, name).None? ==> HasParent(name))
    case Remove(name) => name == "/" || Lookup(d, name).Some?
  }

  function Step(d: Disk, op: Operation): Disk
    requires Defined(d, op)
  {
    match op
    case Create(name, flags, kind) => AfterCreate(d, name, flags, kind)
    case Remove(name) => AfterRemove(d, name)
  }

  predicate RunDefined(d: Disk, ops: seq<Operation>)
    decreases |ops|
  {
    |ops| > 0 ==> Defined(d, ops[0]) && RunDefined(Step(d, ops[0]), ops[1..])
  }

  function Run(d: Disk, ops: seq<Operation>): Disk
    requires RunDefined(d, ops)
    decreases |ops|
  {
    if |ops| == 0 then d else Run(Step(d, ops[0]), ops[1..])
  }

  function Formatted(partition: CString, catalogs: nat, sectors: nat): Disk {
    Disk(FormattedSuperBlock(partition, catalogs, sectors), map[])
  }

  // ------------------------------------------------------------------
  // The invariant over every run
  // ------------------------------------------------------------------

  lemma StepKeepsFormed(d: Disk, op: Operation)
    requires Formed(d) && Defined(d, op)
    ensures Formed(Step(d, op))
    ensures Step(d, op).superBlock.sectorCount == d.superBlock.sectorCount
  {
    match op
    case Create(name, flags, kind) => CreateKeepsFormed(d, name, flags, kind);
    case Remove(name) => RemoveKeepsFormed(d, name);
  }

  lemma {:induction false} RunKeepsFormed(d: Disk, ops: seq<Operation>)
    requires Formed(d) && RunDefined(d, ops)
    ensures Formed(Run(d, ops))
    ensures Run(d, ops).superBlock.sectorCount == d.superBlock.sectorCount
    decreases |ops|
  {
    hide Formed, Step, Defined;
    if |ops| > 0 {
      StepKeepsFormed(d, ops[0]);
      RunKeepsFormed(Step(d, ops[0]), ops[1..]);
    }
  }

  /** Every volume reached from the formatted disk is formed, and all its
      records lie inside the disk. */
  lemma ReachableVolumesAreFormed(partition: CString, catalogs: nat, sectors: nat, ops: seq<Operation>, k: nat)
    requires Formattable(catalogs, sectors)
    requires RunDefined(Formatted(partition, catalogs, sectors), ops)
    ensures var d := Run(Formatted(partition, catalogs, sectors), ops);
            && Formed(d)
            && (k <= |d.records| ==> Address(k) + CATALOG_SIZE <= sectors * SECTOR_SIZE == d.superBlock.diskSize)
  {
    var start := Formatted(partition, catalogs, sectors);
    FormattedIsFormed(partition, catalogs, sectors);
    RunKeepsFormed(start, ops);
    if k <= |Run(start, ops).records| {
      RecordsStayInside(Run(start, ops), k);
    }
  }

  // ------------------------------------------------------------------
  // The counters over every run
  // ------------------------------------------------------------------

  function Removed1(op: Operation): nat { if op.Remove? && op.name != "/" then 1 else 0 }

  function Removals(ops: seq<Operation>): nat
    decreases |ops|
  {
    if |ops| == 0 then 0 else Removed1(ops[0]) + Removals(ops[1..])
  }

  /** Free sectors plus catalog count (modulo 2^64) and free catalogs plus
      allocated slots never change; the free sector count is exact modulo 2^64. */
  lemma {:induction false} CountersAreConserved(d: Disk, ops: seq<Operation>)
    requires Formed(d) && RunDefined(d, ops)
    ensures var d' := Run(d, ops);
            var s, s' := d.superBlock, d'.superBlock;
            && Add64(s'.freeSectors, s'.catalogCount) == Add64(s.freeSectors, s.catalogCount)
            && s'.freeCatalog + |d'.records| == s.freeCatalog + |d.records|
            && Mod64(s'.freeSectors) == Mod64(s.freeSectors + Removals(ops) - (|d'.records| - |d.records|))
    decreases |ops|
  {
    hide Formed, Step, Defined, Mod64, Add64, Removed1;
    if |ops| > 0 {
      var next := Step(d, ops[0]);
      StepKeepsFormed(d, ops[0]);
      StepCounters(d, ops[0]);
      CountersAreConserved(next, ops[1..]);
      var moved := Removals(ops[1..]) - (|Run(d, ops).records| - |next.records|);
      Mod64Shift(next.superBlock.freeSectors,
                 d.superBlock.freeSectors + Removed1(ops[0]) - (|next.records| - |d.records|), moved);
    }
  }

  lemma StepCounters(d: Disk, op: Operation)
    requires Formed(d) && Defined(d, op)
    ensures var d' := Step(d, op);
            var s, s' := d.superBlock, d'.superBlock;
            && Add64(s'.freeSectors, s'.catalogCount) == Add64(s.freeSectors, s.catalogCount)
            && s'.freeCatalog + |d'.records| == s.freeCatalog + |d.records|
            && Mod64(s'.freeSectors) == Mod64(s.freeSectors + Removed1(op) - (|d'.records| - |d.records|))
  {
    hide *;
    StepSuperBlock(d, op);
    ChargedCounters(d.superBlock);
    RefundedCounters(d.superBlock);
  }

  // Either operation leaves the superblock, charges it for a new slot, or
  // refunds it.
  lemma StepSuperBlock(d: Disk, op: Operation)
    requires Formed(d) && Defined(d, op)
    ensures d.superBlock.freeCatalog < TWO_64
    ensures var d' := Step(d, op);
            if op.Create? && Allocates(d, op.name, op.kind)
            then d'.superBlock == Charged(d.superBlock) && |d'.records| == |d.records| + 1
                 && Removed1(op) == 0 && d.superBlock.freeCatalog >= 1
            else if Removed1(op) == 1 then d'.superBlock == Refunded(d.superBlock) && |d'.records| == |d.records|
            else d' == d && Removed1(op) == 0
  {
    SlotsAreFew(d);
    match op
    case Create(name, flags, kind) =>
      if Allocates(d, name, kind) { CreateSuperBlock(d, name, flags, kind); }
      hide Formed, Allocates, Charged, HasParent, AfterCreate;
    case Remove(name) =>
      if name != "/" { RemoveSuperBlock(d, name); }
      hide Formed, Refunded, Lookup;
  }

  lemma SlotsAreFew(d: Disk)
    requires Formed(d)
    ensures d.superBlock.freeCatalog < TWO_64
  {
    hide NamesDiffer, RecordFormed;
  }

  lemma CreateSuperBlock(d: Disk, name: CString, flags: int, kind: int)
    requires Formed(d) && 0 < |name| < NAME_LENGTH && Allocates(d, name, kind) && HasParent(name)
    ensures var d' := AfterCreate(d, name, flags, kind);
            d'.superBlock == Charged(d.superBlock) && |d'.records| == |d.records| + 1
    ensures d.superBlock.freeCatalog >= 1
  {
    hide Formed, Lookup, HasParent, NewCatalog, Charged;
    CreateAppends(d, name, flags, kind, name);
  }

  lemma RemoveSuperBlock(d: Disk, name: CString)
    requires Formed(d) && name != "/" && Lookup(d, name).Some?
    ensures var d' := AfterRemove(d, name);
            d'.superBlock == Refunded(d.superBlock) && |d'.records| == |d.records|
  {
    hide NamesDiffer, RecordFormed, LookupFrom, Refunded;
  }

  lemma ChargedCounters(s: SuperBlock)
    requires s.freeCatalog < TWO_64
    ensures var s' := Charged(s);
            && Add64(s'.freeSectors, s'.catalogCount) == Add64(s.freeSectors, s.catalogCount)
            && Mod64(s'.freeSectors) == Mod64(s.freeSectors - 1)
            && (s.freeCatalog >= 1 ==> s'.freeCatalog == s.freeCatalog - 1)
  {
    Mod64Carry(s.catalogCount, s.freeSectors);
  }

  lemma RefundedCounters(s: SuperBlock)
    ensures var s' := Refunded(s);
            && Add64(s'.freeSectors, s'.catalogCount) == Add64(s.freeSectors, s.catalogCount)
            && Mod64(s'.freeSectors) == Mod64(s.freeSectors + 1)
            && s'.freeCatalog == s.freeCatalog
  {
    Mod64Carry(s.freeSectors, s.catalogCount);
  }

  lemma ReachableCounters(partition: CString, catalogs: nat, sectors: nat, ops: seq<Operation>)
    requires Formattable(catalogs, sectors)
    requires RunDefined(Formatted(partition, catalogs, sectors), ops)
    ensures var d := Run(Formatted(partition, catalogs, sectors), ops);
            var s := d.superBlock;
            && s.freeSectors < TWO_64
            && Mod64(s.freeSectors) == Mod64(sectors + Removals(ops) - |d.records|)
            && s.freeCatalog + |d.records| == sectors / CATALOG_SIZE
  {
    var start := Formatted(partition, catalogs, sectors);
    FormattedIsFormed(partition, catalogs, sectors);
    hide Formed, Run, RunDefined, Removals, Mod64, Add64;
    CountersAreConserved(start, ops);
    FreeSectorsAre64Bit(start, ops);
  }

  /** From the formatted disk the free sector count is the true one exactly
      while removals have not carried it past 2^64, and then it covers the free
      catalog count, so neither counter goes below zero. */
  lemma FreeSectorsCoverFreeCatalogs(partition: CString, catalogs: nat, sectors: nat, ops: seq<Operation>)
    requires Formattable(catalogs, sectors)
    requires RunDefined(Formatted(partition, catalogs, sectors), ops)
    ensures var d := Run(Formatted(partition, catalogs, sectors), ops);
            var s, truth := d.superBlock, sectors - |d.records| + Removals(ops);
            && (s.freeSectors == truth <==> truth < TWO_64)
            && (truth < TWO_64 ==> s.freeSectors >= s.freeCatalog)
  {
    hide *;
    ReachableCounters(partition, catalogs, sectors, ops);
    var d := Run(Formatted(partition, catalogs, sectors), ops);
    TrueCount(d.superBlock.freeSectors, d.superBlock.freeCatalog, sectors, |d.records|, Removals(ops));
  }

  lemma TrueCount(free: nat, freeCatalog: nat, sectors: nat, used: nat, removals: nat)
    requires free < TWO_64 && Mod64(free) == Mod64(sectors + removals - used)
    requires freeCatalog + used == sectors / CATALOG_SIZE
    ensures var truth := sectors - used + removals;
            (free == truth <==> truth < TWO_64) && (truth < TWO_64 ==> free >= freeCatalog)
  {
  }

  lemma {:induction false} FreeSectorsAre64Bit(d: Disk, ops: seq<Operation>)
    requires RunDefined(d, ops) && d.superBlock.freeSectors < TWO_64
    ensures Run(d, ops).superBlock.freeSectors < TWO_64
    decreases |ops|
  {
    if |ops| > 0 {
      FreeSectorsAre64Bit(Step(d, ops[0]), ops[1..]);
    }
  }

  // ------------------------------------------------------------------
  // Enough removals do wrap the free sector count
  // ------------------------------------------------------------------

  function RepeatRemove(name: CString, times: nat): (ops: seq<Operation>)
    ensures |ops| == times
  {
    if times == 0 then [] else [Remove(name)] + RepeatRemove(name, times - 1)
  }

  lemma {:induction false} RemovingAgainIsDefined(d: Disk, name: CString, times: nat, other: CString)
    requires Formed(d) && name != "/" && Lookup(d, name).Some?
    ensures var ops := RepeatRemove(name, times);
            && RunDefined(d, ops) && Removals(ops) == times
            && |Run(d, ops).records| == |d.records| && Lookup(Run(d, ops), other) == Lookup(d, other)
    decreases times
  {
    if times > 0 {
      var ops := RepeatRemove(name, times);
      RemoveRewritesInPlace(d, name, name);
      RemoveRewritesInPlace(d, name, other);
      RemoveKeepsFormed(d, name);
      assert ops[1..] == RepeatRemove(name, times - 1);
      RemovingAgainIsDefined(AfterRemove(d, name), name, times - 1, other);
      hide Formed, Lookup, AfterRemove;
    }
  }

  function CreateAndRemove(name: CString, times: nat): (ops: seq<Operation>) {
    [Create(name, 0, KIND_FILE)] + RepeatRemove(name, times)
  }

  lemma CreateAndRemoveIsDefined(d: Disk, name: CString, times: nat, other: CString)
    requires Formed(d) && d.superBlock.freeCatalog >= 1 && Lookup(d, name).None?
    requires |name| < NAME_LENGTH && HasParent(name) && !EndsInSlash(name) && other != name
    ensures var ops := CreateAndRemove(name, times);
            && RunDefined(d, ops) && Removals(ops) == times
            && |Run(d, ops).records| == |d.records| + 1 && Lookup(Run(d, ops), other) == Lookup(d, other)
  {
    var create, ops := Create(name, 0, KIND_FILE), CreateAndRemove(name, times);
    CreateAppends(d, name, 0, KIND_FILE, name);
    CreateAppends(d, name, 0, KIND_FILE, other);
    StepKeepsFormed(d, create);
    assert ops[1..] == RepeatRemove(name, times);
    assert name != "/" && Defined(d, create) && Step(d, create) == AfterCreate(d, name, 0, KIND_FILE);
    hide Formed, Lookup, AfterCreate, AfterRemove, Defined, Allocates, HasParent;
    RemovingAgainIsDefined(Step(d, create), name, times, other);
  }

  /** A removed name can be removed again, so a run exists that leaves no free
      sectors on a volume with free catalogs. */
  lemma RemovalsCanWrapFreeSectors(partition: CString, catalogs: nat, sectors: nat)
    requires Formattable(catalogs, sectors)
    ensures var start := Formatted(partition, catalogs, sectors);
            var ops := CreateAndRemove("/ab", TWO_64 - sectors + 1);
            && RunDefined(start, ops)
            && Run(start, ops).superBlock.freeSectors == 0
            && Run(start, ops).superBlock.freeCatalog > 0
  {
    var start := Formatted(partition, catalogs, sectors);
    var name: CString, times := "/ab", TWO_64 - sectors + 1;
    var ops := CreateAndRemove(name, times);
    FormattedIsFormed(partition, catalogs, sectors);
    assert PrefixToSlash(name, 1) == 1;
    CreateAndRemoveIsDefined(start, name, times, "/cd");
    assert |start.records| == 0;
    ReachableCounters(partition, catalogs, sectors, ops);
    hide *;
    WrappedToZero(Run(start, ops).superBlock.freeSectors, Run(start, ops).superBlock.freeCatalog, sectors, times);
  }

  lemma WrappedToZero(free: nat, freeCatalog: nat, sectors: nat, times: int)
    requires times == TWO_64 - sectors + 1 && MINIMUM_DISK_SIZE <= sectors * SECTOR_SIZE
    requires free < TWO_64 && Mod64(free) == Mod64(sectors + times - 1)
    requires freeCatalog + 1 == sectors / CATALOG_SIZE
    ensures free == 0 && freeCatalog > 0
  {
  }

  // ------------------------------------------------------------------
  // Refinement to a directory
  // ------------------------------------------------------------------

  datatype Entry = Entry(kind: int, catalogFlags: nat, deleted: bool)

  // A volume as a user sees it: names to entries.
  type Directory = map<CString, Entry>

  function EntryOf(c: Catalog): Entry { Entry(c.kind, c.catalogFlags, c.flags == FLAG_DELETED) }

  function NamesBelow(d: Disk, k: nat): set<CString> {
    set j: nat | j < k :: Record(d, j).name
  }

  function DirectoryOf(d: Disk): Directory {
    map name | name in NamesBelow(d, |d.records|) && Lookup(d, name).Some?
      :: EntryOf(Record(d, Lookup(d, name).value))
  }

  lemma DirectoryNames(d: Disk, name: CString)
    ensures name in DirectoryOf(d) <==> Lookup(d, name).Some?
    ensures name in DirectoryOf(d) ==> DirectoryOf(d)[name] == EntryOf(Record(d, Lookup(d, name).value))
  {
    LookupIsFirst(d, name);
  }

  /** A directory of bounded size in which a removed name stays, marked. */
  function DirectoryStep(directory: Directory, capacity: nat, op: Operation): Directory {
    match op
    case Create(name, flags, kind) =>
      if !WellSuffixed(name, kind) || name in directory || |directory| >= capacity then directory
      else directory[name := Entry(kind, flags % 0x1_0000, false)]
    case Remove(name) =>
      if name == "/" || name !in directory then directory
      else directory[name := directory[name].(deleted := true)]
  }

  function DirectoryRun(directory: Directory, capacity: nat, ops: seq<Operation>): Directory
    decreases |ops|
  {
    if |ops| == 0 then directory
    else DirectoryRun(DirectoryStep(directory, capacity, ops[0]), capacity, ops[1..])
  }

  lemma NextName(d: Disk, k: nat)
    requires NamesDiffer(d) && k < |d.records|
    ensures NamesBelow(d, k + 1) == NamesBelow(d, k) + {Record(d, k).name}
    ensures Record(d, k).name !in NamesBelow(d, k)
  {
    hide Record;
  }

  lemma NoNames(d: Disk)
    ensures |NamesBelow(d, 0)| == 0
  {
    assert NamesBelow(d, 0) == {};
  }

  lemma OneMore(d: Disk, k: nat)
    requires NamesDiffer(d) && k < |d.records|
    ensures |NamesBelow(d, k + 1)| == |NamesBelow(d, k)| + 1
  {
    hide NamesBelow, NamesDiffer, Record;
    NextName(d, k);
  }

  lemma {:induction false} DistinctNames(d: Disk, k: nat)
    requires NamesDiffer(d) && k <= |d.records|
    ensures |NamesBelow(d, k)| == k
    decreases k
  {
    hide NamesBelow, NamesDiffer;
    if k > 0 {
      DistinctNames(d, k - 1);
      OneMore(d, k - 1);
    } else {
      NoNames(d);
    }
  }

  lemma DirectorySize(d: Disk)
    requires Formed(d)
    ensures |DirectoryOf(d)| == |d.records|
  {
    DistinctNames(d, |d.records|);
    forall name | name in NamesBelow(d, |d.records|)
      ensures Lookup(d, name).Some?
    {
      LookupIsFirst(d, name);
    }
    assert DirectoryOf(d).Keys == NamesBelow(d, |d.records|);
  }

  // What decides a directory: the entry, if any, under each name.
  lemma DirectoriesAgree(a: Directory, b: Directory)
    requires forall name :: name in a <==> name in b
    requires forall name :: name in a && name in b ==> a[name] == b[name]
    ensures a == b
  {
  }

  lemma CreateRefinesDirectory(d: Disk, name: CString, flags: int, kind: int)
    requires Formed(d) && 0 < |name| < NAME_LENGTH
    requires Allocates(d, name, kind) && HasParent(name)
    ensures DirectoryOf(AfterCreate(d, name, flags, kind))
            == DirectoryOf(d)[name := Entry(kind, flags % 0x1_0000, false)]
  {
    var d', entry := AfterCreate(d, name, flags, kind), Entry(kind, flags % 0x1_0000, false);
    assert EntryOf(NewCatalog(d, name, flags, kind)) == entry;
    hide *;
    forall other: CString
      ensures var a, b := DirectoryOf(d'), DirectoryOf(d)[name := entry];
              (other in a <==> other in b) && (other in a && other in b ==> a[other] == b[other])
    {
      CreateAppends(d, name, flags, kind, other);
      DirectoryNames(d, other);
      DirectoryNames(d', other);
    }
    DirectoriesAgree(DirectoryOf(d'), DirectoryOf(d)[name := entry]);
  }

  lemma RemoveRefinesDirectory(d: Disk, name: CString)
    requires Formed(d) && name != "/" && Lookup(d, name).Some?
    ensures name in DirectoryOf(d)
    ensures DirectoryOf(AfterRemove(d, name))
            == DirectoryOf(d)[name := DirectoryOf(d)[name].(deleted := true)]
  {
    var d', k := AfterRemove(d, name), Lookup(d, name).value;
    RemoveRewritesInPlace(d, name, name);
    assert EntryOf(Record(d', k)) == EntryOf(Record(d, k)).(deleted := true);
    hide *;
    DirectoryNames(d, name);
    var after := DirectoryOf(d)[name := DirectoryOf(d)[name].(deleted := true)];
    forall other: CString
      ensures var a := DirectoryOf(d');
              (other in a <==> other in after) && (other in a && other in after ==> a[other] == after[other])
    {
      RemoveRewritesInPlace(d, name, other);
      DirectoryNames(d, other);
      DirectoryNames(d', other);
    }
    DirectoriesAgree(DirectoryOf(d'), after);
  }

  lemma StepRefinesDirectory(d: Disk, op: Operation)
    requires Formed(d) && Defined(d, op)
    ensures DirectoryOf(Step(d, op))
            == DirectoryStep(DirectoryOf(d), d.superBlock.sectorCount / CATALOG_SIZE, op)
  {
    DirectorySize(d);
    if op.Create? { DirectoryNames(d, op.name); }
    if op.Remove? { DirectoryNames(d, op.name); }
    hide DirectoryOf, Lookup, NamesDiffer, RecordFormed;
    match op
    case Create(name, flags, kind) =>
      if Allocates(d, name, kind) { CreateRefinesDirectory(d, name, flags, kind); }
    case Remove(name) =>
      if name != "/" { RemoveRefinesDirectory(d, name); }
  }

  lemma {:induction false} RunRefinesDirectory(d: Disk, ops: seq<Operation>)
    requires Formed(d) && RunDefined(d, ops)
    ensures DirectoryOf(Run(d, ops))
            == DirectoryRun(DirectoryOf(d), d.superBlock.sectorCount / CATALOG_SIZE, ops)
    decreases |ops|
  {
    hide Formed, Step, Defined, DirectoryOf, DirectoryStep;
    if |ops| > 0 {
      StepRefinesDirectory(d, ops[0]);
      StepKeepsFormed(d, ops[0]);
      RunRefinesDirectory(Step(d, ops[0]), ops[1..]);
    }
  }

  /** Over every run from the formatted disk, the chain of records answers
      lookups exactly as a bounded directory would. */
  lemma ReachableVolumesRefineDirectory(partition: CString, catalogs: nat, sectors: nat, ops: seq<Operation>)
    requires Formattable(catalogs, sectors)
    requires RunDefined(Formatted(partition, catalogs, sectors), ops)
    ensures DirectoryOf(Run(Formatted(partition, catalogs, sectors), ops))
            == DirectoryRun(map[], sectors / CATALOG_SIZE, ops)
  {
    var start := Formatted(partition, catalogs, sectors);
    FormattedIsFormed(partition, catalogs, sectors);
    RunRefinesDirectory(start, ops);
    assert DirectoryOf(start) == map[];
  }
}
