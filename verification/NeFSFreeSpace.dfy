/**
 When the counters of a volume are right: exact conditions for
 FreeSectors >= FreeCatalog, for CatalogCount to be the true count, and for a
 counter to go below zero, for one state and for every state of a run from the
 formatted disk.
 */
module NeFSFreeSpace {
  import opened Arithmetic
  import opened CStrings
  import opened NeFSLayout
  import opened NeFSRuns
  import opened NeFSVolume

  // A volume as formatting leaves it: no slots, and all sectors free.
  ghost predicate Fresh(start: Disk) {
    && Formed(start) && |start.records| == 0
    && start.superBlock.freeSectors == start.superBlock.sectorCount < TWO_64
    && start.superBlock.catalogCount < TWO_64
  }

  lemma FormattedIsFresh(partition: CString, catalogs: nat, sectors: nat)
    requires Formattable(catalogs, sectors)
    ensures Fresh(Formatted(partition, catalogs, sectors))
    ensures var s := Formatted(partition, catalogs, sectors).superBlock;
            s.sectorCount == sectors && s.catalogCount == catalogs
  {
    FormattedIsFormed(partition, catalogs, sectors);
    hide Formed;
  }

  predicate Covers(s: SuperBlock) { s.freeSectors >= s.freeCatalog }

  // ------------------------------------------------------------------
  // The states of a run
  // ------------------------------------------------------------------

  // The volume after the first k operations.
  function StateAt(d: Disk, ops: seq<Operation>, k: nat): Disk
    requires RunDefined(d, ops) && k <= |ops|
    decreases k
  {
    if k == 0 then d else StateAt(Step(d, ops[0]), ops[1..], k - 1)
  }

  lemma {:induction false} StateOfPrefix(d: Disk, ops: seq<Operation>, k: nat)
    requires RunDefined(d, ops) && k <= |ops|
    ensures RunDefined(d, ops[..k]) && Run(d, ops[..k]) == StateAt(d, ops, k)
    decreases k
  {
    hide Step, Defined;
    if k > 0 {
      StateOfPrefix(Step(d, ops[0]), ops[1..], k - 1);
      assert ops[..k][1..] == ops[1..][..k - 1];
    }
  }

  lemma {:induction false} NextState(d: Disk, ops: seq<Operation>, k: nat)
    requires RunDefined(d, ops) && k < |ops|
    ensures Defined(StateAt(d, ops, k), ops[k])
    ensures StateAt(d, ops, k + 1) == Step(StateAt(d, ops, k), ops[k])
    decreases k
  {
    hide Step, Defined;
    if k > 0 {
      NextState(Step(d, ops[0]), ops[1..], k - 1);
    }
  }

  lemma {:induction false} RemovalsAppend(ops: seq<Operation>, k: nat)
    requires k < |ops|
    ensures Removals(ops[..k + 1]) == Removals(ops[..k]) + Removed1(ops[k])
    decreases k
  {
    hide Removed1;
    assert ops[..k + 1][1..] == ops[1..][..k];
    if k > 0 {
      RemovalsAppend(ops[1..], k - 1);
      assert ops[..k][1..] == ops[1..][..k - 1];
    }
  }

  // What the free sector count of state k would be without wrap-around.
  function Truth(start: Disk, ops: seq<Operation>, k: nat): int
    requires RunDefined(start, ops) && k <= |ops|
  {
    start.superBlock.sectorCount - |StateAt(start, ops, k).records| + Removals(ops[..k])
  }

  lemma StateKeepsFormed(start: Disk, ops: seq<Operation>, k: nat)
    requires Formed(start) && RunDefined(start, ops) && k <= |ops|
    ensures Formed(StateAt(start, ops, k))
    ensures StateAt(start, ops, k).superBlock.sectorCount == start.superBlock.sectorCount
  {
    hide *;
    StateOfPrefix(start, ops, k);
    RunKeepsFormed(start, ops[..k]);
  }

  lemma SmallIsRemainder(x: nat, y: int)
    requires x < TWO_64 && Mod64(x) == Mod64(y)
    ensures x == Mod64(y)
  {
  }

  // The slots a disk of n sectors may hold.
  function Capacity(n: nat): (c: nat)
    ensures c <= n
  {
    n / CATALOG_SIZE
  }

  lemma SlotsLeft(d: Disk)
    requires Formed(d)
    ensures d.superBlock.freeCatalog + |d.records| == Capacity(d.superBlock.sectorCount)
  {
    hide RecordFormed, NamesDiffer;
  }

  /** The counters of every state of a run, by the true count. */
  lemma StateCounters(start: Disk, ops: seq<Operation>, k: nat)
    requires Fresh(start) && RunDefined(start, ops) && k <= |ops|
    ensures var d := StateAt(start, ops, k);
            && d.superBlock.freeSectors == Mod64(Truth(start, ops, k))
            && d.superBlock.freeCatalog + |d.records| == Capacity(start.superBlock.sectorCount)
            && d.superBlock.freeCatalog <= Truth(start, ops, k)
  {
    hide Formed, RunDefined, Run, StateAt, Removals, Mod64, Add64, Capacity;
    StateOfPrefix(start, ops, k);
    StateKeepsFormed(start, ops, k);
    CountersAreConserved(start, ops[..k]);
    FreeSectorsAre64Bit(start, ops[..k]);
    SlotsLeft(StateAt(start, ops, k));
    SmallIsRemainder(StateAt(start, ops, k).superBlock.freeSectors, Truth(start, ops, k));
  }

  /** FreeSectors covers FreeCatalog in a state exactly when the true count,
      taken modulo 2^64, covers the slots left. */
  lemma CoversExactly(start: Disk, ops: seq<Operation>, k: nat)
    requires Fresh(start) && RunDefined(start, ops) && k <= |ops|
    ensures Covers(StateAt(start, ops, k).superBlock) <==>
            Mod64(Truth(start, ops, k)) >=
            Capacity(start.superBlock.sectorCount) - |StateAt(start, ops, k).records|
  {
    hide Fresh, RunDefined, StateAt, Truth, Mod64, Capacity;
    StateCounters(start, ops, k);
  }

  // One operation moves the true count by at most one, and never takes a slot back.
  lemma StepOfTruth(start: Disk, ops: seq<Operation>, k: nat)
    requires Formed(start) && RunDefined(start, ops) && k < |ops|
    ensures Truth(start, ops, k) - 1 <= Truth(start, ops, k + 1) <= Truth(start, ops, k) + 1
    ensures |StateAt(start, ops, k).records| <= |StateAt(start, ops, k + 1).records|
  {
    hide Step, Defined, Formed, StateAt, RunDefined, Removals;
    NextState(start, ops, k);
    RemovalsAppend(ops, k);
    StateKeepsFormed(start, ops, k);
    RecordsGrow(StateAt(start, ops, k), ops[k]);
  }

  lemma RecordsGrow(d: Disk, op: Operation)
    requires Formed(d) && Defined(d, op)
    ensures |d.records| <= |Step(d, op).records| <= |d.records| + 1
    ensures Removed1(op) == 1 ==> |Step(d, op).records| == |d.records|
  {
    hide RecordFormed, NamesDiffer, Lookup, NewCatalog, Removed;
  }

  // A true count that passes 2^64 is equal to it in some state before.
  lemma {:induction false} FirstCarry(start: Disk, ops: seq<Operation>, k: nat) returns (j: nat)
    requires Formed(start) && RunDefined(start, ops) && k <= |ops|
    requires Truth(start, ops, 0) < TWO_64 <= Truth(start, ops, k)
    ensures j <= k && Truth(start, ops, j) == TWO_64
    ensures |StateAt(start, ops, j).records| <= |StateAt(start, ops, k).records|
    decreases k
  {
    hide Truth, StateAt, RunDefined, Formed;
    if Truth(start, ops, k) == TWO_64 {
      j := k;
    } else {
      StepOfTruth(start, ops, k - 1);
      j := FirstCarry(start, ops, k - 1);
    }
  }

  lemma TruthAtStart(start: Disk, ops: seq<Operation>)
    requires Fresh(start) && RunDefined(start, ops)
    ensures Truth(start, ops, 0) == start.superBlock.sectorCount < TWO_64
  {
    hide Formed, RunDefined;
  }

  lemma BelowItsModulus(t: int)
    requires t >= 0
    ensures t < TWO_64 ==> Mod64(t) == t
    ensures t == TWO_64 ==> Mod64(t) == 0
  {
  }

  // The true count has not wrapped, or no slot is left.
  predicate Sound(start: Disk, ops: seq<Operation>, k: nat)
    requires RunDefined(start, ops) && k <= |ops|
  {
    Truth(start, ops, k) < TWO_64 || StateAt(start, ops, k).superBlock.freeCatalog == 0
  }

  lemma SmallTruthCovers(start: Disk, ops: seq<Operation>, k: nat)
    requires Fresh(start) && RunDefined(start, ops) && k <= |ops|
    requires Sound(start, ops, k)
    ensures Covers(StateAt(start, ops, k).superBlock)
  {
    hide Fresh, RunDefined, StateAt, Truth, Mod64, Capacity;
    StateCounters(start, ops, k);
    BelowItsModulus(Truth(start, ops, k));
  }

  lemma CarryUncovers(start: Disk, ops: seq<Operation>, k: nat) returns (j: nat)
    requires Fresh(start) && RunDefined(start, ops) && k <= |ops|
    requires !Sound(start, ops, k)
    ensures j <= k && !Covers(StateAt(start, ops, j).superBlock)
  {
    hide Formed, RunDefined, StateAt, Truth, Mod64, Capacity;
    TruthAtStart(start, ops);
    j := FirstCarry(start, ops, k);
    StateCounters(start, ops, j);
    StateCounters(start, ops, k);
    BelowItsModulus(Truth(start, ops, j));
  }

  ghost predicate AlwaysCovers(start: Disk, ops: seq<Operation>)
    requires RunDefined(start, ops)
  {
    forall k: nat :: k <= |ops| ==> Covers(StateAt(start, ops, k).superBlock)
  }

  ghost predicate AlwaysSound(start: Disk, ops: seq<Operation>)
    requires RunDefined(start, ops)
  {
    forall k: nat :: k <= |ops| ==> Sound(start, ops, k)
  }

  lemma SoundRunsCover(start: Disk, ops: seq<Operation>)
    requires Fresh(start) && RunDefined(start, ops) && AlwaysSound(start, ops)
    ensures AlwaysCovers(start, ops)
  {
    hide Fresh, RunDefined, StateAt, Truth, Covers, Sound;
    forall k: nat | k <= |ops|
      ensures Covers(StateAt(start, ops, k).superBlock)
    {
      SmallTruthCovers(start, ops, k);
    }
  }

  lemma CoveringRunsAreSound(start: Disk, ops: seq<Operation>)
    requires Fresh(start) && RunDefined(start, ops) && AlwaysCovers(start, ops)
    ensures AlwaysSound(start, ops)
  {
    hide Fresh, RunDefined, StateAt, Truth, Covers, Sound;
    forall k: nat | k <= |ops|
      ensures Sound(start, ops, k)
    {
      if !Sound(start, ops, k) {
        var j := CarryUncovers(start, ops, k);
      }
    }
  }

  /** FreeSectors >= FreeCatalog in every state of a run from a fresh volume if
      and only if in every state the true count is below 2^64 or no slot is
      left: at the first carry FreeSectors is zero. */
  lemma CoversThroughout(start: Disk, ops: seq<Operation>)
    requires Fresh(start) && RunDefined(start, ops)
    ensures AlwaysCovers(start, ops) <==> AlwaysSound(start, ops)
  {
    hide *;
    if AlwaysSound(start, ops) { SoundRunsCover(start, ops); }
    if AlwaysCovers(start, ops) { CoveringRunsAreSound(start, ops); }
  }

  // ------------------------------------------------------------------
  // The catalog count
  // ------------------------------------------------------------------

  // What the catalog count of state k would be without wrap-around: the blobs
  // it was formatted with and the slots, less the removals.
  function CatalogTruth(start: Disk, ops: seq<Operation>, k: nat): int
    requires RunDefined(start, ops) && k <= |ops|
  {
    start.superBlock.catalogCount + |StateAt(start, ops, k).records| - Removals(ops[..k])
  }

  lemma {:induction false} CatalogCountIs64Bit(d: Disk, ops: seq<Operation>)
    requires RunDefined(d, ops) && d.superBlock.catalogCount < TWO_64
    ensures Run(d, ops).superBlock.catalogCount < TWO_64
    decreases |ops|
  {
    if |ops| > 0 {
      CatalogCountIs64Bit(Step(d, ops[0]), ops[1..]);
    }
  }

  lemma OtherAddend(a: int, b: int, a': int, b': int, x: int)
    requires Add64(a', b') == Add64(a, b) && Mod64(a') == Mod64(a + x)
    ensures Mod64(b') == Mod64(b - x)
  {
    hide Mod64;
    Mod64Shift(a' + b', a + b, 0 - a');
    Mod64Shift(a', a + x, b - x - a');
    Mod64Shift(a + x, a', 0 - a - x - a' + a + b);
  }

  /** In every state of a run CatalogCount is its true count modulo 2^64. */
  lemma CatalogCountAt(start: Disk, ops: seq<Operation>, k: nat)
    requires Fresh(start) && RunDefined(start, ops) && k <= |ops|
    ensures StateAt(start, ops, k).superBlock.catalogCount == Mod64(CatalogTruth(start, ops, k))
  {
    hide Formed, RunDefined, Run, StateAt, Removals, Mod64, Add64;
    var prefix := ops[..k];
    StateOfPrefix(start, ops, k);
    CountersAreConserved(start, prefix);
    CatalogCountIs64Bit(start, prefix);
    var s, s' := start.superBlock, StateAt(start, ops, k).superBlock;
    OtherAddend(s.freeSectors, s.catalogCount, s'.freeSectors, s'.catalogCount,
                Removals(prefix) - |StateAt(start, ops, k).records|);
    SmallIsRemainder(s'.catalogCount, CatalogTruth(start, ops, k));
  }

  lemma StepOfCatalogTruth(start: Disk, ops: seq<Operation>, k: nat)
    requires Formed(start) && RunDefined(start, ops) && k < |ops|
    ensures CatalogTruth(start, ops, k) - 1 <= CatalogTruth(start, ops, k + 1) <= CatalogTruth(start, ops, k) + 1
  {
    hide Step, Defined, Formed, StateAt, RunDefined, Removals;
    NextState(start, ops, k);
    RemovalsAppend(ops, k);
    StateKeepsFormed(start, ops, k);
    RecordsGrow(StateAt(start, ops, k), ops[k]);
  }

  // State k counts the catalogs right.
  predicate CountsCatalogs(start: Disk, ops: seq<Operation>, k: nat)
    requires RunDefined(start, ops) && k <= |ops|
  {
    StateAt(start, ops, k).superBlock.catalogCount == CatalogTruth(start, ops, k)
  }

  // The removals are no more than the blobs and slots, and the count is below 2^64.
  predicate InRange(start: Disk, ops: seq<Operation>, k: nat)
    requires RunDefined(start, ops) && k <= |ops|
  {
    && Removals(ops[..k]) <= start.superBlock.catalogCount + |StateAt(start, ops, k).records|
    && CatalogTruth(start, ops, k) < TWO_64
  }

  /** A state counts the catalogs right exactly when its true count is in range. */
  lemma CountsCatalogsExactly(start: Disk, ops: seq<Operation>, k: nat)
    requires Fresh(start) && RunDefined(start, ops) && k <= |ops|
    ensures CountsCatalogs(start, ops, k) <==> InRange(start, ops, k)
  {
    hide Fresh, RunDefined, StateAt, Removals, Mod64;
    CatalogCountAt(start, ops, k);
    if CatalogTruth(start, ops, k) >= 0 { BelowItsModulus(CatalogTruth(start, ops, k)); }
  }

  // ------------------------------------------------------------------
  // Below zero
  // ------------------------------------------------------------------

  predicate AllocatesAt(d: Disk, op: Operation) {
    op.Create? && Allocates(d, op.name, op.kind)
  }

  // A counter was zero and is now 2^64 - 1.
  predicate FallsBelowZero(c: nat, c': nat) { c == 0 && c' == TWO_64 - 1 }

  // An operation takes one of the three counters below zero.
  predicate GoesBelowZero(s: SuperBlock, s': SuperBlock) {
    || FallsBelowZero(s.freeSectors, s'.freeSectors)
    || FallsBelowZero(s.freeCatalog, s'.freeCatalog)
    || FallsBelowZero(s.catalogCount, s'.catalogCount)
  }

  // Whether an allocation or a removal takes a counter below zero.
  lemma StepBelowZero(d: Disk, op: Operation)
    requires Formed(d) && Defined(d, op)
    requires d.superBlock.freeSectors < TWO_64 && d.superBlock.catalogCount < TWO_64
    ensures var s, s' := d.superBlock, Step(d, op).superBlock;
            && (FallsBelowZero(s.freeSectors, s'.freeSectors) <==> AllocatesAt(d, op) && s.freeSectors == 0)
            && !FallsBelowZero(s.freeCatalog, s'.freeCatalog)
            && (FallsBelowZero(s.catalogCount, s'.catalogCount) <==> Removed1(op) == 1 && s.catalogCount == 0)
  {
    hide Formed, Defined, Step, Allocates, Charged, Refunded;
    StepSuperBlock(d, op);
    ChargedExactly(d.superBlock);
    RefundedExactly(d.superBlock);
  }

  /** Exactly when operation k of a run takes a counter below zero: FreeSectors
      when it allocates while the true count of free sectors is a multiple of
      2^64, CatalogCount when it removes while the true count of catalogs is one,
      FreeCatalog never. */
  lemma BelowZeroExactly(start: Disk, ops: seq<Operation>, k: nat)
    requires Fresh(start) && RunDefined(start, ops) && k < |ops|
    ensures var d, op := StateAt(start, ops, k), ops[k];
            var s, s' := d.superBlock, StateAt(start, ops, k + 1).superBlock;
            var free := AllocatesAt(d, op) && Mod64(Truth(start, ops, k)) == 0;
            var count := Removed1(op) == 1 && Mod64(CatalogTruth(start, ops, k)) == 0;
            && (FallsBelowZero(s.freeSectors, s'.freeSectors) <==> free)
            && !FallsBelowZero(s.freeCatalog, s'.freeCatalog)
            && (FallsBelowZero(s.catalogCount, s'.catalogCount) <==> count)
            && (GoesBelowZero(s, s') <==> free || count)
  {
    hide Fresh, Formed, RunDefined, StateAt, Truth, CatalogTruth, Mod64, Capacity, Step, Defined, AllocatesAt,
         FallsBelowZero, Removed1;
    StateCounters(start, ops, k);
    CatalogCountAt(start, ops, k);
    NextState(start, ops, k);
    FreshIsFormed(start);
    StateKeepsFormed(start, ops, k);
    StepBelowZero(StateAt(start, ops, k), ops[k]);
  }

  lemma FreshIsFormed(start: Disk)
    requires Fresh(start)
    ensures Formed(start)
  {
    hide Formed;
  }

  // Operation k wraps the catalog count, down or up.
  predicate WrapsAt(start: Disk, ops: seq<Operation>, k: nat)
    requires RunDefined(start, ops) && k < |ops|
  {
    var c, c' := StateAt(start, ops, k).superBlock.catalogCount, StateAt(start, ops, k + 1).superBlock.catalogCount;
    FallsBelowZero(c, c') || FallsBelowZero(c', c)
  }

  ghost predicate CatalogCountNeverWraps(start: Disk, ops: seq<Operation>)
    requires RunDefined(start, ops)
  {
    forall k: nat :: k < |ops| ==> !WrapsAt(start, ops, k)
  }

  ghost predicate AlwaysCountsCatalogs(start: Disk, ops: seq<Operation>)
    requires RunDefined(start, ops)
  {
    forall k: nat :: k <= |ops| ==> CountsCatalogs(start, ops, k)
  }

  // Two states in a row that count right are not apart by a wrap, and without a
  // wrap the second counts right when the first does.
  lemma CountingSurvives(start: Disk, ops: seq<Operation>, k: nat)
    requires Fresh(start) && RunDefined(start, ops) && k < |ops| && CountsCatalogs(start, ops, k)
    ensures CountsCatalogs(start, ops, k + 1) <==> !WrapsAt(start, ops, k)
  {
    hide Formed, RunDefined, StateAt, CatalogTruth;
    CatalogCountAt(start, ops, k);
    CatalogCountAt(start, ops, k + 1);
    StepOfCatalogTruth(start, ops, k);
  }

  lemma {:induction false} CountsWithoutWraps(start: Disk, ops: seq<Operation>, k: nat)
    requires Fresh(start) && RunDefined(start, ops) && k <= |ops| && CatalogCountNeverWraps(start, ops)
    ensures CountsCatalogs(start, ops, k)
    decreases k
  {
    hide Fresh, RunDefined, WrapsAt;
    if k > 0 {
      hide CountsCatalogs;
      CountsWithoutWraps(start, ops, k - 1);
      CountingSurvives(start, ops, k - 1);
    } else {
      FreshCountsCatalogs(start, ops);
    }
  }

  lemma FreshCountsCatalogs(start: Disk, ops: seq<Operation>)
    requires Fresh(start) && RunDefined(start, ops)
    ensures CountsCatalogs(start, ops, 0)
  {
    hide Formed, RunDefined;
  }

  lemma CountingNeverWraps(start: Disk, ops: seq<Operation>)
    requires Fresh(start) && RunDefined(start, ops) && AlwaysCountsCatalogs(start, ops)
    ensures CatalogCountNeverWraps(start, ops)
  {
    hide Fresh, RunDefined, WrapsAt, CountsCatalogs;
    forall k: nat | k < |ops|
      ensures !WrapsAt(start, ops, k)
    {
      assert CountsCatalogs(start, ops, k) && CountsCatalogs(start, ops, k + 1);
      CountingSurvives(start, ops, k);
    }
  }

  // In every state the removals are covered and the count is below 2^64.
  ghost predicate AlwaysInRange(start: Disk, ops: seq<Operation>)
    requires RunDefined(start, ops)
  {
    forall k: nat :: k <= |ops| ==> InRange(start, ops, k)
  }

  lemma InRangeExactly(start: Disk, ops: seq<Operation>)
    requires Fresh(start) && RunDefined(start, ops)
    ensures AlwaysCountsCatalogs(start, ops) ==> AlwaysInRange(start, ops)
    ensures AlwaysInRange(start, ops) ==> AlwaysCountsCatalogs(start, ops)
  {
    hide Fresh, RunDefined, CountsCatalogs, InRange;
    forall k: nat | k <= |ops|
      ensures CountsCatalogs(start, ops, k) == InRange(start, ops, k)
    {
      CountsCatalogsExactly(start, ops, k);
    }
  }

  /** CatalogCount is right in every state of a run from a fresh volume if and
      only if in every state the removals are no more than the blobs and slots
      and the count is below 2^64, and if and only if no operation wraps it. */
  lemma CountsCatalogsThroughout(start: Disk, ops: seq<Operation>)
    requires Fresh(start) && RunDefined(start, ops)
    ensures AlwaysCountsCatalogs(start, ops) <==> AlwaysInRange(start, ops)
    ensures AlwaysCountsCatalogs(start, ops) <==> CatalogCountNeverWraps(start, ops)
  {
    InRangeExactly(start, ops);
    hide Fresh, RunDefined, CountsCatalogs, AlwaysInRange, CatalogCountNeverWraps;
    if AlwaysCountsCatalogs(start, ops) { CountingNeverWraps(start, ops); }
    if CatalogCountNeverWraps(start, ops) {
      forall k: nat | k <= |ops|
        ensures CountsCatalogs(start, ops, k)
      {
        CountsWithoutWraps(start, ops, k);
      }
    }
  }

  lemma {:induction false} RepeatedIs(name: CString, times: nat, i: nat)
    requires i < times
    ensures RepeatRemove(name, times)[i] == Remove(name)
    decreases times
  {
    if i > 0 { RepeatedIs(name, times - 1, i - 1); }
  }

  /** On every disk a few removals of one name take CatalogCount below zero, with
      no allocation: one more than the blobs it was formatted with and the file. */
  lemma RemovalsTakeCountBelowZero(partition: CString, catalogs: nat, sectors: nat)
    requires Formattable(catalogs, sectors)
    ensures var start, ops := Formatted(partition, catalogs, sectors), CreateAndRemove("/ab", catalogs + 2);
            && RunDefined(start, ops) && |ops| == catalogs + 3 && ops[catalogs + 2] == Remove("/ab")
            && StateAt(start, ops, catalogs + 2).superBlock.catalogCount == 0
            && StateAt(start, ops, catalogs + 3).superBlock.catalogCount == TWO_64 - 1
  {
    var start, last := Formatted(partition, catalogs, sectors), catalogs + 2;
    var ops := CreateAndRemove("/ab", last);
    FormattedIsFresh(partition, catalogs, sectors);
    ManyRemovals(partition, catalogs, sectors, last);
    LastIsRemoval("/ab", last);
    hide CreateAndRemove, Formed, Lookup, Run, RunDefined, StateAt, Removals, Mod64, Step, Defined, AllocatesAt,
         Formatted;
    RemovalsAppend(ops, last);
    StateOfPrefix(start, ops, last + 1);
    StateKeepsFormed(start, ops, last);
    NextState(start, ops, last);
    StepSuperBlock(StateAt(start, ops, last), ops[last]);
    CatalogCountAt(start, ops, last);
    CatalogCountAt(start, ops, last + 1);
    assert CatalogTruth(start, ops, last) == 0 && CatalogTruth(start, ops, last + 1) == -1;
    ZeroAndBelow();
  }

  // What a file created once and then removed a number of times leaves behind.
  lemma ManyRemovals(partition: CString, catalogs: nat, sectors: nat, times: nat)
    requires Formattable(catalogs, sectors)
    ensures var start, ops := Formatted(partition, catalogs, sectors), CreateAndRemove("/ab", times);
            && RunDefined(start, ops) && Removals(ops) == times
            && |Run(start, ops).records| == 1 && Lookup(Run(start, ops), "/cd").None?
  {
    var start: Disk, name: CString, other: CString := Formatted(partition, catalogs, sectors), "/ab", "/cd";
    FormattedIsFormed(partition, catalogs, sectors);
    assert PrefixToSlash(name, 1) == 1 && |start.records| == 0 && start.superBlock.freeCatalog >= 1;
    assert Lookup(start, name).None? && Lookup(start, other).None?;
    hide Formed, Lookup, Run, RunDefined, CreateAndRemove, Removals, Formatted;
    CreateAndRemoveIsDefined(start, name, times, other);
  }

  lemma LastIsRemoval(name: CString, times: nat)
    requires times > 0 && name != "/"
    ensures var ops := CreateAndRemove(name, times);
            |ops| == times + 1 && ops[times] == Remove(name) && Removed1(ops[times]) == 1 && ops[..times + 1] == ops
  {
    RepeatedIs(name, times, times - 1);
  }

  lemma ZeroAndBelow()
    ensures Mod64(0) == 0 && Mod64(-1) == TWO_64 - 1
  {
  }

  lemma ChargedExactly(s: SuperBlock)
    requires s.freeSectors < TWO_64 && s.freeCatalog < TWO_64 && s.catalogCount < TWO_64
    ensures var s' := Charged(s);
            && s'.freeSectors == (if s.freeSectors == 0 then TWO_64 - 1 else s.freeSectors - 1)
            && s'.catalogCount == (if s.catalogCount == TWO_64 - 1 then 0 else s.catalogCount + 1)
            && (s.freeCatalog >= 1 ==> s'.freeCatalog == s.freeCatalog - 1)
  {
  }

  lemma RefundedExactly(s: SuperBlock)
    requires s.freeSectors < TWO_64 && s.catalogCount < TWO_64
    ensures var s' := Refunded(s);
            && s'.freeSectors == (if s.freeSectors == TWO_64 - 1 then 0 else s.freeSectors + 1)
            && s'.catalogCount == (if s.catalogCount == 0 then TWO_64 - 1 else s.catalogCount - 1)
            && s'.freeCatalog == s.freeCatalog
  {
  }

  lemma {:induction false} RunAppends(d: Disk, ops: seq<Operation>, op: Operation)
    requires RunDefined(d, ops) && Defined(Run(d, ops), op)
    ensures RunDefined(d, ops + [op]) && Run(d, ops + [op]) == Step(Run(d, ops), op)
    decreases |ops|
  {
    hide Step, Defined;
    if |ops| == 0 {
      assert ops + [op] == [op] && [op][1..] == [];
    } else {
      assert (ops + [op])[1..] == ops[1..] + [op];
      RunAppends(Step(d, ops[0]), ops[1..], op);
    }
  }

  lemma AllocationCharges(d: Disk, op: Operation)
    requires Defined(d, op) && AllocatesAt(d, op)
    ensures Step(d, op).superBlock == Charged(d.superBlock)
  {
    hide Lookup, NewCatalog, HasParent, Charged;
  }

  /** FreeSectors goes below zero in some run on every disk: one more file after
      enough removals. */
  lemma RunsCanGoBelowZero(partition: CString, catalogs: nat, sectors: nat)
    requires Formattable(catalogs, sectors)
    ensures var start := Formatted(partition, catalogs, sectors);
            var ops := CreateAndRemove("/ab", TWO_64 - sectors + 1) + [Create("/cd", 0, KIND_FILE)];
            RunDefined(start, ops) && Run(start, ops).superBlock.freeSectors == TWO_64 - 1
  {
    var start, removals := Formatted(partition, catalogs, sectors), CreateAndRemove("/ab", TWO_64 - sectors + 1);
    var create := Create("/cd", 0, KIND_FILE);
    RemovalsCanWrapFreeSectors(partition, catalogs, sectors);
    ManyRemovals(partition, catalogs, sectors, TWO_64 - sectors + 1);
    hide CreateAndRemove, Run, RunDefined, Formed, Lookup, NewCatalog, Step, Charged, AllocatesAt;
    var d := Run(start, removals);
    AbsentIsAllocated(d, "/cd");
    AllocationCharges(d, create);
    WrappedToTop(d.superBlock);
    RunAppends(start, removals, create);
  }

  lemma WrappedToTop(s: SuperBlock)
    requires s.freeSectors == 0
    ensures Charged(s).freeSectors == TWO_64 - 1
  {
  }

  lemma AbsentIsAllocated(d: Disk, name: CString)
    requires name == "/cd" && Lookup(d, name).None? && d.superBlock.freeCatalog >= 1
    ensures Defined(d, Create(name, 0, KIND_FILE)) && AllocatesAt(d, Create(name, 0, KIND_FILE))
  {
    assert PrefixToSlash(name, 1) == 1;
    hide Lookup;
  }
}
