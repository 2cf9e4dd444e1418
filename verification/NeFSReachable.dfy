/**
 What every volume reached from the formatted disk keeps: the superblock but for
 its three counters, and the links of the records to their parents.
 */
module NeFSReachable {
  import opened CStrings
  import opened NeFSLayout
  import opened NeFSRuns
  import opened NeFSVolume

  // ------------------------------------------------------------------
  // The superblock
  // ------------------------------------------------------------------

  // The two superblocks differ at most in the counters.
  predicate SameButCounters(s: SuperBlock, s': SuperBlock) {
    && s'.ident == s.ident && s'.partitionName == s.partitionName && s'.flags == s.flags && s'.kind == s.kind
    && s'.startCatalog == s.startCatalog && s'.diskSize == s.diskSize && s'.sectorCount == s.sectorCount
    && s'.sectorSize == s.sectorSize && s'.version == s.version
  }

  lemma StepKeepsSuperBlock(d: Disk, op: Operation)
    requires Formed(d) && Defined(d, op)
    ensures SameButCounters(d.superBlock, Step(d, op).superBlock)
  {
    hide Formed, Defined, Step, Allocates;
    StepSuperBlock(d, op);
  }

  lemma {:induction false} RunKeepsSuperBlock(d: Disk, ops: seq<Operation>)
    requires Formed(d) && RunDefined(d, ops)
    ensures SameButCounters(d.superBlock, Run(d, ops).superBlock)
    decreases |ops|
  {
    hide Formed, Step, Defined;
    if |ops| > 0 {
      StepKeepsFormed(d, ops[0]);
      StepKeepsSuperBlock(d, ops[0]);
      RunKeepsSuperBlock(Step(d, ops[0]), ops[1..]);
    }
  }

  /** Over every run from the formatted disk, each field of the superblock but the
      three counters keeps the value it was formatted with. */
  lemma ReachableSuperBlock(partition: CString, catalogs: nat, sectors: nat, ops: seq<Operation>)
    requires Formattable(catalogs, sectors)
    requires RunDefined(Formatted(partition, catalogs, sectors), ops)
    ensures var s := Run(Formatted(partition, catalogs, sectors), ops).superBlock;
            && s.ident == "   OFS" && s.partitionName == partition && s.flags == 15 && s.kind == 0xC0
            && s.startCatalog == 2560 && s.diskSize == sectors * 512 && s.sectorCount == sectors
            && s.sectorSize == 512 && s.version == 0x100
  {
    FormattedIsFormed(partition, catalogs, sectors);
    hide Formed, Run, RunDefined;
    RunKeepsSuperBlock(Formatted(partition, catalogs, sectors), ops);
  }

  /** The bootloader finds every reachable volume good if and only if the name
      given was not empty and a zero follows its ident in memory. */
  lemma ReachableIsHealthyExactly(partition: CString, catalogs: nat, sectors: nat, ops: seq<Operation>, past: char)
    requires Formattable(catalogs, sectors)
    requires RunDefined(Formatted(partition, catalogs, sectors), ops)
    ensures IsHealthy(Run(Formatted(partition, catalogs, sectors), ops).superBlock, sectors * 512, past)
            <==> partition != "" && past == '\0'
  {
    hide Run, RunDefined, Formatted;
    ReachableSuperBlock(partition, catalogs, sectors, ops);
  }

  // ------------------------------------------------------------------
  // Parents
  // ------------------------------------------------------------------

  /** The longest prefix of a name that ends in '/' and leaves at least two
      characters. */
  ghost predicate IsLinkedParent(name: CString, p: CString) {
    && |p| + 2 <= |name| && p == name[..|p|] && EndsInSlash(p)
    && forall i :: |p| <= i < |name| - 2 ==> name[i] != '/'
  }

  // Record k points back at its parent, when an earlier record bears that name,
  // and otherwise at the start of the chain. Its forks are empty.
  ghost predicate LinkFormed(d: Disk, k: nat) {
    var c := Record(d, k);
    && c.dataForkSize == 0 && c.resourceForkSize == 0
    && (exists p: CString :: IsLinkedParent(c.name, p))
    && forall p: CString :: IsLinkedParent(c.name, p) ==>
         && (forall j: nat :: j < k && Record(d, j).name == p ==> c.prevSibling == Address(j))
         && ((forall j: nat :: j < k ==> Record(d, j).name != p) ==> c.prevSibling == 2560)
  }

  ghost predicate LinksFormed(d: Disk) {
    forall k: nat :: k < |d.records| ==> LinkFormed(d, k)
  }

  lemma LinkedParentIsUnique(name: CString, p: CString, q: CString)
    requires IsLinkedParent(name, p) && IsLinkedParent(name, q)
    ensures p == q
  {
    assert p[|p| - 1] == name[|p| - 1] && q[|q| - 1] == name[|q| - 1];
  }

  lemma ScanFindsLinkedParent(name: CString)
    requires HasParent(name)
    ensures IsLinkedParent(name, ParentOf(name))
  {
  }

  // A link depends on the names of the slots before it only.
  lemma LinkDependsOnNames(d: Disk, d': Disk, k: nat)
    requires LinkFormed(d, k)
    requires forall j: nat :: j < k ==> Record(d', j).name == Record(d, j).name
    requires Record(d', k).name == Record(d, k).name && Record(d', k).prevSibling == Record(d, k).prevSibling
    requires Record(d', k).dataForkSize == 0 && Record(d', k).resourceForkSize == 0
    ensures LinkFormed(d', k)
  {
    hide Record, IsLinkedParent;
  }

  lemma NewLinkIsFormed(d: Disk, name: CString, flags: int, kind: int)
    requires Formed(d) && 0 < |name| < NAME_LENGTH && Allocates(d, name, kind) && HasParent(name)
    ensures LinkFormed(AfterCreate(d, name, flags, kind), |d.records|)
  {
    var d', n, parent := AfterCreate(d, name, flags, kind), |d.records|, ParentOf(name);
    CreateAppends(d, name, flags, kind, name);
    ScanFindsLinkedParent(name);
    LookupIsFirst(d, parent);
    assert d.superBlock.startCatalog == 2560;
    LookupIsOnly(d, parent);
    hide Formed, Lookup, AfterCreate, HasParent, ParentOf, IsLinkedParent, Allocates;
    forall p: CString | IsLinkedParent(name, p)
      ensures p == parent
    {
      LinkedParentIsUnique(name, p, parent);
    }
  }

  // On a formed volume only the slot found bears a name.
  lemma LookupIsOnly(d: Disk, name: CString)
    requires Formed(d)
    ensures forall j: nat :: j < |d.records| && Record(d, j).name == name ==>
                               Lookup(d, name).Some? && Lookup(d, name).value == j
  {
    forall j: nat | j < |d.records| && Record(d, j).name == name
      ensures Lookup(d, name).Some? && Lookup(d, name).value == j
    {
      LookupIsIndex(d, j);
    }
  }

  lemma StepKeepsLinks(d: Disk, op: Operation)
    requires Formed(d) && LinksFormed(d) && Defined(d, op)
    ensures LinksFormed(Step(d, op))
  {
    var d' := Step(d, op);
    match op
    case Create(name, flags, kind) =>
      if Allocates(d, name, kind) { CreateKeepsLinks(d, name, flags, kind); }
      hide Formed, LinksFormed, Allocates, AfterCreate;
    case Remove(name) =>
      if name != "/" { RemoveKeepsLinks(d, name); }
      hide Formed, LinksFormed, AfterRemove;
  }

  lemma CreateKeepsLinks(d: Disk, name: CString, flags: int, kind: int)
    requires Formed(d) && LinksFormed(d)
    requires 0 < |name| < NAME_LENGTH && Allocates(d, name, kind) && HasParent(name)
    ensures LinksFormed(AfterCreate(d, name, flags, kind))
  {
    var d', n := AfterCreate(d, name, flags, kind), |d.records|;
    CreateAppends(d, name, flags, kind, name);
    NewLinkIsFormed(d, name, flags, kind);
    hide Formed, AfterCreate, Allocates, HasParent, Lookup, NewCatalog;
    forall k: nat | k < n
      ensures LinkFormed(d', k)
    {
      assert LinkFormed(d, k);
      LinkDependsOnNames(d, d', k);
    }
    hide LinkFormed;
  }

  lemma RemoveKeepsLinks(d: Disk, name: CString)
    requires Formed(d) && LinksFormed(d) && name != "/" && Lookup(d, name).Some?
    ensures LinksFormed(AfterRemove(d, name))
  {
    var d' := AfterRemove(d, name);
    RemoveRewritesInPlace(d, name, name);
    RemoveSuperBlock(d, name);
    hide Formed, AfterRemove, Lookup;
    forall k: nat | k < |d.records|
      ensures LinkFormed(d', k)
    {
      assert LinkFormed(d, k);
      LinkDependsOnNames(d, d', k);
    }
    hide LinkFormed;
  }

  lemma {:induction false} RunKeepsLinks(d: Disk, ops: seq<Operation>)
    requires Formed(d) && LinksFormed(d) && RunDefined(d, ops)
    ensures LinksFormed(Run(d, ops))
    decreases |ops|
  {
    hide Formed, LinksFormed, Step, Defined;
    if |ops| > 0 {
      StepKeepsFormed(d, ops[0]);
      StepKeepsLinks(d, ops[0]);
      RunKeepsLinks(Step(d, ops[0]), ops[1..]);
    }
  }

  /** In every volume reached from the formatted disk, the previous sibling of each
      record is its parent's address, when a record before it bears the parent's
      name, and otherwise the start of the chain; both its forks are empty. */
  lemma ReachableLinks(partition: CString, catalogs: nat, sectors: nat, ops: seq<Operation>)
    requires Formattable(catalogs, sectors)
    requires RunDefined(Formatted(partition, catalogs, sectors), ops)
    ensures LinksFormed(Run(Formatted(partition, catalogs, sectors), ops))
  {
    FormattedIsFormed(partition, catalogs, sectors);
    hide Formed, Run, RunDefined;
    RunKeepsLinks(Formatted(partition, catalogs, sectors), ops);
  }
}
