/**
 A mounted NeFS volume: the superblock and the catalog records on the disk,
 what creating and removing a catalog does to it, and the invariant that
 every reachable volume satisfies.
 */
module NeFSVolume {
  import opened Arithmetic
  import opened CStrings
  import opened NeFSLayout
  import opened Options

  datatype Catalog = Catalog(
    name: CString, flags: bv16, status: nat, catalogFlags: nat, kind: int,
    dataForkSize: nat, resourceForkSize: nat, dataFork: nat, resourceFork: nat,
    nextSibling: nat, prevSibling: nat)

  // A zeroed record.
  const BLANK := Catalog("", 0, 0, 0, 0, 0, 0, 0, 0, 0, 0)

  datatype SuperBlock = SuperBlock(
    ident: CString, partitionName: CString, flags: int, kind: int,
    startCatalog: nat, catalogCount: nat, diskSize: nat, freeCatalog: nat, freeSectors: nat,
    sectorCount: nat, sectorSize: nat, version: nat)

  // Records by slot number: record k lies at byte Address(k). A slot that was
  // never written reads as zeros.
  datatype Disk = Disk(superBlock: SuperBlock, records: map<nat, Catalog>)

  function Record(d: Disk, k: nat): Catalog {
    if k in d.records then d.records[k] else BLANK
  }

  // Both deletion and creation leave this test true: 70 and 71 share bits.
  predicate IsCreated(c: Catalog) { c.flags & FLAG_CREATED != 0 }

  predicate EndsInSlash(name: CString) { |name| > 0 && name[|name| - 1] == '/' }

  // ------------------------------------------------------------------
  // The formatted disk
  // ------------------------------------------------------------------

  function FormattedSuperBlock(partition: CString, catalogs: nat, sectors: nat): SuperBlock {
    SuperBlock("   OFS", partition, 15, 0xC0, CATALOG_START, catalogs, sectors * SECTOR_SIZE,
               sectors / CATALOG_SIZE, sectors, sectors, 512, 0x100)
  }

  predicate Formattable(catalogs: nat, sectors: nat) {
    && 0 < catalogs < TWO_64
    && MINIMUM_DISK_SIZE <= sectors * SECTOR_SIZE < TWO_64
  }

  // Byte i of a zero-padded field that holds a string.
  function FieldByte(s: CString, i: nat): char { if i < |s| then s[i] else '\0' }

  /** What the bootloader asks of a volume on a disk of some size. Its ident has
      seven bytes with the terminator and is compared with eight: past is the
      byte in memory behind it. */
  predicate IsHealthy(s: SuperBlock, size: nat, past: char) {
    && (forall i :: 0 <= i < 7 ==> FieldByte(s.ident, i) == FieldByte("   OFS", i)) && FieldByte(s.ident, 7) == past
    && s.diskSize == size >= 1 && s.sectorSize == 512 && s.version == 0x100 && s.startCatalog != 0
    && s.partitionName != ""
  }

  // ------------------------------------------------------------------
  // First-match lookup
  // ------------------------------------------------------------------

  function LookupFrom(d: Disk, name: CString, k: nat): (slot: Option<nat>)
    ensures slot.Some? ==> k <= slot.value < |d.records| && Record(d, slot.value).name == name
    decreases |d.records| - k
  {
    if k >= |d.records| then None
    else if Record(d, k).name == name then Some(k)
    else LookupFrom(d, name, k + 1)
  }

  /** The lowest slot that bears the name. */
  function Lookup(d: Disk, name: CString): (slot: Option<nat>)
    ensures slot.Some? ==> slot.value < |d.records| && Record(d, slot.value).name == name
  {
    LookupFrom(d, name, 0)
  }

  lemma {:induction false} LookupFromIsFirst(d: Disk, name: CString, k: nat)
    requires k <= |d.records|
    ensures var slot := LookupFrom(d, name, k);
            forall j :: k <= j < (if slot.Some? then slot.value else |d.records|) ==> Record(d, j).name != name
    decreases |d.records| - k
  {
    if k < |d.records| && Record(d, k).name != name {
      LookupFromIsFirst(d, name, k + 1);
    }
  }

  /** No slot before the one found bears the name, and none at all when none is found. */
  lemma LookupIsFirst(d: Disk, name: CString)
    ensures var slot := Lookup(d, name);
            forall j :: 0 <= j < (if slot.Some? then slot.value else |d.records|) ==> Record(d, j).name != name
  {
    LookupFromIsFirst(d, name, 0);
  }

  /** First-match lookup is determined by its meaning. */
  lemma LookupDetermined(d: Disk, name: CString, slot: Option<nat>)
    requires slot.Some? ==> slot.value < |d.records| && Record(d, slot.value).name == name
    requires forall j :: 0 <= j < (if slot.Some? then slot.value else |d.records|) ==> Record(d, j).name != name
    ensures Lookup(d, name) == slot
  {
    LookupIsFirst(d, name);
  }

  // ------------------------------------------------------------------
  // The parent of a path
  // ------------------------------------------------------------------

  // Length of the longest prefix of name[..k] that ends in '/'.
  function PrefixToSlash(name: CString, k: nat): (length: nat)
    requires k <= |name|
    ensures length <= k
    ensures length > 0 ==> name[length - 1] == '/'
    ensures forall i :: length <= i < k ==> name[i] != '/'
  {
    if k == 0 then 0 else if name[k - 1] == '/' then k else PrefixToSlash(name, k - 1)
  }

  // The scan starts two characters before the end and runs off the buffer
  // when there is no separator further left.
  predicate HasParent(name: CString) {
    |name| >= 2 && PrefixToSlash(name, |name| - 2) > 0
  }

  function ParentOf(name: CString): (parent: CString)
    requires HasParent(name)
    ensures EndsInSlash(parent) && |parent| < |name|
  {
    name[..PrefixToSlash(name, |name| - 2)]
  }

  ghost predicate IsLongestParent(name: CString, parent: CString) {
    && EndsInSlash(parent) && |parent| < |name| && parent == name[..|parent|]
    && forall i :: |parent| <= i < |name| - 1 ==> name[i] != '/'
  }

  /** The scan finds the longest proper prefix that ends in '/' exactly when
      the character before the last is not a separator. */
  lemma ParentIsLongest(name: CString)
    requires HasParent(name)
    ensures IsLongestParent(name, ParentOf(name)) <==> name[|name| - 2] != '/'
  {
    var parent := ParentOf(name);
    assert name[|name| - 2] == '/' ==> |parent| <= |name| - 2;
  }

  /** With a separator before the last character the scan passes over it. */
  lemma ScanSkipsSeparator()
    ensures HasParent("/a/b") && ParentOf("/a/b") == "/" && !IsLongestParent("/a/b", ParentOf("/a/b"))
  {
    var name: CString := "/a/b";
    assert PrefixToSlash(name, 0) == 0 && PrefixToSlash(name, 1) == 1 && PrefixToSlash(name, 2) == 1;
    assert name[..1] == "/";
    ParentIsLongest(name);
  }

  // ------------------------------------------------------------------
  // What creating and removing do
  // ------------------------------------------------------------------

  // A directory path ends in a separator and no other path does.
  predicate WellSuffixed(name: CString, kind: int) {
    EndsInSlash(name) <==> kind == KIND_DIRECTORY
  }

  predicate Allocates(d: Disk, name: CString, kind: int) {
    WellSuffixed(name, kind) && Lookup(d, name).None? && d.superBlock.freeCatalog >= 1
  }

  function PreviousSibling(d: Disk, name: CString): nat
    requires HasParent(name)
  {
    match Lookup(d, ParentOf(name))
    case Some(k) => Address(k)
    case None => d.superBlock.startCatalog
  }

  function NewCatalog(d: Disk, name: CString, flags: int, kind: int): Catalog
    requires HasParent(name)
  {
    var address := Address(|d.records|);
    var fork := Sub64(d.superBlock.diskSize, address);
    Catalog(name, FLAG_CREATED, 0, flags % 0x1_0000, kind, 0, 0, fork, fork,
            address + STRIDE, PreviousSibling(d, name))
  }

  // The counters after an allocation and after a removal.
  function Charged(s: SuperBlock): SuperBlock {
    s.(freeSectors := Sub64(s.freeSectors, 1), catalogCount := Add64(s.catalogCount, 1),
       freeCatalog := Sub64(s.freeCatalog, 1))
  }

  function Refunded(s: SuperBlock): SuperBlock {
    s.(catalogCount := Sub64(s.catalogCount, 1), freeSectors := Add64(s.freeSectors, 1))
  }

  function AfterCreate(d: Disk, name: CString, flags: int, kind: int): Disk
    requires Allocates(d, name, kind) ==> HasParent(name)
  {
    if !Allocates(d, name, kind) then d else
      Disk(Charged(d.superBlock),
           d.records[|d.records| := NewCatalog(d, name, flags, kind)])
  }

  function Removed(c: Catalog): Catalog {
    c.(flags := (c.flags & !FLAG_CREATED) | FLAG_DELETED)
  }

  function AfterRemove(d: Disk, name: CString): Disk
    requires name != "/" ==> Lookup(d, name).Some?
  {
    if name == "/" then d else
      var k := Lookup(d, name).value;
      Disk(Refunded(d.superBlock),
           d.records[k := Removed(Record(d, k))])
  }

  // ------------------------------------------------------------------
  // The invariant
  // ------------------------------------------------------------------

  predicate RecordFormed(d: Disk, k: nat) {
    var c := Record(d, k);
    && (c.flags == FLAG_CREATED || c.flags == FLAG_DELETED) && c.status == 0
    && c.nextSibling == Address(k + 1)
    && 0 < |c.name| < NAME_LENGTH && WellSuffixed(c.name, c.kind)
    && c.dataFork == d.superBlock.diskSize - Address(k) == c.resourceFork
  }

  ghost predicate NamesDiffer(d: Disk) {
    forall i, j :: 0 <= i < j < |d.records| ==> Record(d, i).name != Record(d, j).name
  }

  predicate GeometryFormed(d: Disk) {
    var s := d.superBlock;
    && s.startCatalog == CATALOG_START
    && s.diskSize == s.sectorCount * SECTOR_SIZE
    && MINIMUM_DISK_SIZE <= s.diskSize < TWO_64
    && s.freeCatalog + |d.records| == s.sectorCount / CATALOG_SIZE
  }

  /** The allocated slots are 0..n-1, chained in order, distinctly and properly
      named; everything after them is blank; the free catalog count is exact. */
  ghost predicate Formed(d: Disk) {
    && GeometryFormed(d)
    && (forall k: nat :: k in d.records <==> k < |d.records|)
    && (forall k: nat :: k < |d.records| ==> RecordFormed(d, k))
    && NamesDiffer(d)
  }

  lemma FormattedIsFormed(partition: CString, catalogs: nat, sectors: nat)
    requires Formattable(catalogs, sectors)
    ensures Formed(Disk(FormattedSuperBlock(partition, catalogs, sectors), map[]))
  {
  }

  /** A deleted record still passes the created test. */
  lemma DeletedLooksCreated(c: Catalog)
    requires c.flags == FLAG_CREATED || c.flags == FLAG_DELETED
    ensures IsCreated(c)
    ensures Removed(c) == c.(flags := FLAG_DELETED)
  {
  }

  lemma NewCatalogIsFormed(d: Disk, name: CString, flags: int, kind: int)
    requires Formed(d) && 0 < |name| < NAME_LENGTH
    requires Allocates(d, name, kind) && HasParent(name)
    ensures RecordFormed(AfterCreate(d, name, flags, kind), |d.records|)
  {
    RecordsFit(d.superBlock.sectorCount, |d.records|);
    hide Lookup, LookupFrom, PreviousSibling, HasParent, NamesDiffer;
  }

  // The slots before a new one are as they were.
  lemma OldSlotsKept(d: Disk, name: CString, flags: int, kind: int, k: nat)
    requires Formed(d) && Allocates(d, name, kind) && HasParent(name) && k < |d.records|
    ensures var d' := AfterCreate(d, name, flags, kind);
            RecordFormed(d', k) && Record(d', k) == Record(d, k)
  {
    assert RecordFormed(d, k);
    hide NewCatalog, Lookup, LookupFrom, NamesDiffer, PrefixToSlash;
  }

  lemma NewNameDiffers(d: Disk, name: CString, flags: int, kind: int)
    requires Formed(d) && Allocates(d, name, kind) && HasParent(name)
    ensures NamesDiffer(AfterCreate(d, name, flags, kind))
  {
    var d' := AfterCreate(d, name, flags, kind);
    LookupIsFirst(d, name);
    assert Record(d', |d.records|).name == name && |d'.records| == |d.records| + 1;
    forall k: nat | k < |d.records|
      ensures Record(d', k) == Record(d, k)
    {
      OldSlotsKept(d, name, flags, kind, k);
    }
    hide Formed, NewCatalog, Lookup, LookupFrom, Record, AfterCreate;
  }

  lemma CreateGeometry(d: Disk, name: CString, flags: int, kind: int)
    requires Formed(d) && Allocates(d, name, kind) && HasParent(name)
    ensures var d' := AfterCreate(d, name, flags, kind);
            && GeometryFormed(d') && |d'.records| == |d.records| + 1
            && forall k: nat :: k in d'.records <==> k < |d'.records|
  {
    hide NamesDiffer, RecordFormed, NewCatalog, Lookup, LookupFrom, PrefixToSlash;
  }

  lemma CreateKeepsFormed(d: Disk, name: CString, flags: int, kind: int)
    requires Formed(d) && 0 < |name| < NAME_LENGTH
    requires Allocates(d, name, kind) ==> HasParent(name)
    ensures Formed(AfterCreate(d, name, flags, kind))
  {
    if Allocates(d, name, kind) {
      CreateGeometry(d, name, flags, kind);
      hide NamesDiffer, RecordFormed, GeometryFormed, AfterCreate, HasParent, Allocates;
      NewCatalogIsFormed(d, name, flags, kind);
      NewNameDiffers(d, name, flags, kind);
      forall k: nat | k < |d.records|
        ensures RecordFormed(AfterCreate(d, name, flags, kind), k)
      {
        OldSlotsKept(d, name, flags, kind, k);
      }
    }
  }

  lemma RemoveKeepsFormed(d: Disk, name: CString)
    requires Formed(d) && (name != "/" ==> Lookup(d, name).Some?)
    ensures Formed(AfterRemove(d, name))
  {
    if name != "/" {
      var d' := AfterRemove(d, name);
      forall k: nat | k < |d'.records|
        ensures RecordFormed(d', k)
        ensures Record(d', k).name == Record(d, k).name
      {
        assert RecordFormed(d, k);
        DeletedLooksCreated(Record(d, k));
      }
    }
  }

  // ------------------------------------------------------------------
  // What a formed volume promises
  // ------------------------------------------------------------------

  /** On a formed volume lookup inverts the naming of slots. */
  lemma LookupIsIndex(d: Disk, k: nat)
    requires Formed(d) && k < |d.records|
    ensures Lookup(d, Record(d, k).name) == Some(k)
  {
    hide RecordFormed;
    LookupDetermined(d, Record(d, k).name, Some(k));
  }

  /** Every record lies inside the disk with its sectors, and so does the blank
      record that ends the chain; the data fork offset did not wrap. */
  lemma RecordsStayInside(d: Disk, k: nat)
    requires Formed(d) && k <= |d.records|
    ensures Address(k) + CATALOG_SIZE <= d.superBlock.diskSize
    ensures FirstSector(Address(k)) + SectorsMoved(CATALOG_SIZE) <= d.superBlock.sectorCount
    ensures Sub64(d.superBlock.diskSize, Address(k)) == d.superBlock.diskSize - Address(k)
  {
    RecordsFit(d.superBlock.sectorCount, k);
  }

  /** A parent that exists is a directory, so no create is refused for having a
      file as its parent. */
  lemma ParentIsDirectory(d: Disk, name: CString)
    requires Formed(d) && HasParent(name)
    ensures match Lookup(d, ParentOf(name))
            case Some(k) => Record(d, k).kind == KIND_DIRECTORY
            case None => true
  {
    match Lookup(d, ParentOf(name))
    case Some(k) => assert RecordFormed(d, k);
    case None =>
  }

  /** A create that allocates appends one slot: the new name is found there with
      its kind, and every other lookup and record is as before. */
  lemma CreateAppends(d: Disk, name: CString, flags: int, kind: int, other: CString)
    requires Formed(d) && 0 < |name| < NAME_LENGTH
    requires Allocates(d, name, kind) && HasParent(name)
    ensures var d' := AfterCreate(d, name, flags, kind);
            && |d'.records| == |d.records| + 1
            && Lookup(d', name) == Some(|d.records|)
            && Record(d', |d.records|) == NewCatalog(d, name, flags, kind)
            && (other != name ==> Lookup(d', other) == Lookup(d, other))
            && forall k: nat :: k != |d.records| ==> Record(d', k) == Record(d, k)
  {
    var d' := AfterCreate(d, name, flags, kind);
    assert forall k: nat :: k != |d.records| ==> Record(d', k) == Record(d, k);
    CreateKeepsFormed(d, name, flags, kind);
    LookupIsIndex(d', |d.records|);
    LookupIsFirst(d, other);
    hide Formed, NewCatalog, Allocates, HasParent;
    if other != name { LookupDetermined(d', other, Lookup(d, other)); }
  }

  /** A remove rewrites one record in place, changing only its flags to the
      deleted mark; every lookup, that of the removed name included, still
      finds the same slot. */
  lemma RemoveRewritesInPlace(d: Disk, name: CString, other: CString)
    requires Formed(d) && name != "/" && Lookup(d, name).Some?
    ensures var d' := AfterRemove(d, name);
            var k := Lookup(d, name).value;
            && Lookup(d', other) == Lookup(d, other)
            && Record(d', k) == Record(d, k).(flags := FLAG_DELETED)
            && forall j: nat :: j != k ==> Record(d', j) == Record(d, j)
  {
    var k, d' := Lookup(d, name).value, AfterRemove(d, name);
    assert RecordFormed(d, k);
    DeletedLooksCreated(Record(d, k));
    assert forall j: nat :: Record(d', j).name == Record(d, j).name;
    LookupIsFirst(d, other);
    hide Formed;
    LookupDetermined(d', other, Lookup(d, other));
  }
}
