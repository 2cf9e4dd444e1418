/**
 NeFileSystemParser: the catalog walk, creation and removal as the kernel runs
 them against the mounted drive, each proved against the volume model.
 */
module NeFSParser {
  import opened Arithmetic
  import opened CStrings
  import opened NeFSLayout
  import opened NeFSVolume
  import opened Options

  datatype ErrorCode = NoError | FileExists | FileNotFound | FileLocked | Internal

  /** The bootloader's formatter, over a disk that reads as zeros. */
  class BDiskFormatFactory {
    var disk: Disk
    const sectors: nat

    method Format(partition: CString, hasList: bool, catalogs: nat) returns (ok: bool)
      requires catalogs < TWO_64 && sectors * SECTOR_SIZE < TWO_64
      requires |partition| <= PART_LENGTH  // copied whole into the field
      requires disk.records == map[]
      modifies this`disk
      ensures ok <==> hasList && catalogs != 0 && sectors * 512 >= 0x1_0000_0000
      ensures !ok ==> disk == old(disk)
      ensures ok ==> disk == Disk(FormattedSuperBlock(partition, catalogs, sectors), map[])
      ensures ok ==> Formed(disk) && (IsHealthy(disk.superBlock, sectors * 512, '\0') <==> partition != "")
    {
      if !hasList || catalogs == 0 {
        return false;
      }
      if sectors * SECTOR_SIZE < MINIMUM_DISK_SIZE {
        return false;
      }
      disk := disk.(superBlock := FormattedSuperBlock(partition, catalogs, sectors));
      FormattedIsFormed(partition, catalogs, sectors);
      return true;
    }

    /** Whether the partition on the disk is good; past is the byte in memory
        behind the ident it is compared with. */
    method IsPartitionValid(past: char) returns (valid: bool)
      ensures valid <==> IsHealthy(disk.superBlock, sectors * 512, past)
    {
      var part := disk.superBlock;
      var ident: CString := "   OFS";
      for i := 0 to 8
        invariant forall j :: 0 <= j < i ==>
                    FieldByte(part.ident, j) == if j == 7 then past else FieldByte(ident, j)
      {
        if FieldByte(part.ident, i) != if i == 7 then past else FieldByte(ident, i) {
          assert !IsHealthy(part, sectors * SECTOR_SIZE, past);
          return false;
        }
      }
      if part.diskSize != sectors * SECTOR_SIZE || part.diskSize < 1 || part.sectorSize != SECTOR_SIZE
         || part.version != 0x100 || part.startCatalog == 0
      {
        return false;
      } else if FieldByte(part.partitionName, 0) == '\0' {
        return false;
      }
      return true;
    }
  }

  class NeFileSystemParser {
    var disk: Disk  // behind kMountpoint.A()
    var lastError: ErrorCode

    // ----------------------------------------------------------------
    // Drive transfers
    // ----------------------------------------------------------------

    method ReadCatalog(lba: nat, ghost k: nat) returns (c: Catalog)
      requires lba == Address(k)
      ensures c == Record(disk, k)
    {
      SlotOfAddress(k);
      c := Record(disk, (lba - CATALOG_START) / STRIDE);
    }

    method WriteCatalog(lba: nat, c: Catalog, ghost k: nat)
      requires lba == Address(k)
      modifies this`disk
      ensures disk == Disk(old(disk).superBlock, old(disk).records[k := c])
    {
      SlotOfAddress(k);
      disk := disk.(records := disk.records[(lba - CATALOG_START) / STRIDE := c]);
    }

    static lemma SlotOfAddress(k: nat)
      ensures (Address(k) - CATALOG_START) / STRIDE == k
    {
    }

    // ----------------------------------------------------------------
    // FindCatalog
    // ----------------------------------------------------------------

    /** Walks the sibling chain. On a formed volume the walk ends, and it is
        first-match lookup: hidden or not makes no difference, and an empty
        name leaves the caller's address alone. */
    method FindCatalog(name: CString, outLba: nat, searchHidden: bool)
      returns (catalog: Option<Catalog>, lba: nat)
      requires Formed(disk)
      modifies this`lastError
      ensures match Lookup(disk, name)
              case Some(k) => catalog == Some(Record(disk, k)) && lba == Address(k)
              case None => catalog == None && lba == if name == "" then outLba else 0
      ensures lastError == if name != "" && Lookup(disk, name).None? then FileNotFound else old(lastError)
    {
      if name == "" {
        assert forall k: nat :: k < |disk.records| ==> RecordFormed(disk, k) && Record(disk, k).name != name;
        LookupDetermined(disk, name, None);
        return None, outLba;
      }
      var part := disk.superBlock;
      var start := CATALOG_START;
      var error := lastError;
      ghost var k: nat := 0;
      while true
        invariant k <= |disk.records| && start == Address(k)
        invariant forall j: nat :: j < k ==> Record(disk, j).name != name
        invariant error == lastError == old(lastError)
        decreases |disk.records| - k
      {
        var temporary := ReadCatalog(start, k);
        assert k < |disk.records| ==> RecordFormed(disk, k);
        if temporary.name == name {
          DeletedLooksCreated(temporary);
          if temporary.status == STATUS_LOCKED && !searchHidden {
            error := FileLocked;
          } else if !IsCreated(temporary) {
            error := FileNotFound;
          } else {
            LookupDetermined(disk, name, Some(k));
            lastError := error;
            return Some(temporary), start;
          }
        }
        start := temporary.nextSibling;
        if start < part.startCatalog {
          break;
        }
        k := k + 1;
      }
      LookupDetermined(disk, name, None);
      lastError := FileNotFound;
      return None, 0;
    }

    method GetCatalog(name: CString) returns (catalog: Option<Catalog>)
      requires Formed(disk)
      modifies this`lastError
      ensures match Lookup(disk, name)
              case Some(k) => catalog == Some(Record(disk, k))
              case None => catalog == None
    {
      var unused;
      catalog, unused := FindCatalog(name, 0, true);
    }

    // ----------------------------------------------------------------
    // CreateCatalog
    // ----------------------------------------------------------------

    static method ZeroedCopy(name: CString) returns (buffer: array<char>)
      requires |name| < NAME_LENGTH
      ensures fresh(buffer) && buffer.Length == NAME_LENGTH
      ensures forall j :: 0 <= j < NAME_LENGTH ==> buffer[j] == if j < |name| then name[j] else '\0'
    {
      buffer := new char[NAME_LENGTH](_ => '\0');
      for i := 0 to |name|
        invariant forall j :: 0 <= j < NAME_LENGTH ==> buffer[j] == if j < i then name[j] else '\0'
      {
        buffer[i] := name[i];
      }
    }

    /** Cuts the path in a zeroed buffer back to its parent. */
    static method ParentName(name: CString) returns (parent: CString)
      requires |name| < NAME_LENGTH && HasParent(name)
      ensures parent == ParentOf(name)
    {
      var buffer := ZeroedCopy(name);
      ghost var length := PrefixToSlash(name, |name| - 2);
      hide IsCString, HasParent;
      var last := |name| - 1;
      buffer[last] := '\0';
      last := last - 1;
      buffer[last] := '\0';
      while buffer[last] != '/'
        invariant length - 1 <= last <= |name| - 2
        invariant forall j :: 0 <= j < NAME_LENGTH ==>
                    buffer[j] == if j < last || j == last < |name| - 2 then name[j] else '\0'
        decreases last
      {
        buffer[last] := '\0';
        last := last - 1;
      }
      assert last + 1 == length;
      assert buffer[..last + 1] == name[..length];
      TextOfPrefix(buffer[..], last + 1);
      parent := Text(buffer[..]);
    }

    // Writes a new record over the free slot read before, and charges the
    // superblock for it.
    method FillSlot(startFree: nat, temporary: Catalog, child: Catalog, ghost k: nat)
      requires startFree == Address(k)
      modifies this`disk
      ensures var fork := Sub64(old(disk).superBlock.diskSize, startFree);
              disk == Disk(Charged(old(disk).superBlock),
                           old(disk).records[k := child.(nextSibling := startFree + STRIDE,
                                                         dataFork := fork, resourceFork := fork)])
    {
      var part := disk.superBlock;
      var record := child.(nextSibling := startFree + STRIDE);
      WriteCatalog(startFree, temporary, k);
      record := record.(dataFork := Sub64(part.diskSize, startFree));
      record := record.(resourceFork := record.dataFork);
      WriteCatalog(startFree, record, k);
      var block := disk.superBlock;
      block := block.(freeSectors := Sub64(block.freeSectors, 1),
                      catalogCount := Add64(block.catalogCount, 1),
                      freeCatalog := Sub64(block.freeCatalog, 1));
      disk := disk.(superBlock := block);
    }

    /** Creates a catalog. The value returned for a creation is a copy of the
        slot as it was before: a blank record. */
    method CreateCatalog(name: CString, flags: int, kind: int) returns (catalog: Option<Catalog>)
      requires Formed(disk) && 0 < |name| < NAME_LENGTH
      requires WellSuffixed(name, kind) && Lookup(disk, name).None? ==> HasParent(name)
      modifies this
      ensures disk == AfterCreate(old(disk), name, flags, kind)
      ensures catalog == if Allocates(old(disk), name, kind) then Some(BLANK) else None
      ensures lastError == if !WellSuffixed(name, kind) then old(lastError)
                           else if Lookup(old(disk), name).Some? then FileExists else FileNotFound
    {
      if kind == KIND_DIRECTORY && name[|name| - 1] != '/' {
        return None;
      }
      if kind != KIND_DIRECTORY && name[|name| - 1] == '/' {
        return None;
      }

      var copy, outLba := FindCatalog(name, 0, true);
      if copy.Some? {
        lastError := FileExists;
        return None;
      }

      var parentName := ParentName(name);
      var parent;
      parent, outLba := FindCatalog(parentName, outLba, true);
      ParentIsDirectory(disk, name);
      if parent.Some? && parent.value.kind == KIND_FILE {
        assert false;  // "Parent is a file": a parent's name ends in '/'
      } else if parent.None? {
        outLba := disk.superBlock.startCatalog;
      }

      LookupIsFirst(disk, name);
      var child := Catalog(name, FLAG_CREATED, 0, flags % 0x1_0000, kind, 0, 0, 0, 0, outLba, outLba);
      ghost var k := if parent.Some? then Lookup(disk, parentName).value else 0;
      ghost var n := |disk.records|;
      var startFree := outLba;
      var part := disk.superBlock;
      var temporary := ReadCatalog(startFree, k);
      if part.freeCatalog < 1 {
        return None;
      }
      while startFree >= part.startCatalog
        invariant k <= n && startFree == Address(k)
        invariant temporary == Record(disk, k)
        invariant disk == old(disk) && lastError == FileNotFound
        decreases n - k
      {
        assert k < n ==> RecordFormed(disk, k);
        if !IsCreated(temporary) {
          assert k == n by { if k < n { DeletedLooksCreated(temporary); } }
          FillSlot(startFree, temporary, child, k);
          return Some(temporary);
        } else if IsCreated(temporary) && temporary.name == name {
          assert false;  // no allocated slot bears the name
        }
        k := k + 1;
        startFree := startFree + STRIDE;
        temporary := ReadCatalog(startFree, k);
      }
      assert false;  // the walk stays at or above the start of the chain
    }

    /** The one-argument form creates a file. */
    method CreateFile(name: CString) returns (catalog: Option<Catalog>)
      requires Formed(disk) && 0 < |name| < NAME_LENGTH
      requires !EndsInSlash(name) && Lookup(disk, name).None? ==> HasParent(name)
      modifies this
      ensures disk == AfterCreate(old(disk), name, 0, KIND_FILE)
      ensures catalog == if Allocates(old(disk), name, KIND_FILE) then Some(BLANK) else None
    {
      catalog := CreateCatalog(name, 0, KIND_FILE);
    }

    // ----------------------------------------------------------------
    // RemoveCatalog
    // ----------------------------------------------------------------

    /** Marks a catalog as deleted. A name that does not exist is dereferenced
        as a null record by the original, so it must exist. */
    method RemoveCatalog(name: CString) returns (ok: bool)
      requires Formed(disk)
      requires name != "/" ==> Lookup(disk, name).Some?
      modifies this
      ensures ok <==> name != "/"
      ensures disk == AfterRemove(old(disk), name)
      ensures lastError == if name == "/" then Internal else old(lastError)
    {
      if name == "/" {
        lastError := Internal;
        return false;
      }
      var found, outLba := FindCatalog(name, 0, true);
      var catalog := found.value;
      if outLba >= CATALOG_START || IsCreated(catalog) {
        catalog := catalog.(flags := catalog.flags & !FLAG_CREATED);
        catalog := catalog.(flags := catalog.flags | FLAG_DELETED);
        WriteCatalog(outLba, catalog, Lookup(disk, name).value);
        var block := disk.superBlock;
        block := block.(catalogCount := Sub64(block.catalogCount, 1));
        block := block.(freeSectors := Add64(block.freeSectors, 1));
        disk := disk.(superBlock := block);
        return true;
      }
      assert false;  // a found record lies at or above the start
    }
  }
}
