/** Sizes, addresses and constants of the NeFS catalog area. */
module NeFSLayout {
  import opened Arithmetic

  const NAME_LENGTH := 256
  const PART_LENGTH := 32

  const CATALOG_SIZE: nat := NAME_LENGTH + 200 + 3 * 2 + 4 + 6 * 8
  const SUPER_BLOCK_SIZE: nat := 8 + PART_LENGTH + 2 * 4 + 9 * 8 + 392

  const SECTOR_SIZE: nat := 512
  const SUPER_BLOCK_ADDRESS: nat := 1024
  const CATALOG_START: nat := 2048 + SUPER_BLOCK_SIZE
  const STRIDE: nat := 4 * CATALOG_SIZE

  const MINIMUM_DISK_SIZE: nat := 4 * 1024 * 1024 * 1024

  const FLAG_DELETED: bv16 := 70
  const FLAG_CREATED: bv16 := 71

  const KIND_FILE := 1
  const KIND_DIRECTORY := 2

  const STATUS_LOCKED := 0x19

  // Byte address of record k.
  function Address(k: nat): nat { CATALOG_START + STRIDE * k }

  // A drive transfer of size bytes at an address moves these whole sectors.
  function FirstSector(lba: nat): nat { lba / SECTOR_SIZE }

  function SectorsMoved(size: nat): nat { (size + SECTOR_SIZE) / SECTOR_SIZE }

  predicate SectorsOverlap(lba: nat, size: nat, lba': nat, size': nat) {
    && FirstSector(lba) < FirstSector(lba') + SectorsMoved(size')
    && FirstSector(lba') < FirstSector(lba) + SectorsMoved(size)
  }

  /** Records are not aligned on sectors, yet no transfer of one record touches
      a sector of another record or of the superblock. */
  lemma TransfersAreDisjoint(i: nat, j: nat)
    ensures SectorsOverlap(Address(i), CATALOG_SIZE, Address(j), CATALOG_SIZE) <==> i == j
    ensures !SectorsOverlap(Address(i), CATALOG_SIZE, SUPER_BLOCK_ADDRESS, SUPER_BLOCK_SIZE)
  {
    if i < j {
      assert Address(j) >= Address(i) + STRIDE;
    } else if j < i {
      assert Address(i) >= Address(j) + STRIDE;
    }
  }

  /** A formatted disk of this many sectors has room for every record the free
      catalog count admits and for the blank one after the last. */
  lemma RecordsFit(sectors: nat, k: nat)
    requires MINIMUM_DISK_SIZE <= sectors * SECTOR_SIZE
    requires k <= sectors / CATALOG_SIZE
    ensures Address(k) + CATALOG_SIZE <= sectors * SECTOR_SIZE
    ensures FirstSector(Address(k)) + SectorsMoved(CATALOG_SIZE) <= sectors
  {
  }

  // The drive's registers take a sector number of 28 bits.
  const ADDRESSABLE_SECTORS: nat := 0x1000_0000

  lemma AddressableExactly(k: nat)
    ensures FirstSector(Address(k)) + SectorsMoved(CATALOG_SIZE) <= ADDRESSABLE_SECTORS <==> k <= 66_847_738
  {
  }

  /** Every record the free catalog count admits, and the blank one after the
      last, is transferred at its full sector number if and only if the disk has
      fewer than 2^35 - 522 sectors. */
  lemma TransfersAreAddressable(sectors: nat)
    ensures (forall k: nat :: k <= sectors / CATALOG_SIZE ==>
               FirstSector(Address(k)) + SectorsMoved(CATALOG_SIZE) <= ADDRESSABLE_SECTORS)
            <==> sectors < 0x8_0000_0000 - 522
  {
    var last := sectors / CATALOG_SIZE;
    assert last <= 66_847_738 <==> sectors < 0x8_0000_0000 - 522;
    AddressableExactly(last);
    forall k: nat | k <= last && last <= 66_847_738
      ensures FirstSector(Address(k)) + SectorsMoved(CATALOG_SIZE) <= ADDRESSABLE_SECTORS
    {
      AddressableExactly(k);
    }
    hide Address, FirstSector, SectorsMoved;
  }

  // Unsigned 64-bit arithmetic.
  function Mod64(x: int): (r: nat)
    ensures r < TWO_64
  {
    x % TWO_64
  }

  function Add64(a: int, b: int): nat { Mod64(a + b) }

  function Sub64(a: int, b: int): nat { Mod64(a - b) }

  lemma Mod64Shift(x: int, y: int, z: int)
    requires Mod64(x) == Mod64(y)
    ensures Mod64(x + z) == Mod64(y + z)
  {
    var q := x / TWO_64 - y / TWO_64;
    assert x + z == (y + z) + q * TWO_64;
  }

  lemma Mod64Twice(x: int)
    ensures Mod64(Mod64(x)) == Mod64(x)
  {
  }

  // One counter gives what the other takes.
  lemma Mod64Carry(x: int, y: int)
    ensures Mod64(Mod64(x + 1) + Mod64(y - 1)) == Mod64(x + y)
    ensures Mod64(Mod64(y - 1) + Mod64(x + 1)) == Mod64(x + y)
    ensures Mod64(Mod64(x)) == Mod64(x)
  {
    hide Mod64;
    Mod64Twice(x);
    Mod64Twice(x + 1);
    Mod64Twice(y - 1);
    Mod64Shift(Mod64(x + 1), x + 1, Mod64(y - 1));
    Mod64Shift(Mod64(y - 1), y - 1, x + 1);
  }
}
