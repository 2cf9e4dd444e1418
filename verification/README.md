# OpenNE: verified models

OpenNE is a microkernel and bootloader. This project models the self-contained
algorithms among its hardware plumbing and proves what they promise:

- **NeFS catalogs** (`NeFSLayout`, `NeFSVolume`, `NeFSRuns`, `NeFSFreeSpace`,
  `NeFSReachable`, `NeFSParser`).
  A mounted volume is a superblock and a map from slot numbers to catalog
  records; record k lies at byte 2560 + 2056 k. `NeFSParser` runs the walk, the
  creation and the removal as the kernel does, statement by statement, and each
  method is proved against the functions of `NeFSVolume`. `NeFSRuns` proves
  what holds over every run from the disk the bootloader formats: the chain is
  formed, records stay inside the disk, the counters are conserved, and the
  whole refines a plain bounded directory. `NeFSFreeSpace` says exactly when the
  counters are right and when they go below zero, `NeFSReachable` what every
  reachable volume keeps.
- **The CRC-32C digest** (`Crc32Table`, `PolynomialDivision`, `Crc32`). The
  digest of section 12.1 of RFC 3720 is defined by schoolbook long division of
  polynomials; the table-driven loop is proved equal to it for every length,
  and affinity and burst detection follow, with the exact condition for
  bursts one bit above the bound.
- **StringToLong and the digit printers** (`StringToLong`, `NumberPrinting`).
  The parser is proved to take the longest subject sequence in the sense of
  section 7.22.1.4 of ISO/IEC 9899:2011, for every NUL-terminated string, every
  base and every width of `long`; the printers write numerals, and printing and
  parsing undo each other.
- **The process scheduler** (`SchedulerModel`, `Scheduler`). 32 slots, 8 cores;
  one `Run` per timer tick. The exact dispatch times and counts over unbounded
  runs follow from what one Run does to a slot, and the classes are proved to
  do just that.
- **The flat JSON reader** (`JsonReader`) and the **bitmap allocator**
  (`WordMemory`, `BitMapModel`, `BitMapLists`, `BitMapMgr`), over memory made of
  bytes.

`Arithmetic` holds the few laws of products, quotients and remainders that the
other modules share.

Code that updates state in the repository is a class or a method with loops
here, proved against a specification function; the lemmas are about those
functions. A few methods are split into named parts: the prefix, the digits and
one digit of `StringToLong`, the slot that `CreateCatalog` fills, the walk of
`FindBitMap`, one core of `Switch`, one slot of `Run`.

Some properties one would expect do not hold of the code on all inputs. Each is
proved with the exact condition under which it does:

- `FreeSectors >= FreeCatalog` fails on some runs: a removed catalog can be
  removed again, each time adding a free sector, until the 64-bit count wraps.
  Call sectors - slots + removals the true count. In one state the inequality
  holds if and only if the true count modulo 2^64 covers the slots left
  (`NeFSFreeSpace.CoversExactly`); it holds in every state of a run if and only
  if in every state the true count is below 2^64 or no slot is left
  (`NeFSFreeSpace.CoversThroughout`).
- `CatalogCount` is the true number of catalogs (blobs + slots - removals) in
  every state of a run if and only if in every state the removals are no more
  than the blobs and slots and the number is below 2^64, and if and only if no
  operation wraps it (`NeFSFreeSpace.CountsCatalogsThroughout`).
- Of the three counters, an operation takes `FreeSectors` below zero exactly when
  it allocates a catalog while the true count of free sectors is a multiple of
  2^64, `CatalogCount` exactly when it removes one while the true number of
  catalogs is a multiple of 2^64, and `FreeCatalog` never
  (`NeFSFreeSpace.BelowZeroExactly`). Both happen on every disk: for `CatalogCount`
  one file removed two times more than there were blobs is enough
  (`NeFSFreeSpace.RemovalsTakeCountBelowZero`), for `FreeSectors` it takes some 2^64 removals
  (`NeFSFreeSpace.RunsCanGoBelowZero`).
- The bootloader finds a reachable volume good if and only if the partition name
  given to `Format` was not empty and a zero byte follows its ident in memory:
  the check compares eight bytes of a text that has seven with its terminator
  (`NeFSReachable.ReachableIsHealthyExactly`).
- The parent of a path is its longest proper prefix that ends in `/` if and only
  if the character before the last is not `/` (`NeFSVolume.ParentIsLongest`).
  With it, as in `/a/b`, the scan, which starts by clearing two characters,
  passes over the separator (`NeFSVolume.ScanSkipsSeparator`).
- `_write_number` and `hex_number` do not print a sign, so parsing undoes them
  if and only if the number is not negative (`NumberPrinting.DecimalRoundTrip`,
  `NumberPrinting.HexRoundTrip`).
- A printed JSON object of C strings is read back if and only if it has a pair,
  no key holds a `:`, no value a `,` or a `}`, and none of them a line end
  (`JsonReader.ObjectReadsExactly`). The empty object reads as a key `}`, and a
  key `a:b` ends at its colon (`JsonReader.EmptyObjectReadsAsKey`,
  `JsonReader.ColonEndsKey`).
- A burst of errors is always detected within 32 bits. Within 33 it is missed if
  and only if it is the pattern of the divisor
  (`Crc32.LongerBurstIsDetected`, `Crc32.MissedAtEveryBit`).
- Where `char` is signed, the index of the CRC loop stays in the table if and only
  if the byte is below 0x80 (`Crc32.SignedIndexStaysInTable`).
- All records of a volume, and the blank one that ends the chain, are transferred
  at sector numbers the drive's registers can hold if and only if the disk has
  fewer than 2^35 - 522 sectors (`NeFSLayout.TransfersAreAddressable`).
- Blocks of one size keep their headers over every run if and only if a block
  has room for a header (`BitMapModel.HeadersKeptExactly`).
- Over blocks of several sizes, an allocation leaves every block its size if and
  only if it takes the frontier or a block of the size requested
  (`BitMapLists.StaysListedExactly`); what it hands out overlaps another block if
  and only if it takes a smaller block that is not the last
  (`BitMapLists.OverlapsExactly`).
- A slot that sleeps through the Run on which its countdown has run out is not
  dispatched for the next 2^64 - 1 Runs (`SchedulerModel.SleeperMissesItsTurn`).

## Model

| member | source | states |
|---|---|---|
| NeFSLayout.TransfersAreDisjoint | dev/Kernel/HALKit/AMD64/Storage/ATA.cc:107-118 | the sectors transferred for two records overlap exactly when the records are the same, and never reach the superblock's sectors, although records are not sector-aligned |
| NeFSLayout.AddressableExactly | dev/Kernel/HALKit/AMD64/Storage/ATA.cc:116-123 | the sectors of record k have 28-bit numbers if and only if k is at most 66847738 |
| NeFSLayout.TransfersAreAddressable | dev/Kernel/HALKit/AMD64/Storage/ATA.cc:116-123 | the sectors of every record that the free catalog count admits, and of the blank one after the last, have 28-bit numbers if and only if the disk has fewer than 2^35 - 522 sectors |
| NeFSLayout.RecordsFit | dev/Kernel/FSKit/OpenNeFS.h:94-95 | every record that a free catalog count of sectors / 514 admits, and the one after the last, lies with its sectors inside a disk of the minimum size or more |
| NeFSVolume.FormattedIsFormed | dev/Boot/BootKit/BootKit.h:340-359 | the superblock that the bootloader writes over a zeroed disk satisfies the volume invariant |
| NeFSVolume.LookupIsFirst | dev/Kernel/src/FS/OpenNeFS.cc:786-829 | no slot before the one lookup answers bears the name, and none at all when it answers none |
| NeFSVolume.LookupDetermined | dev/Kernel/src/FS/OpenNeFS.cc:786-829 | being the first slot of that name determines the answer |
| NeFSVolume.ParentIsLongest | dev/Kernel/src/FS/OpenNeFS.cc:286-298 | the backward scan finds the longest proper prefix that ends in a separator if and only if the character before the last is not one |
| NeFSVolume.ScanSkipsSeparator | dev/Kernel/src/FS/OpenNeFS.cc:286-298 | the parent found for /a/b is / and not the longest one |
| NeFSVolume.ParentIsDirectory | dev/Kernel/src/FS/OpenNeFS.cc:300-312 | a parent that exists is a directory, so "Parent is a file" is never met |
| NeFSVolume.DeletedLooksCreated | dev/Kernel/FSKit/OpenNeFS.h:106-108 | removal leaves the flags at 70, on which the created test still succeeds |
| NeFSVolume.CreateKeepsFormed | dev/Kernel/src/FS/OpenNeFS.cc:232-443 | a create keeps the invariant: slots 0 to n-1 chained in order, distinctly and properly named, the free catalog count exact, all later slots blank |
| NeFSVolume.RemoveKeepsFormed | dev/Kernel/src/FS/OpenNeFS.cc:872-925 | a remove keeps the invariant |
| NeFSVolume.LookupIsIndex | dev/Kernel/src/FS/OpenNeFS.cc:786-829 | on a formed volume, looking up the name in slot k answers k |
| NeFSVolume.RecordsStayInside | dev/Kernel/src/FS/OpenNeFS.cc:364-386 | the free catalog guard keeps every record and its sectors inside the disk, and the data fork offset DiskSize - start_free does not wrap |
| NeFSVolume.CreateAppends | dev/Kernel/src/FS/OpenNeFS.cc:343-439 | a create that allocates adds exactly one slot; the new name is found there, every other name is found where it was, every other record is unchanged (what the new record holds: RecordFormed by CreateKeepsFormed, kind and flags by NeFSRuns.StepRefinesDirectory, links by NeFSReachable.NewLinkIsFormed) |
| NeFSVolume.RemoveRewritesInPlace | dev/Kernel/src/FS/OpenNeFS.cc:884-918 | a remove changes one record, and of it only the flags; every lookup, that of the removed name included, answers as before |
| NeFSRuns.StepKeepsFormed | dev/Kernel/src/FS/OpenNeFS.cc:232-443 | either operation keeps the invariant and the disk's geometry |
| NeFSRuns.RunKeepsFormed | dev/Kernel/src/FS/OpenNeFS.cc:232-443 | so does every run of operations |
| NeFSRuns.ReachableVolumesAreFormed | dev/Boot/BootKit/BootKit.h:340-359 | every volume reached from the formatted disk satisfies the invariant, and start + 2056 k + 514 never exceeds DiskSize |
| NeFSRuns.CountersAreConserved | dev/Kernel/src/FS/OpenNeFS.cc:405-409 | over every run FreeSectors + CatalogCount modulo 2^64 and FreeCatalog + slots keep their values, and FreeSectors is right modulo 2^64 |
| NeFSRuns.StepCounters | dev/Kernel/src/FS/OpenNeFS.cc:913-916 | the same for one operation |
| NeFSRuns.ReachableCounters | dev/Boot/BootKit/BootKit.h:345-354 | the counters of every reachable volume in terms of sectors, slots and removals |
| NeFSRuns.FreeSectorsCoverFreeCatalogs | dev/Kernel/src/FS/OpenNeFS.cc:405-409 | FreeSectors is the true count if and only if the true count is below 2^64, and then covers FreeCatalog |
| NeFSRuns.RemovalsCanWrapFreeSectors | dev/Kernel/src/FS/OpenNeFS.cc:913-916 | on every formattable disk some run ends with no free sectors but free catalogs |
| NeFSRuns.RemovingAgainIsDefined | dev/Kernel/src/FS/OpenNeFS.cc:872-925 | a removed name can be removed any number of times, without a slot being added or lost and with every lookup as before |
| NeFSRuns.DistinctNames | dev/Kernel/src/FS/OpenNeFS.cc:252-263 | k slots bear k different names |
| NeFSRuns.DirectorySize | dev/Kernel/src/FS/OpenNeFS.cc:364-370 | a formed volume shows as many directory entries as it has slots, so FreeCatalog bounds the directory |
| NeFSRuns.StepRefinesDirectory | dev/Kernel/src/FS/OpenNeFS.cc:232-443 | on names, kinds and flags an operation acts as on a bounded map from names to entries in which removed names stay, marked |
| NeFSRuns.RunRefinesDirectory | dev/Kernel/src/FS/OpenNeFS.cc:232-443 | so does every run from a formed volume |
| NeFSRuns.ReachableVolumesRefineDirectory | dev/Kernel/src/FS/OpenNeFS.cc:709-844 | over every run from the formatted disk the chain answers lookups as a directory that starts empty would |
| NeFSReachable.StepKeepsSuperBlock | dev/Kernel/src/FS/OpenNeFS.cc:398-411 | either operation changes no field of the superblock but the three counters |
| NeFSReachable.RunKeepsSuperBlock | dev/Kernel/src/FS/OpenNeFS.cc:398-411 | nor does any run |
| NeFSReachable.ReachableSuperBlock | dev/Boot/BootKit/BootKit.h:340-354 | over every run from the formatted disk, ident, partition name, flags 15, kind 0xC0, start 2560, disk size, sectors, sector size 512 and version 0x100 are as formatted |
| NeFSReachable.ReachableIsHealthyExactly | dev/Boot/BootKit/BootKit.h:232-268 | every reachable volume is found good if and only if the partition name given was not empty and a zero byte follows the ident in memory |
| NeFSReachable.NewLinkIsFormed | dev/Kernel/src/FS/OpenNeFS.cc:300-341 | a new record points back at the record that bears its parent's name, or at the start of the chain when none does, with empty forks |
| NeFSReachable.StepKeepsLinks | dev/Kernel/src/FS/OpenNeFS.cc:300-341 | either operation keeps such links |
| NeFSReachable.RunKeepsLinks | dev/Kernel/src/FS/OpenNeFS.cc:300-341 | so does every run |
| NeFSReachable.ReachableLinks | dev/Kernel/src/FS/OpenNeFS.cc:327-341 | in every reachable volume PrevSibling of each record is the address of the earlier record named by the longest prefix of its name that ends in a separator and leaves two characters, and 2560 when there is none; both fork sizes are 0 |
| NeFSFreeSpace.FormattedIsFresh | dev/Boot/BootKit/BootKit.h:340-359 | a formatted volume has no slots, all its sectors free and its blobs as catalog count |
| NeFSFreeSpace.StateCounters | dev/Kernel/src/FS/OpenNeFS.cc:405-409 | in every state of a run FreeSectors is the true count modulo 2^64, and the true count covers FreeCatalog |
| NeFSFreeSpace.CoversExactly | dev/Kernel/src/FS/OpenNeFS.cc:405-409 | in a state of a run FreeSectors >= FreeCatalog if and only if the true count modulo 2^64 is at least the slots left |
| NeFSFreeSpace.CoversThroughout | dev/Kernel/src/FS/OpenNeFS.cc:405-409 | FreeSectors >= FreeCatalog in every state of a run if and only if in every state the true count is below 2^64 or FreeCatalog is 0 |
| NeFSFreeSpace.FirstCarry | dev/Kernel/src/FS/OpenNeFS.cc:913-916 | a true count that passes 2^64 was equal to it in an earlier state of the run |
| NeFSFreeSpace.CatalogCountAt | dev/Kernel/src/FS/OpenNeFS.cc:913-916 | in every state of a run CatalogCount is blobs + slots - removals modulo 2^64 |
| NeFSFreeSpace.CountsCatalogsExactly | dev/Kernel/src/FS/OpenNeFS.cc:913-916 | in a state of a run CatalogCount is right if and only if the removals are no more than the blobs and slots and the count is below 2^64 |
| NeFSFreeSpace.CountsCatalogsThroughout | dev/Kernel/src/FS/OpenNeFS.cc:405-409 | CatalogCount is right in every state of a run if and only if that holds in every state, and if and only if no operation wraps it |
| NeFSFreeSpace.StepBelowZero | dev/Kernel/src/FS/OpenNeFS.cc:872-925 | on a formed volume an allocation takes FreeSectors below zero exactly from zero, a removal CatalogCount, and nothing FreeCatalog |
| NeFSFreeSpace.BelowZeroExactly | dev/Kernel/src/FS/OpenNeFS.cc:405-409 | for any operation of a run and all three counters: FreeSectors goes below zero if and only if the operation allocates while the true count of free sectors is 0 modulo 2^64, CatalogCount if and only if it removes while the true count of catalogs is, FreeCatalog never |
| NeFSFreeSpace.RemovalsTakeCountBelowZero | dev/Kernel/src/FS/OpenNeFS.cc:913-916 | on every formattable disk, a file is created and then removed again and again; removal number blobs + 2 takes CatalogCount from 0 to 2^64 - 1 |
| NeFSFreeSpace.RunsCanGoBelowZero | dev/Kernel/src/FS/OpenNeFS.cc:405-409 | on every formattable disk some run leaves FreeSectors at 2^64 - 1 |
| NeFSParser.BDiskFormatFactory.Format | dev/Boot/BootKit/BootKit.h:318-397 | formats exactly when there are blobs and the disk has 4 GiB; leaves a formed volume, good exactly when it has a name, or the disk as it was |
| NeFSParser.BDiskFormatFactory.IsPartitionValid | dev/Boot/BootKit/BootKit.h:232-268 | good exactly when ident, disk size, sector size 512, version 0x100, start and name are as they should be |
| NeFSParser.NeFileSystemParser.FindCatalog | dev/Kernel/src/FS/OpenNeFS.cc:709-844 | the sibling walk ends and is first-match lookup: a copy of the record and its address, or nothing, address 0 and error "not found" |
| NeFSParser.NeFileSystemParser.GetCatalog | dev/Kernel/src/FS/OpenNeFS.cc:849-853 | the record that first-match lookup answers |
| NeFSParser.NeFileSystemParser.ParentName | dev/Kernel/src/FS/OpenNeFS.cc:265-298 | the buffer loop leaves the parent's path |
| NeFSParser.NeFileSystemParser.FillSlot | dev/Kernel/src/FS/OpenNeFS.cc:375-409 | writes the new record with its sibling address and fork offsets, and charges the three counters |
| NeFSParser.NeFileSystemParser.CreateCatalog | dev/Kernel/src/FS/OpenNeFS.cc:232-443 | the walk to a free slot ends; the disk becomes the specified one, the error code is set by case, and neither the file parent nor the duplicate name branch is reached |
| NeFSParser.NeFileSystemParser.CreateFile | dev/Kernel/src/FS/OpenNeFS.cc:220-223 | creates a file with no flags |
| NeFSParser.NeFileSystemParser.RemoveCatalog | dev/Kernel/src/FS/OpenNeFS.cc:872-925 | refuses the root with an internal error, otherwise leaves the specified disk |
| Crc32Table.CrcTable | dev/Kernel/src/Crc32.cc:15-67 | each of the 256 literal entries is eight steps of the reflected division by 0x82F63B78 |
| Crc32.CalculateCrc32 | dev/Kernel/src/Crc32.cc:73-82 | for every length the loop returns the digest of polynomial division |
| Crc32.ByteStepIsDivision | dev/Kernel/src/Crc32.cc:77-78 | one table lookup is eight steps of the division |
| Crc32.FoldIsFeed | dev/Kernel/src/Crc32.cc:77-78 | the loop state is the division register after all bits, from any state |
| Crc32.TableLoopIsPolynomialDivision | dev/Kernel/src/Crc32.cc:73-82 | the value returned is the CRC-32C digest, presets and complements included |
| Crc32.FoldConcat | dev/Kernel/src/Crc32.cc:77-78 | the state after a concatenation is the state of the second part started from that of the first |
| Crc32.FoldIsLinear | dev/Kernel/src/Crc32.cc:77-78 | the loop is linear in state and buffer together |
| Crc32.DigestIsAffine | dev/Kernel/src/Crc32.cc:73-82 | crc(a) xor crc(b) xor crc(c) is crc(a xor b xor c) over equal lengths |
| Crc32.BurstIsDetected | dev/Kernel/src/Crc32.cc:73-82 | different buffers that agree outside some 32 consecutive bits have different digests |
| Crc32.FourByteWindowIsDetected | dev/Kernel/src/Crc32.cc:73-82 | buffers of equal length that differ only inside at most four bytes have different digests, whatever surrounds them |
| Crc32.LongerBurstIsDetected | dev/Kernel/src/Crc32.cc:73-82 | buffers that agree outside 33 consecutive bits have the same digest if and only if they are the same or differ there by the divisor |
| Crc32.MissedAtEveryBit | dev/Kernel/src/Crc32.cc:73-82 | for any 33 consecutive bits of any buffer, another buffer differs there only and has the same digest |
| Crc32.DigestKeepsParity | dev/Kernel/src/Crc32.cc:73-82 | the digest has an odd number of ones if and only if the buffer has |
| Crc32.OddErrorIsDetected | dev/Kernel/src/Crc32.cc:73-82 | buffers of equal length that differ in an odd number of bits, wherever they are, have different digests |
| Crc32.SignedIndexStaysInTable | dev/Kernel/src/Crc32.cc:78 | for every state, the index computed with a signed char lies in 0..255, and is the unsigned one, if and only if the byte is below 0x80; otherwise it is negative |
| Crc32.BytesOfCoefficients | dev/Kernel/src/Crc32.cc:73-82 | every polynomial of a multiple of eight coefficients is that of a buffer |
| Crc32.CoefficientsAreInjective | dev/Kernel/src/Crc32.cc:73-82 | buffers with the same coefficients are the same |
| PolynomialDivision.RegisterIsRemainder | dev/Kernel/src/Crc32.cc:75-78 | a shift register fed the message holds the remainder of long division |
| PolynomialDivision.FeedIsLinear | dev/Kernel/src/Crc32.cc:77-78 | the register is linear |
| PolynomialDivision.FeedIsInjective | dev/Kernel/src/Crc32.cc:77-78 | different registers stay different under the same input |
| PolynomialDivision.AllAtOnce | dev/Kernel/src/Crc32.cc:77-78 | up to 32 bits may be added to the register at once, as the table index does with eight |
| PolynomialDivision.BurstChangesRegister | dev/Kernel/src/Crc32.cc:77-78 | messages that differ inside a window of at most 32 bits leave different registers |
| PolynomialDivision.ClearedByDivisor | dev/Kernel/src/Crc32.cc:77-78 | of all messages of 33 bits only zero and the divisor leave an empty register empty |
| PolynomialDivision.LongerBurst | dev/Kernel/src/Crc32.cc:77-78 | messages that differ inside a window of 33 bits leave one register if and only if they differ by the divisor |
| PolynomialDivision.FeedParity | dev/Kernel/src/Crc32.cc:77-78 | the parity of the register changes by the parity of what is fed |
| StringToLong.Convert | dev/Boot/BootKit/Support.h:69-173 | an invalid base gives 0 and stores nothing; a valid one gives the specified value and, if wanted, end; the value does not depend on an end pointer being wanted or on char being signed |
| StringToLong.SkipSpaces | dev/Boot/BootKit/Support.h:85-86 | moves past the leading spaces |
| StringToLong.SkipPrefix | dev/Boot/BootKit/Support.h:85-131 | reads spaces, sign and base prefix as specified |
| StringToLong.AddDigit | dev/Boot/BootKit/Support.h:155-160 | adds a digit unless the result exceeds the limit, without wrapping |
| StringToLong.AccumulateDigits | dev/Boot/BootKit/Support.h:133-162 | accumulates the maximal digit run, reports overflow exactly when its value exceeds the limit, and n * base + c never wraps |
| StringToLong.CutoffTest | dev/Boot/BootKit/Support.h:133-160 | the cutoff and cutlim test is exact |
| StringToLong.LoopDigitIsDigit | dev/Boot/BootKit/Support.h:139-147 | the character arithmetic accepts exactly the digits of the base, with their values, for signed and unsigned char |
| StringToLong.DigitsAre | dev/Boot/BootKit/Support.h:139-147 | the digits are '0' to '9' and from 10 on the letters in both cases |
| StringToLong.SignForms | dev/Boot/BootKit/Support.h:88-95 | a plus sign changes nothing and a minus sign negates |
| StringToLong.HexForms | dev/Boot/BootKit/Support.h:103-120 | hexadecimal digits may follow 0x or 0X in bases 16 and 0 |
| StringToLong.BinaryForms | dev/Boot/BootKit/Support.h:107-124 | binary digits may follow 0b or 0B in bases 2 and 0 |
| StringToLong.PlainForms | dev/Boot/BootKit/Support.h:125-131 | otherwise base 0 is octal after a zero and decimal without |
| StringToLong.ClampIsSaturation | dev/Boot/BootKit/Support.h:167-172 | saturation and the unsigned negation together clamp the signed value to [kLongMin, kLongMax] |
| StringToLong.MagnitudeOfPrefix | dev/Boot/BootKit/Support.h:98-131 | which prefixes of the text after the sign are numerals, and of what value |
| StringToLong.SubjectOfPrefix | dev/Boot/BootKit/Support.h:85-131 | which prefixes of the text after the spaces are subject sequences, and of what value |
| StringToLong.ScanCases | dev/Boot/BootKit/Support.h:164-172 | without a digit the value is 0 and the end is the start or the character after a lone 0 |
| StringToLong.ScanIsLongestSubject | dev/Boot/BootKit/Support.h:69-173 | of all prefixes after the spaces the longest subject sequence is taken: its value clamped to a long, the end just past it; 0 and the start when there is none |
| NumberPrinting.WritesNumeral | dev/Kernel/KernelKit/DebugOutput.h:95-121 | the recursion appends the decimal numeral of the absolute value |
| NumberPrinting.WritesHexNumeral | dev/Kernel/KernelKit/DebugOutput.h:123-149 | the recursion appends the hexadecimal numeral of the absolute value |
| NumberPrinting.NumeralCharacters | dev/Kernel/KernelKit/DebugOutput.h:141 | numerals are written in '0' to '9' and the capitals 'A' to 'F' |
| NumberPrinting.ToCharIs | dev/Kernel/src/Utils.cc:156-160 | the character of the remainder, in numbers |
| NumberPrinting.NumeralParses | dev/Boot/BootKit/Support.h:69-173 | parsing a numeral in its base gives the number, clamped, and ends where the text after it begins |
| NumberPrinting.DecimalRoundTrip | dev/Kernel/KernelKit/DebugOutput.h:95-121 | parsing what _write_number printed gives the number back if and only if it is not negative, and consumes it all |
| NumberPrinting.HexRoundTrip | dev/Kernel/KernelKit/DebugOutput.h:152-160 | parsing what hex_number printed gives the number back if and only if it is not negative, with the end pointer at the trailing h |
| NumberPrinting.TurnRotates | dev/Kernel/src/Utils.cc:179-182 | one turn moves the digit of weight a to the end, for any weights |
| NumberPrinting.RotatedStep | dev/Kernel/src/Utils.cc:179-182 | turn j+1 takes (N mod 10^(D-j)) 10^j + N div 10^(D-j) to the same expression for j+1 |
| NumberPrinting.RotatedLastDigit | dev/Kernel/src/Utils.cc:179-182 | the last digit after j turns is digit j of the number |
| NumberPrinting.NumeralDigit | dev/Kernel/src/Utils.cc:179-182 | character j of a numeral is the quotient by its weight, modulo 10 |
| NumberPrinting.RotatedDigitIsNumeral | dev/Kernel/src/Utils.cc:156-182 | the character written on turn k+1 is character k of the numeral |
| NumberPrinting.CountDigits | dev/Kernel/src/Utils.cc:172-177 | counts the digits beyond the first, and their weight fits a 32-bit int below 10^10 |
| NumberPrinting.ToString | dev/Kernel/src/Utils.cc:162-192 | below 10^10, writes the rotated digits reduced by any limit, for limit 10 the decimal numeral, and nothing after them; where a NUL follows, the text in the buffer parses to the number and is consumed |
| NumberPrinting.ToStringRoundTrip | dev/Kernel/src/Utils.cc:162-192 | the C string in a buffer that holds a numeral and a NUL parses to the number, for every width that holds it |
| SchedulerModel.ChoiceIsStable | dev/Kernel/src/UserProcessScheduler.cc:538-578 | switching never changes which core is chosen next; there is one exactly when core 0 is reserved or a later core is neither boot nor invalid |
| SchedulerModel.SameKindsSameChoice | dev/Kernel/src/UserProcessScheduler.cc:540-544 | only the kinds of the cores decide |
| SchedulerModel.ChosenCore | dev/Kernel/src/UserProcessScheduler.cc:540-544 | the lowest core that is neither boot nor invalid once core 0 has been indexed |
| SchedulerModel.ChosenCoreExactly | dev/Kernel/src/UserProcessScheduler.cc:540-544 | core 0 is chosen if and only if it is reserved, and a later core if and only if it is neither boot nor invalid and no core before it can be chosen |
| SchedulerModel.FreshCoresUseCoreOne | dev/Kernel/src/HardwareThreadScheduler.cc:170-186 | among fresh cores, core 0 becomes the boot core and core 1 takes the processes |
| SchedulerModel.SwitchedGives | dev/Kernel/src/UserProcessScheduler.cc:546-575 | a switch leaves the chosen core with the process's frame, number and, if accepted, time, and busy exactly when it was refused; no other core is touched beyond marking the boot core |
| SchedulerModel.LastDispatchStays | dev/Kernel/src/UserProcessScheduler.cc:437-463 | however many slots one Run dispatches, all go to the same core, which is left with the last of them |
| SchedulerModel.RunsFollowCountdown | dev/Kernel/src/UserProcessScheduler.cc:437-463 | after n Runs the countdown of a running slot is a closed form of its start, the affinity and n, and nothing else changed |
| SchedulerModel.TeamDispatchTimes | dev/Kernel/src/UserProcessScheduler.cc:424-466 | within the team, over any events that leave the slot awake, the Run after r Runs dispatches a running slot with countdown p and affinity a exactly when r + 1 is p + 1 or a multiple of a + 1 later, and the dispatches so far have the closed form |
| SchedulerModel.AwakeSlotsOnlyRun | dev/Kernel/src/UserProcessScheduler.cc:98-102 | waking a running slot changes nothing |
| SchedulerModel.DispatchTimes | dev/Kernel/src/UserProcessScheduler.cc:437-463 | what each Run does to one running slot: it is dispatched on Run p+1 and then exactly every a+1 Runs |
| SchedulerModel.DispatchCount | dev/Kernel/src/UserProcessScheduler.cc:437-463 | the number of dispatches of one running slot over any n Runs, in closed form |
| SchedulerModel.Periods | dev/Kernel/KernelKit/UserProcessScheduler.h:55-62 | the periods by affinity: 251, 201, 1001, 1501 and 2001 Runs |
| SchedulerModel.SleeperMissesItsTurn | dev/Kernel/src/UserProcessScheduler.cc:459-462 | a slot asleep on the Run its countdown has run out is next dispatched 2^64 Runs later |
| SchedulerModel.CountdownIgnoresStatus | dev/Kernel/src/UserProcessScheduler.cc:461 | over any Wake calls and Runs the countdown falls by one per Run, whatever the status, and nothing is dispatched while it lasts |
| SchedulerModel.WakesSetStatus | dev/Kernel/src/UserProcessScheduler.cc:98-102 | the status afterwards is what the last Wake left |
| SchedulerModel.FirstDispatchAfterSpawn | dev/Kernel/src/UserProcessScheduler.cc:364-366 | from Spawn the first 1000 Runs never dispatch; the 1001st does exactly when the last Wake left the slot running and it has code and a name |
| SchedulerModel.SlotsAreIndependent | dev/Kernel/src/UserProcessScheduler.cc:437-463 | over any Spawns, Wakes and Runs of the team a slot that is not spawned anew goes through exactly the events that concern it, is dispatched as they say, and no process is lost while a core is usable |
| SchedulerModel.FirstDispatchInTeam | dev/Kernel/src/UserProcessScheduler.cc:283-466 | the first dispatch after Spawn, for a slot among others: none in 1000 Runs of the team, and the exact condition at the 1001st |
| SchedulerModel.SpawnTouchesOneSlot | dev/Kernel/src/UserProcessScheduler.cc:283-372 | Spawn leaves every other slot as it was, and of its own the affinity |
| SchedulerModel.AffinitiesStay | dev/Kernel/src/UserProcessScheduler.cc:437-463 | no event of the team changes an affinity |
| SchedulerModel.SpawnDispatchTimes | dev/Kernel/src/UserProcessScheduler.cc:283-466 | a named process with code and standard affinity, woken within 1000 Runs of Spawn and awake from then on, is dispatched on Run r from Spawn if and only if r >= 1001 and (r - 1001) mod 1001 is 0, with the closed count |
| SchedulerModel.StandardTeamDispatchTimes | dev/Kernel/src/UserProcessScheduler.cc:283-466 | the same after any events of a team that began with standard affinities |
| SchedulerModel.VisitOne | dev/Kernel/src/UserProcessScheduler.cc:437-463 | one turn of the loop advances the partly visited team by one slot |
| SchedulerModel.VisitAll | dev/Kernel/src/UserProcessScheduler.cc:437-463 | visiting every slot is one Run of the team |
| SchedulerModel.VisitTeam | dev/Kernel/src/UserProcessScheduler.cc:437-463 | visiting one slot is one step of the team and keeps the choice of a core |
| SchedulerModel.VisitedIsRun | dev/Kernel/src/UserProcessScheduler.cc:437-463 | the loop over the slots is one Run of the team, and leaves cores and stack frames as the dispatches in slot order do |
| SchedulerModel.FramesHoldContexts | dev/Kernel/src/HardwareThreadScheduler.cc:117-121 | each dispatched slot's frame holds its image and stack top unless a later dispatch shares the frame |
| SchedulerModel.OtherFramesKept | dev/Kernel/src/HardwareThreadScheduler.cc:117-121 | every address that is no dispatched slot's frame holds what it held |
| Scheduler.HardwareThread.Wake | dev/Kernel/src/HardwareThreadScheduler.cc:101-104 | sets the wake-up mark only |
| Scheduler.HardwareThread.Busy | dev/Kernel/src/HardwareThreadScheduler.cc:84-87 | sets the busy mark only |
| Scheduler.HardwareThread.IsBusy | dev/Kernel/src/HardwareThreadScheduler.cc:62-75 | stays busy until the shared timer passes the thread's time, which also restarts the timer |
| Scheduler.HardwareThread.Switch | dev/Kernel/src/HardwareThreadScheduler.cc:112-125 | takes stack and process and stores image and stack top in the frame, unless busy, when all stay; succeeds when not busy and the process is accepted; advances the shared timer |
| Scheduler.HardwareThreadScheduler.constructor | dev/Kernel/KernelKit/HardwareThreadScheduler.h:73-78 | eight distinct standard cores |
| Scheduler.HardwareThreadScheduler.At | dev/Kernel/src/HardwareThreadScheduler.cc:170-186 | indexing core 0 makes it the boot core unless reserved; past the last core the thread is null; nothing else changes |
| Scheduler.HardwareThreadScheduler.SwitchTo | dev/Kernel/src/UserProcessScheduler.cc:538-578 | succeeds exactly when there is a core to choose; changes that core only, beyond marking the boot core, and the frame |
| Scheduler.HardwareThreadScheduler.SwitchThread | dev/Kernel/src/UserProcessScheduler.cc:553-573 | a refused switch restores the time and leaves the core busy; either way the core is no longer awake and the frame is written |
| Scheduler.UserProcess.constructor | dev/Kernel/src/UserProcessTeam.cc:20-21 | a killed process without code and without a process number |
| Scheduler.UserProcess.Wake | dev/Kernel/src/UserProcessScheduler.cc:98-102 | running or frozen, nothing else |
| Scheduler.UserProcess.Begin | dev/Kernel/src/UserProcessScheduler.cc:293-366 | what Spawn stores: name, code, image, frame, stack, number, status starting, countdown 1000; the affinity stays |
| Scheduler.UserProcess.Crash | dev/Kernel/src/UserProcessScheduler.cc:55-62 | a running process finishes and loses code, image, frame and number, but not name, affinity or countdown; any other is left alone |
| Scheduler.UserProcess.MayRun | dev/Kernel/src/UserProcessScheduler.cc:499-517 | exactly a running process (or one with the status count) with code, a name and no countdown left |
| Scheduler.UserProcessScheduler.constructor | dev/Kernel/src/UserProcessTeam.cc:16-25 | 32 killed slots of standard affinity, no process, core 1 the one to choose |
| Scheduler.UserProcessScheduler.Spawn | dev/Kernel/src/UserProcessScheduler.cc:283-372 | takes the slot numbered by the count, with the name, code, image and frame given, a countdown of 1000, not yet running; every affinity and every other process is unchanged |
| Scheduler.UserProcessScheduler.WakeProcess | dev/Kernel/src/UserProcessScheduler.cc:98-102 | changes the status of one slot of the team |
| Scheduler.UserProcessScheduler.CrashSlot | dev/Kernel/src/UserProcessScheduler.cc:455-456 | a crash of a running process takes it off the count and clears its code and frame |
| Scheduler.UserProcessScheduler.Charge | dev/Kernel/src/UserProcessScheduler.cc:445 | charges the slot its affinity and nothing else |
| Scheduler.UserProcessScheduler.SwitchSlot | dev/Kernel/src/UserProcessScheduler.cc:450-453 | gives the slot's frame, number and time to the chosen core and its context to the frame; fails exactly when no core can be chosen |
| Scheduler.UserProcessScheduler.CountDown | dev/Kernel/src/UserProcessScheduler.cc:459-462 | the countdown falls by one modulo 2^64, nothing else changes |
| Scheduler.UserProcessScheduler.RunSlot | dev/Kernel/src/UserProcessScheduler.cc:437-463 | one slot of a Run changes slots, count, cores and frames as specified |
| Scheduler.UserProcessScheduler.VisitSlots | dev/Kernel/src/UserProcessScheduler.cc:437-463 | the loop visits the 32 slots in order |
| Scheduler.UserProcessScheduler.Run | dev/Kernel/src/UserProcessScheduler.cc:424-466 | one Run ticks all 32 slots, or does nothing for an empty team; with a usable core no process crashes, without one every running process that is dispatched does; the cores are left as the dispatches in slot order leave them; with a usable core each dispatched slot's frame that no later one shares holds its code as base and the last byte of its 8 MiB stack as top, and no other frame changes |
| Scheduler.UserProcessScheduler.RunTeam | dev/Kernel/src/UserProcessScheduler.cc:424-466 | the same by team, cores and the memory behind the frames |
| JsonReader.In | dev/Kernel/NewKit/Json.h:78-147 | on every text of at most 4096 characters no write leaves the buffers, and they hold what the specification reads, zeros after it |
| JsonReader.Read | dev/Kernel/NewKit/Json.h:84-98 | a document exactly for texts that start with a brace or bracket, and key length plus value length below the text length |
| JsonReader.PrintedObjectReads | dev/Kernel/NewKit/Json.h:102-142 | reading the printed form of one or more plain pairs gives the keys and the values, each ended by NUL |
| JsonReader.SplitInvertsJoined | dev/Kernel/NewKit/Json.h:102-142 | splitting NUL-ended strings recovers them |
| JsonReader.ObjectRoundTrip | dev/Kernel/NewKit/Json.h:78-147 | splitting the two buffers at NUL recovers the pairs |
| JsonReader.EmptyObjectReadsAsKey | dev/Kernel/NewKit/Json.h:125-141 | the empty object reads as the key `}` |
| JsonReader.ObjectReadsExactly | dev/Kernel/NewKit/Json.h:78-147 | for all pairs of C strings, the printed object reads as its keys and values if and only if there is a pair, no key holds a colon, no value a comma or closing brace, and none a line end |
| JsonReader.FeedAllIsClean | dev/Kernel/NewKit/Json.h:104-141 | whatever is read, no colon or line end reaches the keys, and no comma, closing brace or line end the values |
| JsonReader.ColonEndsKey | dev/Kernel/NewKit/Json.h:130-134 | a key a:b ends at its colon, the rest is read into the value |
| JsonReader.ArrayReadsFirstElement | dev/Kernel/NewKit/Json.h:88-96 | of an array the first element alone is read, whatever follows |
| JsonReader.NewlinesAreIgnored | dev/Kernel/NewKit/Json.h:104-106 | line ends after the first character change nothing |
| BitMapModel.BlocksTile | dev/Kernel/src/BitMapMgr.cc:127 | every byte below the frontier lies in exactly one block |
| BitMapModel.AllocateKeepsFormed | dev/Kernel/src/BitMapMgr.cc:84-131 | writing the header of the first free block keeps headers exactly at the blocks below the frontier |
| BitMapModel.FreeKeepsFormed | dev/Kernel/src/BitMapMgr.cc:54-67 | so does freeing a block, which alone becomes unused |
| BitMapModel.ClientWriteKeepsFormed | dev/Kernel/src/BitMapMgr.cc:84-131 | so does a client's write of any byte behind the header of its block |
| BitMapModel.WalkVisitsBlocks | dev/Kernel/src/BitMapMgr.cc:91-127 | on a formed area step k of the walk is at block k, up to the frontier |
| BitMapModel.FirstFitIsFirstFree | dev/Kernel/src/BitMapMgr.cc:91-127 | on a formed area the endless walk ends, at the lowest block not in use |
| BitMapModel.FirstFitIs | dev/Kernel/src/BitMapMgr.cc:91-127 | a walk stops at one place only |
| BitMapModel.StepKeepsFormed | dev/Kernel/src/BitMapMgr.cc:54-131 | every step of a run keeps the area formed |
| BitMapModel.RunsKeepFormed | dev/Kernel/src/BitMapMgr.cc:54-131 | over every run of allocations of one size, frees and client writes, headers stay formed and live blocks are pairwise disjoint |
| BitMapModel.StepsOnLiveBlocks | dev/Kernel/src/BitMapMgr.cc:84-131 | an allocation takes the lowest block not in use and only it; a free gives back exactly its block |
| BitMapModel.ShortBlocksLoseHeaders | dev/Kernel/src/BitMapMgr.cc:84-131 | for every size below the 24 bytes of a header, the second of two allocations from untouched memory destroys the first header |
| BitMapModel.HeadersKeptExactly | dev/Kernel/src/BitMapMgr.cc:54-131 | for blocks of one size, every run from an area without magic keeps all headers if and only if the size is at least that of a header |
| BitMapLists.WalkVisitsList | dev/Kernel/src/BitMapMgr.cc:91-127 | over a list of blocks of any sizes step k of the walk is at block k, up to the frontier |
| BitMapLists.WalkEndsAtLowestFit | dev/Kernel/src/BitMapMgr.cc:91-127 | over such a list the walk ends, at the lowest unused block that is not larger than the request, or at the frontier |
| BitMapLists.StaysListedExactly | dev/Kernel/src/BitMapMgr.cc:95-125 | an allocation leaves all blocks their sizes, the one taken now in use, if and only if it takes the frontier or a block of the size requested |
| BitMapLists.OverlapsExactly | dev/Kernel/src/BitMapMgr.cc:95-101 | what an allocation hands out overlaps another block if and only if it takes a smaller block that is not the last |
| BitMapLists.ClaimKeepsBytes | dev/Kernel/src/BitMapMgr.cc:100-117 | taking a block writes no byte outside its header |
| BitMapMgr.IBitMapProxy.IsBitMap | dev/Kernel/src/BitMapMgr.cc:40-52 | exactly the non-null pointers to the magic |
| BitMapMgr.IBitMapProxy.FreeBitMap | dev/Kernel/src/BitMapMgr.cc:54-67 | clears the used word of such a pointer, refuses any other and then changes nothing |
| BitMapMgr.IBitMapProxy.FreeBlock | dev/Kernel/src/BitMapMgr.cc:54-67 | freeing the pointer of a block succeeds and marks that block unused |
| BitMapMgr.IBitMapProxy.FindBitMap | dev/Kernel/src/BitMapMgr.cc:84-131 | size 0 gives null; otherwise, on any memory where the walk does not run forever, the first place without a header or with a free block that is not larger, and its header is written |
| BitMapMgr.IBitMapProxy.AllocateFromList | dev/Kernel/src/BitMapMgr.cc:84-131 | over blocks of any sizes an allocation ends; it answers the lowest unused block whose size is at most the request, or the frontier, and changes the 24 bytes of that header only, so it shrinks no block |
| BitMapMgr.IBitMapProxy.Walk | dev/Kernel/src/BitMapMgr.cc:91-128 | the loop takes each step of the walk and ends where it stops |
| BitMapMgr.IBitMapProxy.TakeIfFits | dev/Kernel/src/BitMapMgr.cc:95-125 | takes a block exactly where the walk stops, and otherwise writes nothing |
| BitMapMgr.IBitMapProxy.AllocateBlock | dev/Kernel/src/BitMapMgr.cc:84-131 | on a formed area of blocks of this size an allocation takes the lowest block not in use, and the area stays formed |
| BitMapMgr.IBitMapProxy.NewHeader | dev/Kernel/src/BitMapMgr.cc:115-117 | writes magic, size and used |
| BitMapMgr.IBitMapProxy.Reclaim | dev/Kernel/src/BitMapMgr.cc:100-101 | rewriting size and used of a free block is writing its header |

## Left out

- NeFS forks, reading and writing of catalog contents, and the journal: the fork code writes below the start of the catalogs and reads at or above it.
- The `local_search` walk and the kernel's own `Format`; the EPM block that the bootloader may also write.
- That a removed name stops being found: it does not, since the flags 70 and 71 share bits.
- NeFSParser.NeFileSystemParser.RemoveCatalog: requires the name to exist, because the source dereferences a null record otherwise.
- NeFSParser.NeFileSystemParser.CreateCatalog: requires a separator at least three characters before the end of a name it allocates (so neither `/` nor a one-letter leaf of the root), because the source's scan runs off its buffer otherwise; an empty name and one of 256 characters or more are also excluded. The value it returns is a copy of the old, blank slot, as in the source.
- NeFSParser.NeFileSystemParser.ParentName: the second copy loop of the source, which copies the same text again, is not repeated; the check for an empty path after the first copy cannot succeed, since the path is not empty.
- NeFSParser.BDiskFormatFactory.Format: a partition name longer than its 32-byte field, which the source copies past the field.
- The packet mime text, drive errors and the mime field of a record, which these operations leave zero.
- Crc32.CalculateCrc32: bytes are unsigned, as they are where `char` is; where it is signed the loop is modelled only as far as its index (`Crc32.SignedIndexStaysInTable`). The length is not reduced to 32 bits.
- StringToLong.Convert: pointers are positions in the string; an end pointer equal to the start is position 0.
- NumberPrinting.ToString: numbers from 10^10 on, where the source's `int` weight overflows; builds for other processors than AMD64, where the body is empty. Like the source it writes no terminator.
- NumberPrinting.WritesNumeral: the least `long`, whose negation overflows, and the `'?'` branches, which no digit reaches.
- Scheduler.UserProcessScheduler.Spawn: a count of 32, which the source's guard lets through although there is no such slot; out-of-memory exits, the library kind of process and page tables. Nothing is claimed for a slot that is spawned anew after exits out of order.
- Scheduler.UserProcess.Crash: of the exit only the fields the scheduler reads; memory lists, page tables and libraries are not modelled, nor is `delete this`.
- Scheduler.HardwareThread.Switch: whether a process is accepted (`mp_register_process`) is a parameter; of a stack frame only the base and the stack pointer that a switch stores. The timer is an unbounded integer.
- The current process reference and its PID, which the scheduler sets but does not read.
- JsonReader.In: texts longer than 4096 characters, for which the source has no check; the buffers start as zeros.
- BitMapMgr.IBitMapProxy.FindBitMap: memory on which the source's loop runs forever; page mapping; addresses that wrap.
- BitMapModel.RunsKeepFormed: whole runs that mix allocation sizes; single allocations among blocks of several sizes are in `BitMapLists`.
- The pool layout of the heap above the allocator, and its pointer checks.
- Drivers, interrupts, firmware calls, framebuffer, executable loaders, users, IPC, timers, semaphores and string formatting.
