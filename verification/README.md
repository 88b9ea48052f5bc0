# XINIM: verified models

Dafny models of the algorithmic cores of XINIM, with proofs of what they promise. Each module
follows one source file: loops stay loops, objects whose methods update fields are classes, and
every method is proved against a specification function about which the main theorems are stated.

- `DoubleWord`: the plain C double-word arithmetic, for every even word size, with each wrap-around
  written out. Division by guessed half-word digits is exact, no digit needs a third correction, and
  multiply, add, divide is a round trip.
- `LoadOrder`, `SymbolLookup`, `PageHeap`: the dynamic linker. The load loop, which appends to the
  list it walks, ends, whatever the file search finds. The list is in the order in which names are
  first needed and stops at the first need that cannot be met, which leaves one possible outcome; it
  is exactly what is reachable when all needs are met. The hash lookup is a scan of the symbol tables
  in list order; no two blocks of the page allocator overlap.
- `FatChain`, `FatFile`, `Fat12Table`: the FAT reader. The walk along a chain ends exactly from the
  heads of well-formed cluster sets; a file is a prefix of its chained clusters.
- `Crc32Bits`, `Crc32Steps`, `Crc32Table`, `Crc32`: the table-driven CRC-32 is the bit-by-bit one
  (section 8 of RFC 1952), and any change within four consecutive bytes changes it. `Folds` holds the
  generic lemmas about folds and transducers, `Prelude` what all modules share.
- `PartitionDevice`: partitions that share a parent behave like private devices over every
  interleaving, as long as no request wraps 64 bits, and not beyond that.
- `ConstexprDate`, `DateText`, `Cal`, `CalendarAgreement`: two date engines, each against a plain
  count of days, and against each other.
- `LoginLimiter`, `LibPack`, `Comm`, `ModeParser`, and `LineStream`, `Delivery`, `FlushPlan`, `LinePrinter`: the
  sliding-window limiter, the pattern codec, the merge of `comm`, file modes, and the buffered
  printer transducer.

Some properties do not hold of the code on all inputs. There the model follows the code, a lemma
shows an input for which the property fails, and another states exactly when it holds:

| property | holds exactly when | stated in | failing input |
|---|---|---|---|
| the epoch count follows addition of days | the sum stays from 1970 on, or in the same year before | `ConstexprDate.EpochCountAdds`, `ConstexprDate.AddDifference` | `ConstexprDate.BeforeTheEpoch` |
| the next day has the next weekday | the date is from 1970 on, or the year stays the same | `ConstexprDate.NextDayOfWeekIff` | `ConstexprDate.BeforeTheEpoch` |
| a number is read back from its text, sign and all | digits and sign fit the room | `DateText.DecimalReadsBackIff` | `DateText.SignIsLost` |
| `parse_date` undoes `format` | the year has four digits | `DateText.ParseFormatIff` | `DateText.ShortYear` |
| `decompress` undoes `compress` | no literal 255 is followed by more code | `LibPack.RoundTripIff` | `LibPack.StrayEscapeIsLost` |
| an accepted request stays inside its partition | `lba + count` does not wrap | `PartitionDevice.AcceptedStaysInsideIff` | `PartitionDevice.WrappedRequest` |
| no cluster of a volume is taken for a marker | there are at most 0x0FFFFFF5 clusters | `FatChain.MountedGoesOnIff` | `FatChain.OneClusterTooMany` |
| a cluster walk ends | its start heads a well-formed set of clusters | `FatChain.WalkEndsIff` | `FatChain.CycleHasNoEnd` |
| a failed flush followed by the destructor's flush prints every byte once | the failed flush was answered only with busy or zero before its error or sixth busy answer | `LinePrinter.RepeatsUnlessCold`, `LinePrinter.PrintedOnceIff` | `LinePrinter.TwoBytesPrintThree` |

## Model

| member | source | states |
|---|---|---|
| DoubleWord.UdivQrnndC | libc/dietlibc-xinim/longlong.h:1370-1405 | for every divisor with its top bit set and n1 < d: n1:n0 = q*d + r, r < d, and q is one word |
| DoubleWord.DivideDigit | libc/dietlibc-xinim/longlong.h:1377-1388 | one guessed and corrected digit is the exact quotient digit, below the half base, with a remainder below d |
| DoubleWord.GuessDigit | libc/dietlibc-xinim/longlong.h:1377-1380 | the guess from the high half of d leaves the exact difference of two words, neither of which wraps |
| DoubleWord.Correct | libc/dietlibc-xinim/longlong.h:1381-1388 | the carry test on wrapped words finds the digit with at most two corrections |
| DoubleWord.QuotientFitsIff | libc/dietlibc-xinim/longlong.h:59-66 | the documented demand n1 < d holds exactly when the quotient fits one word |
| DoubleWord.UmulPpmm | libc/dietlibc-xinim/longlong.h:1337-1359 | the two result words are the full product |
| DoubleWord.AddPartials | libc/dietlibc-xinim/longlong.h:1352-1358 | of the additions of partial products only the one that is tested can carry |
| DoubleWord.AddSsaaaa | libc/dietlibc-xinim/longlong.h:1303-1309 | two-word sum, exact up to one lost carry |
| DoubleWord.SubDdmmss | libc/dietlibc-xinim/longlong.h:1313-1319 | two-word difference, exact up to one lost borrow |
| DoubleWord.MultiplyThenDivide | libc/dietlibc-xinim/longlong.h:1303-1405 | forming q*d + r with the multiply and the add and dividing by d gives back q and r |
| DoubleWord.HalvesOf | libc/dietlibc-xinim/longlong.h:37-39 | shift and mask split a word into two halves that add up to it |
| DoubleWord.OrIsAdd | libc/dietlibc-xinim/longlong.h:1403-1403 | OR of a shifted half and a half is their sum |
| DoubleWord.WrapIsMod | libc/dietlibc-xinim/longlong.h:1303-1309 | unsigned wrap-around is the remainder modulo the word |
| LoadOrder.Link | libc/dietlibc-xinim/ldso.c:763-778 | for every file search the load phase ends; names are listed once, in the order in which they are first needed, each with what the search finds for the first file of this base name; it fails only at the first entry in list order that is too long or not found; it succeeds iff with these choices everything reachable through DT_NEEDED base names can be loaded, and then the list is exactly what is reachable; for a search by base name the same holds of the libraries themselves |
| LoadOrder.LinkIsDetermined | libc/dietlibc-xinim/ldso.c:763-778 | what Link states leaves one outcome: success or failure, and the same objects in the same order |
| LoadOrder.GrowingAppend | libc/dietlibc-xinim/ldso.c:391-395 | an object appended for an entry is first needed there, behind the first needs of all listed before |
| LoadOrder.Linker.constructor | libc/dietlibc-xinim/ldso.c:763-763 | the list starts with the program alone |
| LoadOrder.Linker.LoadLibrary | libc/dietlibc-xinim/ldso.c:399-449 | appends the library unless its name is listed, too long or not found; every listed library is the one found for the first file that needs its name |
| LoadOrder.Linker.LoadNeed | libc/dietlibc-xinim/ldso.c:475-481 | one more entry satisfied and none lost, or stuck at this entry |
| LoadOrder.Linker.LoadLibs | libc/dietlibc-xinim/ldso.c:451-487 | all needs of one object are satisfied in order, or the first that cannot be is found; nothing happens where all are satisfied already |
| LoadOrder.Linker.LoadAll | libc/dietlibc-xinim/ldso.c:770-778 | the loop over the growing list ends, with every listed object satisfied, or stuck at the first entry that cannot be |
| LoadOrder.ShortName | libc/dietlibc-xinim/ldso.c:403-410 | the loop finds the base name |
| LoadOrder.BasenameMeans | libc/dietlibc-xinim/ldso.c:408-409 | the base name has no slash and is what follows the last one |
| LoadOrder.NeedsByTag | libc/dietlibc-xinim/ldso.c:474-484 | DT_NEEDED entries count in order, other tags are passed over, DT_NULL ends the section |
| LoadOrder.ListsAreBounded | libc/dietlibc-xinim/ldso.c:412-415 | no list of distinct names of at most 50 characters exceeds a fixed bound, which makes the loop end |
| LoadOrder.LoadedExactlyReachable | libc/dietlibc-xinim/ldso.c:770-778 | the names on a finished list are exactly the reachable ones |
| LoadOrder.LoadedIsReachable | libc/dietlibc-xinim/ldso.c:377-395 | every listed object is reachable and is the one its name stands for |
| LoadOrder.ByBasenameAgrees | libc/dietlibc-xinim/ldso.c:412-448 | a search that depends on base names alone gives each listed object behind its name |
| LoadOrder.OwnAgrees | libc/dietlibc-xinim/ldso.c:413-415 | so does the list itself, for any search |
| LoadOrder.FinishedIsComplete | libc/dietlibc-xinim/ldso.c:474-484 | a finished list proves that nothing reachable is missing |
| LoadOrder.FailureIsIncomplete | libc/dietlibc-xinim/ldso.c:476-481 | an exit proves that something reachable cannot be loaded |
| SymbolLookup.DlsymInt | libc/dietlibc-xinim/ldso.c:510-557 | the hash lookup gives the address a scan of the symbol tables in list order gives, or none |
| SymbolLookup.LookupIn | libc/dietlibc-xinim/ldso.c:537-547 | one object's chain yields a defining symbol, or there is none in its whole table |
| SymbolLookup.ScanMeans | libc/dietlibc-xinim/ldso.c:510-557 | the scan finds nothing iff no object defines the name, and otherwise the first object's definition |
| SymbolLookup.FoundIff | libc/dietlibc-xinim/ldso.c:537-547 | a name has an address iff some object has a symbol of that name, not the first, with a value and a section |
| SymbolLookup.BucketIs | libc/dietlibc-xinim/ldso.c:537-540 | the chain begins in the bucket whose number the hash leaves over when divided by the number of buckets |
| SymbolLookup.ElfHash | libc/dietlibc-xinim/ldso.c:489-498 | the loop computes the hash of the gABI, which stays below 2^28 |
| SymbolLookup.Round | libc/dietlibc-xinim/ldso.c:493-495 | the XOR form of the loop body is a round of the hash of the System V gABI, chapter 5, which clears with AND NOT |
| SymbolLookup.HashBelow28Bits | libc/dietlibc-xinim/ldso.c:489-498 | no name of any length hashes to 2^28 or more |
| SymbolLookup.ShortNamesHashToSum | libc/dietlibc-xinim/ldso.c:489-498 | a name whose bytes, as digits to base 16, stay below 2^28 hashes to that number |
| SymbolLookup.MixFolds | libc/dietlibc-xinim/ldso.c:494-495 | the top four bits come down to the bits 4 to 7 by XOR and are gone |
| SymbolLookup.MixByXor | libc/dietlibc-xinim/ldso.c:494-495 | folding the top bits in and clearing them with XOR is clearing them with AND NOT |
| PageHeap.Heap.Malloc | libc/dietlibc-xinim/ldso.c:106-126 | one call is one first-fit allocation of a block that holds the request and less than two pointers more; the branch marked impossible is never reached |
| PageHeap.AnswersIff | libc/dietlibc-xinim/ldso.c:106-126 | a block is answered iff the request fits a data area and a page has room or one can be mapped; a page is mapped only if none has room; no answer changes nothing |
| PageHeap.Heap.constructor | libc/dietlibc-xinim/ldso.c:100-104 | no page at the start |
| PageHeap.Round | libc/dietlibc-xinim/ldso.c:109-112 | the rounding steps give the rounded size, inside the data area |
| PageHeap.RoundUpMeans | libc/dietlibc-xinim/ldso.c:108-112 | the least multiple of two pointers that holds the request, and never more than the data area |
| PageHeap.FirstFit | libc/dietlibc-xinim/ldso.c:113-113 | the first page with enough room |
| PageHeap.AllocateKeeps | libc/dietlibc-xinim/ldso.c:113-126 | every call keeps the books: blocks tile the used part of each page |
| PageHeap.RunIsConsistent | libc/dietlibc-xinim/ldso.c:106-126 | the books are right after every run of calls, failing maps included |
| PageHeap.BlocksNeverOverlap | libc/dietlibc-xinim/ldso.c:106-126 | over every run, blocks lie in the data area of one page, are aligned to two pointers, and any two are disjoint |
| FatChain.BuildClusterChain | src/commands/dosread.cpp:427-437 | the loop collects the chain, up to the marker that stops it |
| FatChain.StopsIff | src/commands/dosread.cpp:439-453 | for entries of 12, 16 and 28 bits the walk stops at c iff c is at least 2^bits - 9 |
| FatChain.GoOnIff | src/commands/dosread.cpp:431-453 | no cluster from 2 to the last of a volume stops the walk iff the last lies below 2^bits - 9 |
| FatChain.MountedGoesOnIff | src/commands/dosread.cpp:676-680 | with the type the size selects, no cluster of a volume stops the walk iff there are at most 0x0FFFFFF5 |
| FatChain.OneClusterTooMany | src/commands/dosread.cpp:447-453 | with one more, the last cluster has the number of the bad-cluster marker |
| FatChain.BuildFromHead | src/commands/dosread.cpp:427-453 | from the head of a well-formed set it ends, repeats no cluster and stays inside the set |
| FatChain.WalkEndsIff | src/commands/dosread.cpp:431-434 | the walk ends inside the table iff its start is a marker or heads a well-formed set of clusters |
| FatChain.CycleHasNoEnd | src/commands/dosread.cpp:431-434 | a FAT12 table for one cluster that links to itself: the walk from it never ends |
| FatChain.ChainsAreDisjoint | src/commands/dosread.cpp:427-437 | chains from two heads share no cluster |
| FatChain.ChainIsUnique | src/commands/dosread.cpp:427-437 | the start decides the chain |
| FatChain.ChainExists | src/commands/dosread.cpp:427-437 | every head has a chain, without repeats |
| FatChain.EndingWalkHasNoRepeats | src/commands/dosread.cpp:431-434 | in any table, a walk that ends has visited no cluster twice |
| FatFile.Volume.constructor | src/commands/dosread.cpp:455-463 | a volume as mounted |
| FatFile.Volume.ReadCluster | src/commands/dosread.cpp:455-463 | the image from the place the 64-bit offset arithmetic gives, cut off or filled with zeros; zeros alone once the stream has failed; when it fails |
| FatFile.Volume.SeekMeans | src/commands/dosread.cpp:456-456 | clusters lie one after the other from the data offset on; on FAT12 and FAT16 the numbers 0 and 1 wrap to the places in front of it |
| FatFile.Volume.CopyClusters | src/commands/dosread.cpp:286-294 | the copying loop reads just the clusters the size needs and gathers their first size bytes |
| FatFile.Volume.ReadFile | src/commands/dosread.cpp:273-298 | the first file_size bytes of the chained clusters, if those the size needs are there, padded with zeros where the chain is short; nothing touched for an empty or missing file |
| FatFile.Volume.NeededIsEnough | src/commands/dosread.cpp:286-296 | the clusters that are read hold the same first file_size bytes as the whole chain |
| FatFile.Volume.ChainedAt | src/commands/dosread.cpp:286-294 | cluster k of a chain stands at k times the cluster size in the chained data |
| Fat12Table.ReadFat12 | src/commands/dosread.cpp:400-412 | every entry is the twelve bits at its place |
| Fat12Table.UnpackPacked | src/commands/dosread.cpp:403-412 | unpacking gives back every packed list of 12-bit entries |
| Crc32.ComputeCrc32 | src/block/partition.cpp:68-74 | the table loop computes the bit-by-bit CRC-32 of every input |
| Crc32.ChecksumOfNothing | src/block/partition.cpp:69-74 | the empty input has checksum 0 |
| Crc32.ChecksumOfItsOwn | src/block/partition.cpp:68-74 | every input followed by its own checksum, lowest byte first, has checksum 0x2144DF1C |
| Crc32.LeadingZeroShows | src/block/partition.cpp:69-74 | a zero byte in front changes the checksum of every input |
| Crc32.TableStep | src/block/partition.cpp:71-71 | one look-up and shift is eight single-bit steps |
| Crc32Table.TableMatches | src/block/partition.cpp:22-66 | all 256 literal entries are eight single-bit steps of their index |
| Crc32.DetectsBursts | src/block/partition.cpp:68-74 | inputs that differ only within four consecutive bytes never share a checksum |
| Crc32Steps.ByteStepLinear | src/block/partition.cpp:71-71 | eight steps distribute over XOR |
| Crc32Steps.ByteStepInjective | src/block/partition.cpp:71-71 | eight steps merge no two registers |
| PartitionDevice.PartitionedBlockDevice.constructor | src/block/blockdev.cpp:49-49 | a partition of a parent, with empty statistics |
| PartitionDevice.PartitionedBlockDevice.ReadBlocks | src/block/blockdev.cpp:49-73 | answer, parent and statistics of a read |
| PartitionDevice.PartitionedBlockDevice.WriteBlocks | src/block/blockdev.cpp:75-99 | answer, parent and statistics of a write |
| PartitionDevice.Device.Serve | src/block/ahci_blockdev.cpp:56-110 | a request that lies on the device and that the driver serves reads or replaces exactly the blocks it names; any other answers with an error and changes nothing |
| PartitionDevice.AcceptedStaysInsideIff | src/block/blockdev.cpp:53-60 | an accepted request is translated into its partition iff lba + count does not wrap 64 bits |
| PartitionDevice.WrappedRequest | src/block/blockdev.cpp:53-60 | the last 64-bit address passes the check of any partition and is translated to the block before it |
| PartitionDevice.PartitionIsPrivate | src/block/blockdev.cpp:49-99 | a partition answers like a device of its own and changes nothing outside |
| PartitionDevice.PartitionsAreIsolated | src/block/blockdev.cpp:49-99 | over every interleaving of requests on disjoint partitions, each sees exactly its private device |
| PartitionDevice.RejectedChangesNothing | src/block/blockdev.cpp:53-57 | a negative answer leaves the parent as it was |
| PartitionDevice.NegativeIff | src/block/blockdev.cpp:53-98 | the answer is negative iff the request does not fit, the driver fails, or the count is 2^31 or more; it is -EINVAL, -EIO or, below 2^31, the count |
| PartitionDevice.RequestsAreCounted | src/block/blockdev.cpp:61-98 | a request inside the partition counts as one operation of its bytes when served and as one error when not |
| PartitionDevice.GptSizeIff | src/block/partition.cpp:249-251 | a GPT entry has last - first + 1 blocks unless it runs backwards or spans all 64-bit addresses |
| ConstexprDate.AddDays | src/commands/constexpr_date_cpp23.cpp:148-189 | for every valid date and every n the loops end in the valid date n days away |
| ConstexprDate.ToDaysSinceEpoch | src/commands/constexpr_date_cpp23.cpp:99-122 | the loops compute the epoch count |
| ConstexprDate.EpochAgreesFrom1970 | src/commands/constexpr_date_cpp23.cpp:99-122 | the epoch count is the day number iff the year is 1970 or later |
| ConstexprDate.EpochCountAdds | src/commands/constexpr_date_cpp23.cpp:99-189 | adding n days adds n to the epoch count, exactly under a condition on the date and n |
| ConstexprDate.Difference | src/commands/constexpr_date_cpp23.cpp:192-194 | difference of epoch counts |
| ConstexprDate.AddDifference | src/commands/constexpr_date_cpp23.cpp:148-194 | d + (e - d) is e iff both are from 1970 on or in the same year |
| ConstexprDate.BeforeTheEpoch | src/commands/constexpr_date_cpp23.cpp:103-128 | the day before the epoch counts as day 364, and both are Thursdays |
| ConstexprDate.NextDayOfWeekIff | src/commands/constexpr_date_cpp23.cpp:125-128 | the next day has the next weekday iff the date is from 1970 on or the year stays the same |
| ConstexprDate.DayNumberOrders | src/commands/constexpr_date_cpp23.cpp:72-79 | the reference day number orders dates as year, month and day do |
| ConstexprDate.NextDayNumber | src/commands/constexpr_date_cpp23.cpp:81-96 | the next calendar day has the next day number |
| ConstexprDate.YearStartClosed | src/commands/constexpr_date_cpp23.cpp:82-84 | the reference year count is the Gregorian closed form |
| DateText.ToConstexprString | src/commands/constexpr_date_cpp23.cpp:263-293 | the digit loop, the sign and the swap loop write the decimal text as far as there is room |
| DateText.DecimalReadsBackIff | src/commands/constexpr_date_cpp23.cpp:263-293 | a number is read back with its sign iff digits and sign fit the room |
| DateText.SignIsLost | src/commands/constexpr_date_cpp23.cpp:282-284 | the year -1000 is written like the year 1000 |
| DateText.Reverse | src/commands/constexpr_date_cpp23.cpp:286-289 | the swap loop reverses the characters in place |
| DateText.LowDigits | src/commands/constexpr_date_cpp23.cpp:276-280 | the digit loop leaves the low digits, last first |
| DateText.Format | src/commands/constexpr_date_cpp23.cpp:197-259 | every format is expanded, letter by letter as ExpandPlain, ExpandUnknown and PiecesReadBack say, and cut off at the size of the result |
| DateText.ExpandPlain | src/commands/constexpr_date_cpp23.cpp:202-254 | text without a percent sign is copied, wherever it stands |
| DateText.ExpandUnknown | src/commands/constexpr_date_cpp23.cpp:248-254 | a percent sign at the end or before a letter other than Y, m, d, j and w is copied |
| DateText.PiecesReadBack | src/commands/constexpr_date_cpp23.cpp:204-247 | two digits read back as month and day, three as the day of the year, one as the weekday; the year reads back iff it lies between -999 and 9999 |
| DateText.ThreeDigitsReadBack | src/commands/constexpr_date_cpp23.cpp:231-240 | one to 999 is written in three digits that read back |
| DateText.CappedMeans | src/commands/constexpr_date_cpp23.cpp:202-202 | nothing that fits is cut off |
| DateText.CountDayOfYear | src/commands/constexpr_date_cpp23.cpp:131-145 | the month loop gives the day of the year |
| DateText.DayOfYearGoesOn | src/commands/constexpr_date_cpp23.cpp:131-145 | 1 January is day 1, the next day inside a year has the next number, the last day has the length of the year |
| DateText.ParseDate | src/commands/constexpr_date_cpp23.cpp:441-469 | the three fields, or the default date for a text of another shape |
| DateText.DigitsReadBack | src/commands/constexpr_date_cpp23.cpp:276-280 | a number below 10^room is read back from its digits |
| DateText.ParseFormatIff | src/commands/constexpr_date_cpp23.cpp:197-469 | parsing the default format gives back a valid date iff its year is 1000 to 9999 |
| DateText.FormatThenParse | src/commands/constexpr_date_cpp23.cpp:197-469 | the two loops one after the other, with the same condition |
| DateText.ShortYear | src/commands/constexpr_date_cpp23.cpp:443-445 | the year 999 is read as the default date |
| Cal.YearShiftMeans | src/commands/cal.cpp:363-374 | 1 January moves by the weekdays of the year, by five over 1752 |
| Cal.MonthLengthIsCalendar | src/commands/cal.cpp:301-311 | month lengths are Julian up to 1752 and Gregorian after; the default branch is taken for 1752 alone |
| Cal.WeekdaysRunOn | src/commands/cal.cpp:286-328 | for every year from 1, weekdays run on without a gap across every month and year boundary |
| Cal.FirstWeekdayCountsDays | src/commands/cal.cpp:286-374 | the first weekday of every month is the count of all days since year 1, modulo 7 |
| Cal.MonthInfo.SetMonth | src/commands/cal.cpp:286-328 | the record describes the month; a month outside 1 to 12 only clears the length |
| Cal.MonthInfo.CellShows | src/commands/cal.cpp:340-352 | a cell holds the day as many places after the first, with the eleven days of 1752 left out |
| Cal.DatesOfMonth | src/commands/cal.cpp:340-352 | every month's dates start with 1 and end as they always do, in September 1752 too |
| Cal.MonthInfo.GridIsRight | src/commands/cal.cpp:340-352 | every day is in exactly one cell, in one of six weeks and in the column of its weekday |
| Cal.MonthInfo.Calendar | src/commands/cal.cpp:196-220 | the loops fill all 42 cells |
| CalendarAgreement.CellReadsBack | src/commands/cal.cpp:206-217 | the digits in a cell read back as its date, and only cells without a date are blank |
| CalendarAgreement.CalendarsAgree | src/commands/cal.cpp:286-328 | for every month from 1970 on, the closed form and the loops of constexpr_date give the same weekday |
| CalendarAgreement.DaysAgree | src/commands/cal.cpp:286-352 | for every day from 1970 on, counting on from the first weekday of its month gives constexpr_date's weekday |
| CalendarAgreement.GridShowsWeekdays | src/commands/cal.cpp:340-352 | from 1970 on every date in the grid stands in the column of constexpr_date's weekday for it |
| LoginLimiter.AtMostFiveInAnyWindow | src/commands/login.cpp:299-392 | over every run with a clock that never goes back, no closed 15-minute window holds more than five of the failures the limiter recorded for a user since the last reset |
| LoginLimiter.PruningIsInvisible | src/commands/login.cpp:308-315 | no answer of is_allowed differs from that of a limiter that keeps everything |
| LoginLimiter.AllowedIff | src/commands/login.cpp:304-316 | over every run a user is allowed iff fewer than five failures since the last reset were recorded in the last fifteen minutes |
| LoginLimiter.TurnsRecord | src/commands/login.cpp:360-390 | an allowed denial adds its time for its user, a session forgets the user's failures, nothing else changes anything |
| LoginLimiter.RecordedIsHistory | src/commands/login.cpp:358-392 | the limiter records exactly the failures that one which forgets nothing would |
| LoginLimiter.RateLimiter.constructor | src/commands/login.cpp:324-327 | no failures at the start |
| LoginLimiter.RateLimiter.IsAllowed | src/commands/login.cpp:304-316 | prunes one user's list and compares its length |
| LoginLimiter.RateLimiter.RecordFailure | src/commands/login.cpp:318-320 | appends a time for one user |
| LoginLimiter.RateLimiter.ResetFailures | src/commands/login.cpp:322-322 | forgets one user |
| LoginLimiter.RateLimiter.HandleTurn | src/commands/login.cpp:360-390 | one round of the loop: answer, pruned list and the failure recorded or forgotten |
| LoginLimiter.RateLimiter.Loop | src/commands/login.cpp:358-392 | the loop up to the first session: answers, pruned lists and all failures recorded |
| LibPack.RoundTripIff | src/commands/libpack.cpp:184-249 | for tables of at most 255 non-empty patterns decompress gives back the text iff no literal 255 is followed by more code |
| LibPack.RoundTrip | src/commands/libpack.cpp:184-249 | the round trip, for every table of at most 255 patterns, under that condition |
| LibPack.WithoutEscape | src/commands/libpack.cpp:184-249 | the condition holds of every text without byte 255 |
| LibPack.StrayEscapeIsLost | src/commands/libpack.cpp:207-238 | with no 255 in any of at most 255 non-empty patterns, no text of 255 and one more byte comes back |
| LibPack.CodeLength | src/commands/libpack.cpp:207-217 | the code is at most twice as long as the text |
| LibPack.TokenIsLongestMatch | src/commands/libpack.cpp:192-205 | no pattern at the same place is longer than the one chosen |
| LibPack.EncodePattern | src/commands/libpack.cpp:192-217 | where patterns begin, the last index of the longest one is emitted and its bytes are passed |
| LibPack.EncodeLiteral | src/commands/libpack.cpp:207-217 | where none begins, one byte is emitted, behind 255 iff it is less than the size of the table |
| LibPack.DecodeByte | src/commands/libpack.cpp:228-249 | 255 quotes the next byte and is itself at the end; any other byte is its pattern or itself |
| LibPack.CompressionEngine.constructor | src/commands/libpack.cpp:255-264 | the lookup map fits the table |
| LibPack.CompressionEngine.BuildLookupMap | src/commands/libpack.cpp:255-264 | the map holds the last index of every non-empty pattern, and the longest length |
| LibPack.CompressionEngine.FindLongest | src/commands/libpack.cpp:193-205 | the inner loop finds the longest match and its token |
| LibPack.CompressionEngine.Compress | src/commands/libpack.cpp:184-221 | the loop computes the code |
| LibPack.CompressionEngine.Decompress | src/commands/libpack.cpp:228-249 | the loop computes the text |
| Comm.NothingIsLost | src/commands/comm.cpp:264-285 | for any inputs, columns 1 and 3 are file 1 and columns 2 and 3 are file 2, in order |
| Comm.SortedSplits | src/commands/comm.cpp:264-285 | for inputs in dictionary order the columns are the two multiset differences and the intersection |
| Comm.MergeIsSorted | src/commands/comm.cpp:264-285 | for inputs in dictionary order all lines come out in that order |
| Comm.ColumnsAreSorted | src/commands/comm.cpp:264-285 | and so does each of the three columns |
| Comm.CompareIsDictionaryOrder | src/commands/comm.cpp:272-272 | the comparison is negative iff the first line is a proper prefix or has the smaller character at the first difference |
| Comm.CompareIsTotal | src/commands/comm.cpp:272-272 | comparing lines is antisymmetric and separates different lines |
| Comm.LessIsTransitive | src/commands/comm.cpp:272-272 | comparing lines is transitive |
| Comm.FileComparer.constructor | src/commands/comm.cpp:176-189 | the tabs in front of each column |
| Comm.FileComparer.Output | src/commands/comm.cpp:228-245 | a line with its tabs, or nothing for a suppressed column |
| Comm.RenderLine | src/commands/comm.cpp:176-245 | a line of a shown column stands behind as many tabs as columns before its own are shown; others are not printed |
| Comm.RenderFirst | src/commands/comm.cpp:242-244 | output is rendered line by line |
| Comm.FileComparer.Run | src/commands/comm.cpp:256-286 | the loop prints the merge by the dictionary order of the lines, line by line as RenderLine says |
| Comm.GetLine | src/commands/comm.cpp:261-262 | the next line, or end of file exactly when there is none |
| ModeParser.Parse | include/xinim/mode_parser.hpp:36-52 | every mode string fails for all permissions or keeps a fixed set of bits and sets another: octal ones as OctalReadsBack says, symbolic ones clause by clause as ClauseDoes does |
| ModeParser.ParseSymbolic | include/xinim/mode_parser.hpp:190-221 | the clause loop, with the empty clauses it accepts and refuses |
| ModeParser.ParseSymbolicClause | include/xinim/mode_parser.hpp:99-188 | one clause: the first error, or its effect on the accumulator |
| ModeParser.Collect | include/xinim/mode_parser.hpp:118-163 | the character loops collect all masks or stop at the first invalid character |
| ModeParser.ModesAreIdempotent | include/xinim/mode_parser.hpp:36-52 | a mode fails for all permissions or none; applied twice it does what it does once |
| ModeParser.CommaListInTurn | include/xinim/mode_parser.hpp:190-221 | a comma list applies its clauses from left to right |
| ModeParser.ApplyThen | include/xinim/mode_parser.hpp:190-221 | two effects in turn are again one pair of masks |
| ModeParser.OctalIsAbsolute | include/xinim/mode_parser.hpp:55-72 | an octal mode up to 07777 replaces the permissions; a larger one fails, also beyond 32 bits |
| ModeParser.OctalReadsBack | include/xinim/mode_parser.hpp:55-72 | all bits up to 07777, written as four octal digits, are the answer, whatever the permissions were |
| ModeParser.FourDigits | include/xinim/mode_parser.hpp:56-58 | any four octal digits, place by place |
| ModeParser.LeadingZero | include/xinim/mode_parser.hpp:56-58 | a zero in front of an octal mode changes nothing |
| ModeParser.PlusMeans | include/xinim/mode_parser.hpp:170-175 | plus adds the named bits inside who and leaves all others |
| ModeParser.MinusMeans | include/xinim/mode_parser.hpp:170-178 | minus removes them inside who and leaves all others |
| ModeParser.EqualsMeans | include/xinim/mode_parser.hpp:170-182 | equals leaves inside who exactly the named bits and outside all as they were |
| ModeParser.ClauseDoes | include/xinim/mode_parser.hpp:74-188 | a clause for u, g, o or a, parsed from its text: plus sets the bits of st_mode that r, w, x, s and t stand for in the class, minus clears them, equals leaves the class exactly them; all other bits stay |
| ModeParser.NobodyIsEverybody | include/xinim/mode_parser.hpp:118-125 | a clause that names nobody is one for a |
| ModeParser.LetterTwice | include/xinim/mode_parser.hpp:126-163 | collecting a letter's mask again changes nothing |
| ModeParser.ClauseWorksIff | include/xinim/mode_parser.hpp:105-163 | a clause works iff it has an operator, only u, g, o, a before it and only r, w, x, s, t behind it |
| ModeParser.ClausesThen | include/xinim/mode_parser.hpp:190-221 | whatever follows a list of clauses with their commas works on what the clauses leave |
| ModeParser.NothingBetweenCommas | include/xinim/mode_parser.hpp:190-221 | an empty clause is passed over at the end, before at most one comma, and is an error elsewhere |
| LinePrinter.Lpr | src/commands/lpr.cpp:317-334 | for every input, split of reads and list of answers: how the run ends and every byte it prints; the flushes are full blocks and the remainder of each file, the first that fails ends the run, terminates it if a tab filled the block, and is begun again by the destructor otherwise |
| LinePrinter.OutcomeIsDetermined | src/commands/lpr.cpp:317-334 | what Lpr states leaves one outcome: files and answers decide how a run ends and all it prints |
| LinePrinter.WholeTextIsPrinted | src/commands/lpr.cpp:131-226 | a run that ends well or at a file it cannot open prints exactly the converted concatenation of its files |
| LinePrinter.PlanIsWholeText | src/commands/lpr.cpp:187-300 | the planned flushes and what waits for the destructor add up to the whole text |
| LinePrinter.InputIsWhole | src/commands/lpr.cpp:190-203 | however read splits a file, what is read are its bytes up to the answer that ends it |
| LinePrinter.InputStops | src/commands/lpr.cpp:192-199 | no bytes end a file well, an error does not |
| LinePrinter.FilesInOrder | src/commands/lpr.cpp:131-146 | files are read one after the other, up to the first that does not end well |
| LinePrinter.PrintedOnceIff | src/commands/lpr.cpp:106-300 | after a write error, if the destructor gets the buffer through, the text up to its end is printed once iff the answers of the failed flush are all busy or zero before the fatal one |
| LinePrinter.TwoBytesPrintThree | src/commands/lpr.cpp:106-300 | every run over a file of two bytes of which one is accepted before an error prints the first twice |
| LinePrinter.UniversalLinePrinter.constructor | src/commands/lpr.cpp:89-101 | empty buffers, column 0 |
| LinePrinter.UniversalLinePrinter.FlushOutputBuffer | src/commands/lpr.cpp:265-300 | sends the delivered part of the buffer; empties it on success, keeps it whole on failure |
| LinePrinter.UniversalLinePrinter.SendBuffer | src/commands/lpr.cpp:273-296 | the write loop with partial writes, zero writes and busy answers |
| LinePrinter.UniversalLinePrinter.Flush | src/commands/lpr.cpp:265-300 | sent plus buffered stays the stream and the flush is recorded, or sent becomes a proper prefix of it |
| LinePrinter.UniversalLinePrinter.WriteCharacter | src/commands/lpr.cpp:244-258 | one byte more in the stream; flushed exactly when the buffer is full |
| LinePrinter.UniversalLinePrinter.ExpandTab | src/commands/lpr.cpp:232-236 | spaces up to the tab stop, also across a flush |
| LinePrinter.UniversalLinePrinter.WriteLineEnd | src/commands/lpr.cpp:209-213 | carriage return and line feed, or a stop between them |
| LinePrinter.UniversalLinePrinter.ProcessCharacter | src/commands/lpr.cpp:206-223 | what one input byte adds to the stream |
| LinePrinter.UniversalLinePrinter.ProcessFileDescriptor | src/commands/lpr.cpp:187-226 | however read splits the input, sent plus buffered is the stream function of what was consumed; the flushes are full blocks and, at the end of the file, the remainder; a failed one ends it |
| LinePrinter.UniversalLinePrinter.ProcessSingleFile | src/commands/lpr.cpp:156-175 | one file, or the failure to open it; the column carries over; its flushes follow its plan |
| LinePrinter.UniversalLinePrinter.ProcessFiles | src/commands/lpr.cpp:131-146 | several files print like their concatenation, flushed behind each, up to the first that cannot be read or the first flush that fails |
| LinePrinter.UniversalLinePrinter.Destroy | src/commands/lpr.cpp:106-116 | one more flush of whatever the buffer holds; where it gets all through, the stream is printed as it is iff no flush had failed or the failed one got nothing sent |
| LinePrinter.RepeatsUnlessCold | src/commands/lpr.cpp:106-300 | if the answers of one flush end in failure and the next ones let the same bytes through, the text is printed once up to their end iff the first answers are all busy or zero before the fatal one |
| LinePrinter.RepeatsAByte | src/commands/lpr.cpp:106-300 | one of two bytes accepted before an error is printed twice |
| Delivery.FlushFailsIff | src/commands/lpr.cpp:273-296 | a flush fails iff an error or a sixth busy answer comes before everything is accepted |
| Delivery.NothingSentIff | src/commands/lpr.cpp:273-296 | a flush fails without a byte sent iff its answers are busy or zero up to an error or the sixth busy, whatever it has to send |
| Delivery.StopsAtFatal | src/commands/lpr.cpp:273-296 | a flush stops at its first fatal answer, with exactly what the answers before it accepted |
| Delivery.StopsWhenDone | src/commands/lpr.cpp:273-296 | a flush that nothing stops takes exactly the answers up to the one that completes it |
| FlushPlan.FailsOnce | src/commands/lpr.cpp:265-300 | a plan of flushes fails at one of them at most |
| FlushPlan.PlanOfFile | src/commands/lpr.cpp:187-258 | full blocks and the bytes that wait are the plan of a file of that length |
| FlushPlan.PlanMeans | src/commands/lpr.cpp:187-258 | a file is flushed in blocks of 4096 bytes and, read to its end, the remainder; the sizes add up to it |
| LineStream.ConvertAppends | src/commands/lpr.cpp:187-226 | converting two inputs in turn is converting their concatenation |
| LineStream.ConvertOne | src/commands/lpr.cpp:206-236 | byte 10 becomes 13 and 10, byte 9 becomes blanks to the next multiple of eight, any other byte is itself |
| LineStream.SourceSecond | src/commands/lpr.cpp:206-226 | which input byte a printed byte comes from does not depend on what was printed before |
| LineStream.TabReachesTabStop | src/commands/lpr.cpp:232-236 | a tab becomes one to eight spaces that end at a multiple of eight |
| LineStream.OutputIsClean | src/commands/lpr.cpp:206-223 | no tab is printed and every line feed follows a carriage return |
| LineStream.ColumnIsLineLength | src/commands/lpr.cpp:247-252 | the 32-bit column is the length of the printed line modulo 2^32 |
| LineStream.PrintedTextReadsBack | src/commands/lpr.cpp:206-223 | input without tabs is recovered by dropping the added carriage returns |

## Left out

- The assembly variants and the bit-counting macros of `longlong.h`.
- Mapping, relocation and header checks of `ldso.c`; dynamic sections and hash tables are given as
  values. What a search of the library path finds for a file name is a parameter, any function of it.
- SymbolLookup.DlsymInt: demands hash tables whose chains end and hold every defined symbol, and one definition per name and object, which the System V gABI asks of a linked object.
- PageHeap.BlocksNeverOverlap: page addresses are a parameter, distinct multiples of 4096, as mmap gives them.
- FatChain.MountedGoesOnIff: one count of clusters selects the type and bounds the walk; `create_filesystem` and `read_boot_sector` each compute theirs from the boot sector, which is not modelled.
- FatChain.BuildClusterChain: demands a walk that ends inside the table; FatChain.WalkEndsIff says exactly when that is so.
- Path lookup, directories, writing and exFAT in `dosread.cpp`; a directory entry is a parameter.
- Extended partitions, CRC checks of GPT headers and names in `partition.cpp`; locks and logging of
  the block layer, and requests with a null buffer.
- PartitionDevice.RejectedChangesNothing: for counts below 2^31, since larger ones come back as negative numbers (PartitionDevice.NegativeIff).
- The statistics of the parent device in `ahci_blockdev.cpp`.
- ConstexprDate.AddDays: years are unbounded, where the source has 32-bit years.
- Cal.WeekdaysRunOn: years start at 1, the least year cal accepts, and have no upper bound.
- Times of day, and the formats of `constexpr_datetime`.
- LibPack.RoundTripIff: demands non-empty patterns for the converse; the direction that gives the text back needs no such demand.
- LibPack.CompressionEngine.constructor: the table is a parameter of at most 255 patterns, so that a token fits a byte below the escape.
- Authentication, sessions and the audit log of `login.cpp`; the clock and the answers of the
  authentication are parameters.
- Opening of files and standard input in `comm.cpp`; files are lists of lines.
- The texts of error messages; errors are told apart by kind.
- LinePrinter.Lpr: the device answers from a list of any length and accepts everything beyond it, so a device that answers zero for ever is not a run; waiting between retries is not modelled.
- Opening and closing the printer device in `lpr.cpp`.
