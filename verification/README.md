# Verified models of The Sleuth Kit's computational cores

This project models five parts of The Sleuth Kit and proves what they are for. Each model takes the
form of its source: contexts, trackers, databases and buffers are classes whose methods update their
fields in place; loops are loops; values and expressions are datatypes and functions. The properties
are stated about independent specifications and tied to the methods by their postconditions.
`dafny verify dfyconfig.toml` checks everything.

| files | what they model |
|---|---|
| `Words`, `Chunks`, `BlockStream`, `BitCount` | bytes and 32-bit words, streams cut into 64-byte blocks, a 64-bit count in two words |
| `Sha1`, `Sha1Stream` | the optimised SHA-1 transform against section 6.1.2 of FIPS 180-4, and the streaming digest |
| `Md5`, `Md5Stream` | the MD5 transform against section 3.4 of RFC 1321, and the streaming digest |
| `DigestLaws`, `DigestExamples` | what the word functions under both digests compute, and the published digests of "abc" |
| `Gf2`, `Crc`, `CrcModel`, `CrcBursts`, `CrcResidue` | polynomials over GF(2), the parametric CRC as division with remainder, error detection, the residue |
| `LayoutFiles`, `UnallocWalk` | files made of byte ranges, and the walk that turns unallocated blocks into such files |
| `ObjectForest` | the object table with its parent links, and the loader that threads ids through an image |
| `PathSplit`, `ParentCache`, `FileRows`, `CacheRuns` | path splitting and hashing, the rows of files, the cache of parent directories, and runs that show where it works and where it fails |
| `Strings`, `WrittenText` | the scanner for runs of printable characters, and text written in every encoding |
| `Getopt`, `OptionWriting` | the option parser with hidden state, and command lines as they are written |
| `BigData`, `HiveWriting` | registry values spread over a list of cells, read through a positioned buffer, and hives that hold such values |
| `Options`, `Unsigned` | `Option` and `Result`; bytes, unsigned 32-bit numbers and numbers as bytes |

## What is proved

- **Digests.** The 16-word circular schedule, the reduced round functions and the renamed registers of
  SHA-1 compute the same words as the 80-word schedule and the register-shifting loop of the standard;
  the unrolled MD5 rounds compute the indexed loop. A class invariant ties the two-word bit count, the
  pending block and the chaining value to the bytes absorbed, so any cut of a message into chunks gives
  the digest of the whole message, on hosts of either byte order for SHA-1. The functions shared by code
  and standard have laws of their own, bit by bit, and the digests of "abc" are the published ones.
- **CRC.** For every width in [8, 32], polynomial, initial value and message, the register is the
  remainder of init * x^(8n) + M(x) * x^width on division by x^width + poly. Changes inside a window of
  width / 8 bytes are always detected exactly when the polynomial is not a multiple of
  x^(width mod 8 + 1); for widths that are whole bytes this is oddness. All bursts of at most width
  consecutive bits are detected exactly when the polynomial is odd. A message followed by its own
  CRC value, sent in the order of the register's bits, leaves a constant of the model, whether both
  directions are reflected or neither; with an odd polynomial nothing else of that length does.
- **Unallocated space.** The stored files cover exactly the bytes of the visited blocks, each once,
  exactly when the walk visits a block at all. Chunking, numbering and sizes are as documented, and the
  overlap check never rejects such a file.
- **Objects.** Parents come before their children in every reachable table, so the climb to the image
  terminates at the only image that parent links reach; after any number of images the file systems
  reported for each are those found in it, in order.
- **Parent cache.** Each bucket holds what the first directory with its file system, address and
  sequence wrote, for ever. An id from the cache is one the query selects exactly when the asked folder
  reads like the stored columns; with a hash that separates paths with different letters, exactly when
  the directory was stored without an attribute suffix and is the one asked for. A directory that comes
  with its own index is found under its plain name, by the cache and by the query; the path hash is the
  number its letters make to the base 33 behind 5381, modulo 2^32.
- **Strings.** The list of strings is exactly the maximal runs of graphic characters that are long enough
  and start before the stop point, in order, with their addresses. The source prints that list only
  where it does not use its buffer after releasing it. Without a stop point, as both its callers pass it,
  that is exactly where there is nothing to print; the condition for any stop point is proved too.
  Reading inverts writing in each of the six encodings.
- **Options.** Splitting "-ab..." into "-a" and "-b..." keeps every result exactly when a takes no
  argument and neither part reads "--". Parsing inverts writing: a command line written from options,
  alone, clustered, with attached or with separate arguments, is read as exactly these.
- **Big data.** Byte i of a value is byte i mod 0x3FD8 of the data of cell i / 0x3FD8, and reading
  succeeds exactly when every listed cell it needs can be read. The hives this leaves out are exactly
  those on which the source reads past the end of the hive or of a cell. A value that a hive holds, spread
  over cells with negated lengths and listed behind one another, is read back.

## Where the code and its documentation differ

- `tsk/base/XGetopt.c:77-78` calls "-ab" and "-a -b" equivalent. They are not when a takes an argument, or
  when one of the parts reads "--" (`OptionSteps.CombinedIsNotSeparate`, `OptionSteps.SplitCluster`).
- `tsk/auto/db_sqlite.cpp:771-777` presents the cache as a fast form of the query. A directory first stored
  under the name of one of its streams is answered from the cache although the query does not find it
  (`CacheRuns.StreamFirst` is such a run, `ParentCache.StreamAnswersForDirectory` the general case).
- `tsk/auto/db_sqlite.cpp:746-748` and `782-784` use the hash of the path to tell two folders with one meta
  address apart. The hash skips slashes, so folders like "a/bc" and "ab/c" are not told apart, and the
  first answers for the second (`CacheRuns.SlashesFirst` is such a run, `ParentCache.SlashesCollide` the general
  case); `ParentCache.CacheAgreesWithQuery` has the exact condition.
- `rejistry++/src/ByteBuffer.h:54-62` says that the position grows by the length and that bytes go to the
  given offset of the destination. The code moves it by the offset and writes to the beginning. It does as
  documented for all contents exactly when nothing is copied (`HiveCells.DocumentedOnlyForNothing`), for
  given contents under the condition of `HiveCells.GetAsDocumented`, and not in `HiveBuffer.ReadOneByte`.
- `tools/srchtools/srch_strings.c:520-530` promises the strings of a file. The buffer is allocated once at
  line 536 but released at line 589 for every printed string and again at the end of the input, so it is
  used or released again after its release (`StringScanner.OneStringMisuses`), exactly under the
  conditions of `StringScanner.MisuseWithoutStop` and `StringScanner.MisuseExactly`.
- The loop guard of `tsk/base/md5c.c:150` is right only while the pending bytes and the input together stay
  below 2^32 (`Md5Stream.GuardIsExact`). From there on the loop does not end and reads behind its input
  (`Md5Stream.LoopEndsExactly`, `Md5Stream.LoopNeverEnds`).
- `tsk/auto/auto_db.cpp:988-998` stores the block at address 0, with a size that was never initialised,
  when a walk visits no block (`UnallocWalk.ConservedExactly`).

## Model

| member | source | states |
|---|---|---|
| Sha1Transform.SHSTransform | tsk/base/sha1c.c:159-265 | the digest words become those of the 80-word, five-register loop of section 6.1.2 of FIPS 180-4 on the old digest and block |
| Sha1Transform.DataWord | tsk/base/sha1c.c:95-96 | expanding in place delivers word i of the full schedule and keeps slot j at the latest word with i mod 16 = j |
| Sha1Transform.ExpandedIsSchedule | tsk/base/sha1c.c:82-96 | the four slots read by an expansion are the words i-16, i-14, i-8 and i-3 of the schedule |
| Sha1Transform.WindowNext | tsk/base/sha1c.c:88-96 | overwriting slot i mod 16 with word i keeps the circular window |
| Sha1Transform.SubRound | tsk/base/sha1c.c:112-113 | the two register updates of a sub-round are one round of the standard with the roles rotated by one |
| Sha1Transform.FiveRounds | tsk/base/sha1c.c:98-113 | after five renamed sub-rounds every register plays its own role again and five rounds are done |
| Sha1Transform.TwentyRounds | tsk/base/sha1c.c:175-257 | four groups of five make one phase of twenty rounds |
| Sha1Transform.F1IsCh | tsk/base/sha1c.c:54 | the reduced f1 is Ch of the standard |
| Sha1Transform.F3IsMaj | tsk/base/sha1c.c:57 | the reduced f3 is Maj of the standard |
| Sha1Stream.LongReverse | tsk/base/sha1c.c:270-284 | on a little-endian host every word of the area has its bytes reversed, on a big-endian host nothing changes |
| Sha1Stream.ReversedIsBigEndian | tsk/base/sha1c.c:270-284 | reversed words read in host order are the big-endian words of the message |
| Sha1Stream.LastBlockWords | tsk/base/sha1c.c:388-393 | reversing 56 bytes and storing the count as two words gives the last block of section 5.1.1 |
| Sha1Stream.SHAtoByte | tsk/base/sha1c.c:337-348 | words become bytes, most significant first |
| Sha1Stream.Sha1Context.constructor | tsk/base/sha1c.c:136-149 | a context that has absorbed nothing |
| Sha1Stream.Sha1Context.CountBits | tsk/base/sha1c.c:299-306 | the two words stay 8 times the bytes absorbed, modulo 2^64, through the carry |
| Sha1Stream.Sha1Context.Update | tsk/base/sha1c.c:293-335 | the invariant holds for the bytes absorbed before followed by the new ones |
| Sha1Stream.Sha1Context.Final | tsk/base/sha1c.c:356-396 | the output is the digest of the absorbed bytes, padded as in section 5.1.1 |
| Sha1Stream.HashChunks | tsk/base/sha1c.c:136-396 | for any list of chunks and either byte order the result is the digest of the joined chunks |
| BitCount.CountsNext | tsk/base/sha1c.c:299-303 | adding a count to two words with a carry adds 8 times the count to the 64-bit total |
| BitCount.PendingBytes | tsk/base/sha1c.c:306 | the low word shifted by three and masked is the number of pending bytes |
| BlockStream.AbsorbAppend | tsk/base/sha1c.c:318-327 | absorbing a string of whole blocks and then more is absorbing them joined |
| BlockStream.AbsorbBlock | tsk/base/sha1c.c:308-327 | completing the pending block is one compression |
| WordLaws.RotatedBit | tsk/base/sha1c.c:79 | for every word and every n from 1 to 31, bit i comes to place i + n modulo 32 |
| WordLaws.WordOfDigits | tsk/base/md5c.c:318-322 | four bytes make the number with these digits to the base 256, in either order |
| WordLaws.BytesOfWords | tsk/base/sha1c.c:337-348 | encoding what was decoded gives the bytes back, most significant byte first |
| Sha1Laws.Chosen | tsk/base/sha1c.c:53-54 | wherever x has ones Ch has the bits of y, and wherever it has zeros those of z |
| Sha1Laws.Majority | tsk/base/sha1c.c:56-57 | wherever two of the three words agree Maj has their bits |
| Sha1Laws.ParityBits | tsk/base/sha1c.c:55-58 | Parity has the bits of the third word where two agree, and the opposite where they differ |
| Sha1Laws.ConstantsAreRoots | tsk/base/sha1c.c:62-65 | the constants are the integer parts of 2^30 times the roots of 2, 3, 5 and 10 |
| Sha1Laws.LengthIsCounted | tsk/base/sha1c.c:388-393 | the padding ends with the two words of 8n modulo 2^64, high word first |
| Sha1Example.Sha1OfAbc | tsk/base/sha1c.c:136-396 | the digest of "abc" is the one published with the standard |
| Md5Laws.ChosenByFirst | tsk/base/md5c.c:69 | F has the bits of y where x has ones and those of z elsewhere |
| Md5Laws.ChosenByThird | tsk/base/md5c.c:70 | G has the bits of x where z has ones and those of y elsewhere |
| Md5Laws.ParityBits | tsk/base/md5c.c:71 | H is the parity of the three words, place by place |
| Md5Laws.TurnedOver | tsk/base/md5c.c:72 | I has the bits of y, turned over exactly where x has a one or z a zero |
| Md5Laws.LengthIsCounted | tsk/base/md5c.c:171-189 | the padding ends with the two words of 8n modulo 2^64, low word first |
| Md5Example.Md5OfAbc | tsk/base/md5c.c:107-287 | the digest of "abc" is the one in the test suite of RFC 1321 |
| Md5Transform.MD5Transform | tsk/base/md5c.c:198-287 | the state becomes that of the indexed 64-step loop of section 3.4 of RFC 1321 |
| Md5Transform.Operation | tsk/base/md5c.c:81-100 | one FF, GG, HH or II macro is one step of the loop in the register it names |
| Md5Transform.RoundFunctionIsFt | tsk/base/md5c.c:69-72 | F, G, H and I are chosen by step number as the standard does |
| Md5Transform.Encode | tsk/base/md5c.c:292-306 | four bytes for each word, least significant first |
| Md5Transform.Decode | tsk/base/md5c.c:311-323 | words from bytes, least significant first |
| Md5Transform.EncodeDecode | tsk/base/md5c.c:292-323 | decoding what was encoded gives the words back |
| Md5Transform.DecodeEncode | tsk/base/md5c.c:292-323 | encoding what was decoded gives the bytes back, for lengths that are multiples of 4 |
| Md5Stream.Md5Context.constructor | tsk/base/md5c.c:107-117 | a context that has absorbed nothing |
| Md5Stream.Md5Context.CountBits | tsk/base/md5c.c:132-139 | the two words stay 8 times the bytes absorbed, modulo 2^64, through the carry |
| Md5Stream.Md5Context.Update | tsk/base/md5c.c:126-162 | the invariant holds for the bytes absorbed before followed by the new ones |
| Md5Stream.GuardIsExact | tsk/base/md5c.c:150 | the 32-bit loop guard means "a whole block is left" throughout exactly when pending and new bytes stay below 2^32 |
| Md5Stream.LoopEndsExactly | tsk/base/md5c.c:150 | the loop over whole blocks ends exactly when pending and new bytes stay below 2^32 |
| Md5Stream.LoopNeverEnds | tsk/base/md5c.c:150 | one pending byte and 2^32 - 1 new ones: the guard holds after every number of blocks, and a block reaches behind the input |
| Md5Stream.Md5Context.Final | tsk/base/md5c.c:171-194 | the output is the digest of the absorbed bytes, padded as in sections 3.1 and 3.2 of RFC 1321 |
| Md5Stream.HashChunks | tsk/base/md5c.c:107-194 | for any list of chunks the result is the digest of the joined chunks |
| CrcModel.RegisterIsTheRemainder | tsk/base/crc.c:93-130 | the register is the one remainder of init * x^(8n) + M(x) * x^width modulo x^width + poly |
| CrcModel.CodeStepIsStep | tsk/base/crc.c:112-119 | shift, conditional exclusive or and mask are multiplication by x modulo the generator |
| CrcRegister.RegisterIsRemainder | tsk/base/crc.c:101-130 | feeding bytes one after another keeps the register congruent to the dividend |
| Gf2.RemainderIsUnique | tsk/base/crc.c:101-120 | a remainder below the generator's degree is determined by the dividend |
| CrcModel.Context.Ini | tsk/base/crc.c:93-97 | the register holds the initial value |
| CrcModel.Context.Nxt | tsk/base/crc.c:101-120 | one byte, reflected when asked for, enters at the top and eight steps follow |
| CrcModel.Context.Blk | tsk/base/crc.c:124-155 | the bytes of a block are fed in order, in cm_blk as in crc16 |
| CrcModel.Context.CrcValue | tsk/base/crc.c:134-141 | the register, reflected when asked for, with the output mask added |
| CrcModel.CrcOfChunks | tsk/base/crc.c:93-141 | the value depends on the joined chunks only |
| CrcModel.RegisterAppend | tsk/base/crc.c:124-130 | feeding a and then b is feeding them joined |
| CrcModel.Widmask | tsk/base/crc.c:83-89 | 2^width - 1, also for width 32 |
| BitReflection.ReflectBits | tsk/base/crc.c:61-78 | the loop reverses the bottom bits and keeps the bits above |
| BitReflection.ReflectBit | tsk/base/crc.c:62-63 | bit k of the reflection is bit b-1-k |
| BitReflection.ReflectInvolutive | tsk/base/crc.c:62-63 | reflecting twice changes nothing |
| CrcModel.OutputInjective | tsk/base/crc.c:134-141 | different registers give different values |
| CrcModel.DetectsWindowsExactly | tsk/base/crc.c:101-141 | all changes inside width / 8 bytes change the value, exactly when the polynomial is not a multiple of x^(width mod 8 + 1) |
| CrcDetection.WindowIsSeen | tsk/base/crc.c:101-130 | under that condition no two different windows meet in one register |
| CrcDetection.WindowIsLost | tsk/base/crc.c:101-130 | without it two different windows of width / 8 bytes do |
| CrcBursts.DetectsBurstsExactly | tsk/base/crc.c:101-141 | every change inside at most width consecutive bits, in the order they enter, changes the value, exactly when the polynomial is odd |
| CrcBursts.BurstInRegister | tsk/base/crc.c:101-130 | registers of messages that differ by a shifted burst differ by the burst, stepped on |
| CrcModel.ResidueIsZero | tsk/base/crc.c:101-130 | a message followed by its own register, most significant byte first, leaves register 0 |
| CrcResidue.ResidueIsConstant | tsk/base/crc.c:101-141 | for whole-byte widths with refin and refot alike, a message followed by its CRC value leaves a register and a value that depend on the model only |
| CrcResidue.ResidueTellsCrc | tsk/base/crc.c:101-141 | with an odd polynomial the register holds the residue exactly when what follows the message is its CRC value |
| CrcResidue.ReflectedBytes | tsk/base/crc.c:101-120 | bytes sent least significant first into a reflected register enter as the number with its bits reversed |
| LayoutFiles.HasOverlap | tsk/auto/db_sqlite.cpp:1289-1318 | an overlap is found exactly when some two ranges have no byte between them |
| LayoutFiles.SeparateExactly | tsk/auto/db_sqlite.cpp:1305-1312 | ranges are separate exactly when they share no place as closed intervals |
| LayoutFiles.LayoutDb.AddFileWithLayoutRange | tsk/auto/db_sqlite.cpp:1395-1462 | a file is stored, its ranges sorted, exactly when it has ranges and all are separate |
| LayoutFiles.SortInOrder | tsk/auto/tsk_db.h:98-100 | sorting orders by sequence number and keeps all ranges |
| LayoutFiles.NumberedIsSorted | tsk/auto/db_sqlite.cpp:1428-1429 | ranges numbered 0, 1, 2, ... are left unchanged by the sort |
| LayoutFiles.PairwiseSort | tsk/auto/db_sqlite.cpp:1428-1434 | sorting does not change whether ranges are separate |
| UnallocWalk.UnallocTracker.Callback | tsk/auto/auto_db.cpp:881-942 | the stored files, the pending ranges and the open range stay those of the blocks visited so far |
| UnallocWalk.UnallocTracker.Finish | tsk/auto/auto_db.cpp:988-998 | the last range always ends the last file |
| UnallocWalk.AddFsInfoUnalloc | tsk/auto/auto_db.cpp:951-1006 | a whole walk adds exactly the specified files |
| UnallocWalk.ConservedExactly | tsk/auto/auto_db.cpp:967-998 | the files cover the bytes of the visited blocks, each once, exactly when a block was visited |
| UnallocWalk.NothingVisited | tsk/auto/auto_db.cpp:988-998 | a walk that visits nothing stores the block at address 0 in a file of any size whatever |
| UnallocWalk.StoredFilesAreChunks | tsk/auto/tsk_case_db.h:88-95 | sizes are sums of range lengths, ranges are numbered from 0, and the chunk size cuts files as documented |
| UnallocWalk.RangesAreRuns | tsk/auto/auto_db.cpp:905-910 | the ranges of all files, in order, are the runs of visited blocks, in order |
| UnallocFiles.WalkGroupsProperties | tsk/auto/auto_db.cpp:915-936 | every file but the last reaches the chunk size with its last range; -1 gives one range a file, 0 one file |
| UnallocFiles.GroupAccepted | tsk/auto/db_sqlite.cpp:1428-1441 | the ranges of a stored group are separate and already sorted |
| BlockRuns.RunsPartition | tsk/auto/auto_db.cpp:898-913 | runs hold the visited blocks in order, with a missing block between any two |
| BlockRuns.RunsAreUnique | tsk/auto/auto_db.cpp:898-913 | any such runs are the maximal ones |
| ObjectForest.CaseDb.AddObject | tsk/auto/db_sqlite.cpp:156-181 | any parent is stored under a new id above all others; the table stays a forest exactly when the parent is known, and then the root is the parent's |
| ObjectForest.CaseDb.AddImageInfo | tsk/auto/db_sqlite.cpp:513-525 | a new object without parent, which is its own root |
| ObjectForest.CaseDb.AddFsInfo | tsk/auto/db_sqlite.cpp:632-654 | an object and a row of tsk_fs_info for any parent; the table stays a forest exactly when the parent is known |
| ObjectForest.GrowForest | tsk/auto/db_sqlite.cpp:156-181 | a row above all others keeps the table a forest exactly when only an image has no parent and the parent is known |
| ObjectForest.CaseDb.GetParentImageId | tsk/auto/db_sqlite.cpp:1768-1788 | terminates, fails exactly for unknown ids, and otherwise returns the root |
| ObjectForest.CaseDb.GetFsInfos | tsk/auto/db_sqlite.cpp:1539-1584 | never fails, and returns the file systems below the image in table order |
| ObjectForest.RootIsTheOnlyImage | tsk/auto/db_sqlite.cpp:1768-1788 | parent links lead from an object to exactly one image, its root |
| ObjectForest.RootStays | tsk/auto/db_sqlite.cpp:156-181 | later rows do not change a root |
| ImageLoader.AutoDb.AddImageDetails | tsk/auto/auto_db.cpp:194-219 | the loader's image is new and has no file systems |
| ImageLoader.AutoDb.FilterVs | tsk/auto/auto_db.cpp:275-284 | a volume system below the current image |
| ImageLoader.AutoDb.FilterVol | tsk/auto/auto_db.cpp:286-298 | a volume below the current volume system |
| ImageLoader.AutoDb.FilterFs | tsk/auto/auto_db.cpp:301-321 | a file system below the current volume, or the image without one, and in the current image |
| ImageLoader.AutoDb.FindFilesInImg | tsk/auto/auto.cpp:278-319 | the current image reports exactly the file systems found in it, and other images are unchanged |
| ImageLoader.AddImage | tsk/auto/case_db.cpp:214-230 | one loader for one image |
| ImageLoader.AddImages | tsk/auto/case_db.cpp:196-230 | after any number of images each reports exactly its own file systems |
| ImageLoader.FileSystemsExactly | tsk/auto/auto.cpp:278-319 | one file system for each volume that has one, at the place given by the volumes in front of it |
| PathSplit.PathBuffers.GetParentPathAndName | tsk/auto/tsk_db.cpp:50-112 | fails exactly for long paths, otherwise returns the split; the member buffers never overflow |
| PathSplit.NormalForms | tsk/auto/tsk_db.cpp:64-88 | every path in normal form: a missing slash in front is added and one at the end dropped |
| PathSplit.SplitExact | tsk/auto/tsk_db.cpp:76-106 | the split is the one folder ending in a slash and name without one that join to the normalised path |
| PathSplit.SplitInvertsStorage | tsk/auto/db_sqlite.cpp:924-932 | splitting the path of a stored directory gives its columns, exactly when its folder has no slash in front |
| PathHash.Hash | tsk/auto/db_sqlite.cpp:713-725 | the loop computes the path key |
| PathHash.KeyIsNumber | tsk/auto/db_sqlite.cpp:713-725 | the hash is the number that the letters make to the base 33 behind 5381, modulo 2^32 |
| PathHash.KeyIgnoresSlashes | tsk/auto/db_sqlite.cpp:719-721 | paths that differ only in slashes share a key |
| PathHash.InsideSharesKey | tsk/auto/db_sqlite.cpp:985-989 | a directory and the parent path of its entries share a key |
| FileLoader.FileDb.StoreObjId | tsk/auto/db_sqlite.cpp:736-769 | every bucket stays the one its first directory filled; . and .. are skipped |
| FileLoader.FileDb.FindParObjId | tsk/auto/db_sqlite.cpp:778-844 | the id of the first cached directory if its path key matches, otherwise an id of the query or -1 |
| FileLoader.FileDb.AddFile | tsk/auto/db_sqlite.cpp:852-1054 | the rows of the file and of its slack, their objects, and the cache entry of a directory |
| FileLoader.FileDb.AddFsFile | tsk/auto/db_sqlite.cpp:677-705 | the root hangs below its file system, other files below the parent found, and the rest is kept; every file lies in the image of its file system |
| FileRows.NameColumn | tsk/auto/db_sqlite.cpp:896-932 | the columns of the row; the attribute's name comes behind a colon but for unnamed ones and the index $I30 |
| FileRows.SlackRow | tsk/auto/db_sqlite.cpp:991-1005 | when there is a second row, in terms of the fields, and what it holds |
| FileRows.CacheEntry | tsk/auto/db_sqlite.cpp:736-769 | which directories come into the cache, with what address, sequence, path and id |
| FileRows.SelectedExactly | tsk/auto/db_sqlite.cpp:818-836 | the query selects exactly the rows with the address and file system whose columns join to the normalised path |
| FileRows.ParentRow | tsk/auto/db_sqlite.cpp:778-844 | without an answer of the cache the parent is such a row, and there is none exactly for long paths and unknown folders |
| FileLoader.FileDb.AddFiles | tsk/auto/db_sqlite.cpp:677-1054 | in any run of insertions rows are only added and written buckets never change; where no directory is taken for another folder, each parent is one the query alone could give |
| ParentCache.BucketsNeverChange | tsk/auto/db_sqlite.cpp:759-768 | a bucket holds one path hash and is the same after any further directories |
| ParentCache.CacheMeetsQuery | tsk/auto/db_sqlite.cpp:792-836 | whatever the hash, a cached id is one the query selects exactly when the asked folder reads like the stored columns |
| ParentCache.CacheAgreesWithQuery | tsk/auto/db_sqlite.cpp:792-836 | with a hash that separates paths with different letters, exactly for a directory that is the one asked for and has no attribute suffix |
| FileLoader.CacheIsTransparent | tsk/auto/db_sqlite.cpp:778-844 | the answer is one the query alone could give exactly when the cache has none, or the path is not too long and the cached directory is the one asked for |
| ParentCache.StreamAnswersForDirectory | tsk/auto/db_sqlite.cpp:916-920 | a directory first stored under a stream name: the cache answers, the query finds nothing |
| CacheRuns.IndexFirst | tsk/auto/db_sqlite.cpp:677-1054 | a directory of any plain name that comes with its index $I30: a file in it gets its row, which the query selects too |
| CacheRuns.SequencesTell | tsk/auto/db_sqlite.cpp:746-758 | two NTFS directories with one path and one address are told apart by their sequences |
| CacheRuns.StreamFirst | tsk/auto/db_sqlite.cpp:677-1054 | three insertions on an NTFS file system that bring that about: the file gets the stream's row as its parent |
| ParentCache.SlashesCollide | tsk/auto/db_sqlite.cpp:713-725 | folders whose paths differ only in where a slash stands share a hash: the first is the cached answer, the query selects the second |
| CacheRuns.SlashesFirst | tsk/auto/db_sqlite.cpp:677-1054 | for any names a, b and c without dots: insertions of a/bc and ab/c with one address, after which a file in ab/c gets a/bc as its parent |
| GraphicRuns.StringsExact | tools/srchtools/srch_strings.c:543-602 | the list found from left to right is the ordered list of maximal runs that are long enough and start early enough |
| GraphicRuns.NextRun | tools/srchtools/srch_strings.c:548-563 | starting again behind a non-graphic character misses no run |
| WrittenText.UnitsOfWritten | tools/srchtools/srch_strings.c:491-511 | characters written in any encoding are read back, and bytes too few for one are dropped |
| WrittenText.OutputIsStrings | tools/srchtools/srch_strings.c:211-214 | the output, in terms of the characters themselves: which are shown, where a string starts and ends, and its address |
| WrittenText.TextComesOut | tools/srchtools/srch_strings.c:461-602 | in every encoding a text that is shown throughout comes out as one string |
| WrittenText.ScanText | tools/srchtools/srch_strings.c:532-603 | what print_strings gives for a text written in any encoding: exactly its strings |
| StringScanner.Input.GetChar | tools/srchtools/srch_strings.c:461-518 | the next character of the buffer followed by the stream, or EOF when too few bytes are left |
| StringScanner.TryLine | tools/srchtools/srch_strings.c:548-566 | the first characters of a run, a new start that loses no output, or the end, and what this does to a released buffer |
| StringScanner.PrintStrings | tools/srchtools/srch_strings.c:532-603 | terminates; the list is that of the wanted runs with their addresses, as long as a released buffer keeps its contents, and the buffer is used or released after its release exactly where Misuse holds |
| StringScanner.MisuseWithoutStop | tools/srchtools/srch_strings.c:536-589 | without a stop point the buffer is misused exactly when there is anything to print |
| StringScanner.MisuseExactly | tools/srchtools/srch_strings.c:536-589 | with any stop point, exactly when there is a first string and the stop point is not reached behind it before a graphic character or the end |
| StringScanner.OneStringMisuses | tools/srchtools/srch_strings.c:556-589 | four letters and nothing else: the buffer is released twice |
| OptionSteps.StepReads | tsk/base/XGetopt.c:161-218 | every call that does not return EOF uses up characters of the command line |
| Getopt.Parser.TskGetopt | tsk/base/XGetopt.c:161-218 | result, optarg, optind and the hidden pointer after one call |
| Getopt.Parser.ReadOptions | tsk/base/XGetopt.c:114-140 | calling until EOF terminates with the results of the whole run |
| OptionWriting.ParsingInvertsWriting | tsk/base/XGetopt.c:161-218 | a command line written from options gives exactly their letters and arguments in order; the index ends behind them, and the argument is what stands there |
| OptionWriting.MissingArgument | tsk/base/XGetopt.c:199-214 | a last option without the argument it wants is reported as '?' |
| OptionWriting.OffsetOption | tsk/base/XGetopt.c:203-211 | "-o63" is o with "63", and "-rd 5" is r and d with "5" |
| OptionSteps.RunMoved | tsk/base/XGetopt.c:161-218 | a command line moved by one place gives the same results with the index moved by one |
| OptionSteps.SplitHere | tsk/base/XGetopt.c:77-78 | splitting the cluster about to be read is unseen but for the final index, exactly under the stated condition |
| OptionSteps.SplitCluster | tsk/base/XGetopt.c:77-78 | the same for a cluster anywhere in the command line that the run comes to |
| OptionSteps.CombinedIsNotSeparate | tsk/base/XGetopt.c:77-78 | "-ab" and "-a -b" differ when a takes an argument |
| HiveBuffer.ByteBuffer.SetPosition | rejistry++/src/Buffer.cpp:42-48 | positions beyond the limit raise an exception and change nothing |
| HiveBuffer.ByteBuffer.GetInt | rejistry++/src/ByteBuffer.h:87-92 | four bytes, least significant first, or 0 when they are not all there |
| HiveBuffer.ByteBuffer.Get | rejistry++/src/ByteBuffer.cpp:60-84 | the bytes copied, the position afterwards, and when an exception is raised instead, in 32-bit arithmetic |
| HiveCells.GetAsDocumented | rejistry++/src/ByteBuffer.h:54-62 | a copy does as documented exactly when the offset is the length, the destination has twice that size and the contents happen to fit |
| HiveCells.DocumentedOnlyForNothing | rejistry++/src/ByteBuffer.h:54-62 | for all contents exactly when nothing is copied |
| HiveBuffer.ReadOneByte | rejistry++/src/ByteBuffer.h:54-62 | one call that does otherwise |
| HiveBuffer.ByteBuffer.GetData | rejistry++/src/RegistryByteBuffer.cpp:137-145 | a range of the hive with the position restored, or the exception: an invalid argument leaves the position, a parse failure leaves it at the offset |
| HiveBuffer.Cell.GetLength | rejistry++/src/Cell.cpp:38-40 | the absolute value of the signed length word |
| HiveBuffer.Cell.GetData | rejistry++/src/Cell.cpp:46-48 | the data of the cell behind its length word, or the exception |
| HiveBuffer.GetBigData | rejistry++/src/DBIndirectRecord.cpp:38-62 | the assembled value or the first exception; on success one entry was read for each piece and the position is unchanged |
| HiveWriting.NumberReadBack | rejistry++/src/ByteBuffer.h:87-92 | four bytes that hold a number are read as it, and 0 behind the end |
| HiveWriting.LengthReadBack | rejistry++/src/Cell.cpp:38-40 | a length is read the same negated and, below 2^31, as it is |
| HiveWriting.ValueReadBack | rejistry++/src/DBIndirectRecord.cpp:38-62 | a value spread over listed cells is put together again |
| HiveWriting.ChecksExactly | rejistry++/src/ByteBuffer.cpp:66-82 | which copies pass the checks, modulo 2^32 |
| HiveWriting.FilledExactly | rejistry++/src/ByteBuffer.cpp:60-84 | which bytes of the destination a copy changes, and to what |
| HiveCells.AssembleExact | rejistry++/src/DBIndirectRecord.cpp:43-59 | reading succeeds exactly when every needed cell can be read; the value has the length asked for and comes from the cells piece by piece |
| HiveCells.MeasurableExactly | rejistry++/src/ByteBuffer.cpp:74-82 | the checks let a copy of a cell through that runs past the hive exactly when the cell is not Measurable |
| HiveCells.UsableExactly | rejistry++/src/DBIndirectRecord.cpp:43-59 | the precondition of GetBigData holds exactly when no piece that is come to is copied past the hive or taken past its cell |
| HiveCells.EmptyCellOverruns | rejistry++/src/Cell.cpp:46-48 | a cell with length word 0 runs past the hive |
| HiveCells.ShortCellOverruns | rejistry++/src/DBIndirectRecord.cpp:53-55 | a cell with fewer bytes than are taken |

## Left out

- Memory allocation, its failure and its release except for the buffer of the strings scanner; zeroing of contexts after use, host-endianness detection (the byte order is a parameter of the SHA-1 model), logging and printed formats.
- SQL text and statements: tables are maps and sequences of rows, a new id is some id above all existing ones, and database errors do not occur.
- Savepoints and reverts: they restore tables but not the directory cache, so they are not part of the runs of `FileLoader`.
- `tsk_cleanupUTF8` is the identity, as it is on valid UTF-8; the image, volume and file-system walkers appear only through what they report.
- One `TskAutoDb` for several images: the flags for volume systems and volumes are never reset, and `TskCaseDb` makes one loader for each image.
- Cancellation of a walk, the error return of the block walk, and byte products beyond 64 bits.
- ImageLoader.AutoDb.AddImageDetails: image names, time zone and device id are not part of the row.
- LayoutFiles.LayoutDb.AddFileWithLayoutRange: the object row, the parent, the generated file name and the check of the file type are not stated.
- FileLoader.FileDb.AddFile: only the columns that the parent query reads are kept in a row; times, sizes, hashes, flags and the extension are not.
- CrcModel.ResidueIsZero: widths that are not whole bytes are not covered: no string of bytes holds such a register.
- CrcResidue.ResidueIsConstant: masks wider than the register, and models that reflect only bytes or only the result, are not covered: their CRC value does not enter the register as it left it.
- Sha1Stream.Sha1Context.Final: the context is not usable afterwards, as in the source.
- StringScanner.PrintStrings: the minimum length is at least 1, characters are computed in 64-bit integers, and what a misused buffer does to the rest of the output is not modelled.
- HiveBuffer.GetBigData: hives on which the source reads past the end are outside its precondition; `HiveCells.UsableExactly` says which they are.
- HiveBuffer.ByteBuffer.Get: calls that pass the checks and copy past the end of the hive or of the destination are outside its precondition.
- The SHA-1 and MD5 command-line tools, `cm_tab`, the PostgreSQL backend, string decoding, key and cell walks of the registry library, and GUID generation.
