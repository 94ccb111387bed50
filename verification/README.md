# partman: a verified model

partman edits MBR and GPT partition tables in disk images. This project models its library and its command loop
in Dafny and proves what they promise:

- **Allocator and edit loop.** The searches for a start sector, an end sector and an overlapping partition are
  methods with the loops of the program, each proved equal to a mathematical specification ("the least free
  sector, moved up to the next aligned one if that is free"). On tables of other tools, overlapping and
  malformed ones included, it is proved exactly when the search for a start ends, and exactly when it finds what
  it should. From safe tables, over every run of the command loop with any input, used partitions stay well
  formed, in the usable range and disjoint; and no run touches a byte between the two GPT tables.
- **Redundant GPT store.** Header and table codecs, both header/table pairs, loading with fallback,
  reconstruction of a lost pair, and saving as four region writes. Proved: the round trip, recovery field for
  field, crash consistency after every prefix of the four writes (exactly when the two tables do not collide in
  checksum), what any sequence of cut saves leaves, and that no single damaged byte anywhere in the image
  changes the scheme it loads as.
- **CRC-32.** The doubling loop that fills the table and the table-driven update equal bitwise polynomial
  division (section 8 of RFC 1952), with the polynomial, the check value and the residue of CRC-32. Any damage
  inside four consecutive bytes changes the checksum.
- **MBR, CHS, context.** The MBR round trip and frame, exact CHS addresses, which schemes are in memory and in
  the image over a program's life, what every cut of an update or a conversion leaves, and exactly when writing
  and starting again gives back what was edited.

The layout follows sections 5.2.1, 5.2.3, 5.3.1, 5.3.2 and 5.3.3 of the UEFI Specification where the code does.

## How the model is built

Every module that models imperative code comes in two layers: functions on values (bytes of an image as
`seq<byte>`, schemes as datatypes) that say what happens, and methods and classes with the loops, arrays and
fields of the C code, whose postconditions equate the new state with such a function of the old one. The
theorems are about the functions.

| file | models |
|---|---|
| `Words.dfy`, `Memutils.dfy` | words, exclusive or, little-endian fields, structures as lists of fields (`memutils.c`) |
| `Crc32.dfy`, `CrcCheck.dfy` | the checksum, its table, burst detection, known values (`crc32.c`) |
| `Guid.dfy` | GUIDs on disk and in the checksum (`guid.c`) |
| `ImgCtx.dfy` | geometry, alignment, CHS (`img_ctx.c`) |
| `Schem.dfy`, `SectorSearch.dfy`, `SearchEnds.dfy` | schemes, searches (`schem.c:309-489`), what the searches promise, and when the start search ends |
| `GptFormat.dfy`, `GptTable.dfy`, `GptCodec.dfy` | header and table bytes, and the loops that read and write them |
| `GptStore.dfy`, `GptRecovery.dfy`, `GptTheorems.dfy`, `GptDamage.dfy`, `GptCrashes.dfy` | loading and saving an image as values, and the theorems |
| `GptProgram.dfy`, `GptScheme.dfy` | `gpt_pair_*`, `gpt_save`, `gpt_load`, `gpt_restore` and the scheme functions, in place |
| `Mbr.dfy` | the MBR (`mbr.c`) |
| `OnDisk.dfy` | what a saved image holds at each byte position (`gpt.c`, `mbr.c`, `guid.c`) |
| `CtxModel.dfy`, `CtxCrash.dfy`, `CutRuns.dfy`, `CtxProgram.dfy` | the scheme context (`schem.c:58-307`) |
| `EditModel.dfy`, `EditLaws.dfy`, `Session.dfy`, `CommandLaws.dfy`, `SessionLaws.dfy`, `EditProgram.dfy` | the commands and the command loop (`main.c:178-555`) |

Conventions:

- An image is an array of bytes. Mapping sectors that do not lie in the image is the fatal result. A save is
  four whole region writes that reach the disk in program order; the code itself only synchronizes at the end.
- `pu8`, `pu16`, `pu32`, `pu64` have 8, 16, 32 and 64 significant bits. Code units of names are as wide as
  `pu32`, since the program stores them in a type of at least 16 bits; a read one has 16. Shifts and masks are
  division and remainder; `|` of disjoint bits is addition; `^` is `Xor` over binary digits. Sums and
  differences that the code lets wrap (the rebuilt table position, the MBR size and end) wrap at 2^64.
- A C union is one field for each of its members; the one that the scheme kind does not use stays zero.
- The loops over the two scheme kinds are written out: MBR first, then GPT. `schem_ctx_get_type` asks for GPT
  first.
- Random values are parameters or part of the command that draws them. User input is any `Input`: an empty line,
  a number, or something unreadable.
- A table has exactly as many slots as the partition count.

## Where code and documentation or intent differ

The model follows the code.

- Names are stored at `56 + i` and not `56 + 2*i` (`libs/libpartman/src/gpt.c:273`, `:292`), so neighbouring
  code units overlap on disk. A name survives exactly if it is *chained*: the high byte of each code unit is the
  low byte of the next. `NameReadWriteIff`, `EntReadWriteIff` and `RoundTripIff` prove this; every name that the
  program can hold is chained (`LoadedNamesChained`, `EditStorable`).
- The end search compares `part->start_lba < next_lba_bound` strictly (`libs/libpartman/src/schem.c:460`). A
  one-sector partition can then be passed over. `BoundExact`, `OfferedEndOverlapsIff` and `DefaultsAddIff` give
  the exact condition, `DefaultsFail` commands that reach it from a new MBR scheme.
- The start search goes on behind the end of a conflicting partition (`libs/libpartman/src/schem.c:411`). For an
  end of 2^64 - 1 the sum wraps and the search is sent back to sector 0: it may then offer a sector below the
  usable range (`OffersBelow`; `TooLongOffersBelow` and `TooLongLoads` give a table and an image), or try the
  same sectors forever. `SearchEndsIff` and `SearchRightIff` give the exact conditions. A loaded MBR entry with
  a type but without start and size is such a partition (`ZeroEntryWrapsIff`, `ZeroEntryNeverEnds`).
- An edit of the protective MBR can be lost on a restart: over a GPT, loading replaces an MBR that does not
  begin with a partition of type 0xEE by a fresh one with a newly drawn identifier
  (`libs/libpartman/src/schem.c:205-213`). `RestoredIff` gives the exact condition, `RetypeIsLost` four commands
  that reach it.
- `chs_int_to_tuple` rotates the cylinder instead of undoing the packing (`libs/libpartman/src/img_ctx.c:131`).
  `TuplePrintsRightIff` shows that it is right for cylinders 0, 341, 682 and 1023 only. It is used for printing
  only; `ChsExact` uses the on-disk layout.
- `schem_remove_mbr` writes the boot signature back, so the MBR is still found (`RemoveLeavesMbr`).
  `RunLifecycle` shows that no run takes this path, from any image that can be loaded.
- The help text calls `w` "write scheme to image and exit"; the code writes and goes on.
- The README names `(1023, 254, 63)` for sectors beyond the reach of CHS; the code stores the last address of
  the geometry, `(1023, hpc - 1, spt)` (`ChsSaturates`).
- One crash is survived, two need not be: recovery happens in memory only, and the next save overwrites the
  secondary pair first, which after a crash may be the only intact one. `CutsLoad` says what the image loads as
  after any sequence of cut saves, `LostBy` which two of them a lost GPT takes, `OneCutSafe` that one alone
  never loses it, `RepairSafe` that saving the loaded scheme unchanged first is safe.
- Replacing one kind of scheme by the other is not atomic: `ConvertToGpt` and `ConvertToMbr` say what is found
  after every write, including the moments with neither the old partitions nor the new ones.
- The secondary header is rebuilt with a table position that depends on the entry count, while saving always
  leaves room for 128 entries. The two agree exactly if the table takes as many sectors as 128 entries do
  (`SecRebuiltIff`).

## Model

| member | source | states |
|---|---|---|
| Memutils.ReadWrite | libs/libpartman/src/memutils.c:3-77 | a value that fits its width is read back after being written, for every width |
| Memutils.WriteRead | libs/libpartman/src/memutils.c:3-77 | bytes that are read and written back are unchanged |
| Memutils.WritePu8 | libs/libpartman/src/memutils.c:3-6 | the buffer is the old one with the little-endian byte written over it |
| Memutils.WritePu16 | libs/libpartman/src/memutils.c:8-12 | the same for two bytes |
| Memutils.WritePu24 | libs/libpartman/src/memutils.c:14-19 | the same for three bytes |
| Memutils.WritePu32 | libs/libpartman/src/memutils.c:21-27 | the same for four bytes |
| Memutils.WritePu64 | libs/libpartman/src/memutils.c:29-39 | the same for eight bytes |
| Memutils.ReadPu16 | libs/libpartman/src/memutils.c:46-50 | the shifted bytes make the number that the two bytes denote |
| Memutils.ReadPu24 | libs/libpartman/src/memutils.c:52-57 | the same for three bytes |
| Memutils.ReadPu32 | libs/libpartman/src/memutils.c:59-65 | the same for four bytes |
| Memutils.ReadPu64 | libs/libpartman/src/memutils.c:67-77 | the same for eight bytes |
| Crc32.StepLinear | libs/libpartman/src/crc32.c:15-22 | a division step is linear in exclusive or, on which the doubling loop rests |
| Crc32.StepsByTable | libs/libpartman/src/crc32.c:45-46 | eight division steps of any word are a shift by a byte and a look-up of the lost byte |
| Crc32.EntryIsZero | libs/libpartman/src/crc32.c:41-43 | entry 255 is zero only while the table is unused, so the lazy initialization is sound |
| Crc32.EntryOfSum | libs/libpartman/src/crc32.c:17-22 | what the inner loop stores at i + j is the entry of i + j |
| Crc32.Table.Init | libs/libpartman/src/crc32.c:10-25 | the doubling loop leaves eight bitwise division steps of b at every b |
| Crc32.Table.FillOddMultiples | libs/libpartman/src/crc32.c:19-21 | one pass makes the entries at multiples of i final, given those at multiples of 2 * i |
| Crc32.Table.Compute8 | libs/libpartman/src/crc32.c:39-47 | the table-driven update is bitwise division of the byte, whether or not the table was filled before |
| Crc32.Table.Compute16 | libs/libpartman/src/crc32.c:49-53 | the update by a 16-bit word divides its two little-endian bytes |
| Crc32.Table.Compute32 | libs/libpartman/src/crc32.c:55-61 | the same for four bytes |
| Crc32.Table.Compute64 | libs/libpartman/src/crc32.c:63-73 | the same for eight bytes |
| Crc32.DivideConcat | libs/libpartman/src/crc32.c:39-47 | dividing a concatenation is dividing its parts in turn |
| Crc32.DivideInjective | libs/libpartman/src/crc32.c:39-47 | different remainders stay different whatever equal bytes follow |
| Crc32.WindowInjective | libs/libpartman/src/crc32.c:55-61 | up to four bytes are determined by the remainder they lead to |
| Crc32.BurstDetected | libs/libpartman/src/crc32.c:27-47 | streams of equal length that differ only inside four consecutive bytes have different checksums |
| CrcCheck.PolyBits | libs/libpartman/src/crc32.c:18 | the word holds the CRC-32 polynomial: which exponents it has, in reflected bit order |
| CrcCheck.EmptyChecksum | libs/libpartman/src/crc32.c:27-37 | the checksum of nothing is zero |
| CrcCheck.CheckValue | libs/libpartman/src/crc32.c:10-47 | the checksum of "123456789" is the check value 0xCBF43926 |
| CrcCheck.Residue | libs/libpartman/src/crc32.c:27-61 | whatever the message, with its stored checksum behind it the remainder is 0xDEBB20E3 |
| CrcCheck.DivideNumber | libs/libpartman/src/crc32.c:49-61 | dividing the bytes of a number is taking division steps from its exclusive or with the remainder |
| CrcCheck.StepValue | libs/libpartman/src/crc32.c:18 | a division step of the machine word is one of the number that it denotes |
| Guids.GuidReadWrite | libs/libpartman/src/guid.c:32-60 | a GUID written is read back |
| Guids.GuidWriteRead | libs/libpartman/src/guid.c:32-60 | sixteen bytes read as a GUID are written back unchanged |
| Guids.GuidStructure | libs/libpartman/src/guid.c:47-60 | the sixteen bytes are the eleven fields one behind the other |
| Guids.GuidWrite | libs/libpartman/src/guid.c:47-60 | writes exactly those bytes and nothing else |
| Guids.GuidRead | libs/libpartman/src/guid.c:32-45 | reads the GUID that those bytes denote |
| Guids.GuidCrcCompute | libs/libpartman/src/guid.c:62-75 | the checksum takes in exactly the bytes that are written |
| Guids.GuidIsZero | libs/libpartman/src/guid.c:77-90 | the accumulated flag says whether the GUID is the zero GUID |
| ImgCtxs.InitAlign | libs/libpartman/src/img_ctx.c:13-60 | which options, defaults filled in, pass validation |
| ImgCtxs.AlignFits | libs/libpartman/src/img_ctx.c:85-89 | whatever the alignment, aligning up a sector below 2^63 does not wrap |
| ImgCtxs.ByteToLbaUp | libs/libpartman/src/img_ctx.c:80-83 | rounding up gives the least number of sectors that holds the bytes |
| ImgCtxs.ByteToLbaDown | libs/libpartman/src/img_ctx.c:80-83 | rounding down gives the greatest number of whole sectors |
| ImgCtxs.AlignUp | libs/libpartman/src/img_ctx.c:85-89 | aligning up gives the multiple of the alignment in [lba, lba + align) |
| ImgCtxs.AlignDown | libs/libpartman/src/img_ctx.c:85-89 | aligning down gives the multiple in (lba - align, lba] |
| ImgCtxs.AlignUpBetween | libs/libpartman/src/img_ctx.c:85-89 | a sector between lba and its aligned sector aligns to the same |
| ImgCtxs.PackedOnDisk | libs/libpartman/src/img_ctx.c:123-127 | the packed tuple holds cylinder, head and sector in the on-disk layout |
| ImgCtxs.TuplePrintsRightIff | libs/libpartman/src/img_ctx.c:129-134 | the program's decoder undoes the packing if and only if the cylinder is a multiple of 341 |
| ImgCtxs.ChsExact | libs/libpartman/src/img_ctx.c:91-127 | for every geometry, each addressable sector is stored as the tuple that denotes it, within its bounds |
| ImgCtxs.ChsInjective | libs/libpartman/src/img_ctx.c:91-127 | different addressable sectors are stored differently |
| ImgCtxs.ChsSaturates | libs/libpartman/src/img_ctx.c:96-109 | sectors beyond are stored as (1023, hpc - 1, spt), or (1023, 255, 63) when protective |
| Schemes.LeastFreeMeaning | libs/libpartman/src/schem.c:364-434 | the specified sector is free, in range, and nothing below it is free; -1 means nothing is |
| Schemes.TouchesIsSharing | libs/libpartman/src/schem.c:331-344 | the three overlap tests are interval intersection for well-formed partitions |
| Schemes.SearchMove | libs/libpartman/src/schem.c:411-429 | moving past a conflicting partition skips no free sector, on any table |
| Schemes.SearchFallBack | libs/libpartman/src/schem.c:404-409 | an occupied aligned sector leaves the candidate below it to be tried |
| Schemes.SearchFits | libs/libpartman/src/schem.c:411-417 | a search that is not sent back meets no partition on its way that makes the sum wrap |
| Schemes.ReachesNext | libs/libpartman/src/schem.c:382-431 | what an iteration does to the state of the search, given the conflict it finds |
| Schemes.SearchFound | libs/libpartman/src/schem.c:382-433 | a free sector that the search settles on is the specified one |
| Schemes.Scheme.FindOverlap | libs/libpartman/src/schem.c:314-349 | the first slot that overlaps the stretch, or -1 exactly if none does |
| Schemes.Scheme.FindPartIndex | libs/libpartman/src/schem.c:351-362 | the first slot whose use is as asked for, or -1 exactly if there is none |
| Schemes.Scheme.FindConflict | libs/libpartman/src/schem.c:385-398 | a slot that covers the sector, or -1 exactly if the sector is free |
| Schemes.Scheme.FindStartSector | libs/libpartman/src/schem.c:364-434 | on every table on which the search is not sent back to sector 0: terminates with the least free sector, aligned up if that is free and in range, else -1; its loop passes through the states of the search |
| Schemes.Scheme.FindLastSector | libs/libpartman/src/schem.c:436-489 | on every table the result is the specified end, which `LastSectorExact` and `LastSectorFails` pin down |
| SectorSearch.StartIsFree | libs/libpartman/src/schem.c:364-434 | the start offered is usable and free: the least free sector, or the aligned sector above it if that is usable and free; -1 exactly if nothing is free |
| SectorSearch.BoundFacts | libs/libpartman/src/schem.c:445-463 | the bound never lies above a later start and is the range end or one below some start |
| SectorSearch.MissedIsBound | libs/libpartman/src/schem.c:458-462 | when exactly the strict comparison passes the lowest partition over |
| SectorSearch.BoundExact | libs/libpartman/src/schem.c:445-463 | the bound is one below the lowest later start, or that start exactly if its partition is missed - which takes a single sector |
| SectorSearch.LastSectorExact | libs/libpartman/src/schem.c:436-489 | on every table: the highest segment border below the bound if the stretch up to it is not empty and clear, else the bound; the bound itself without alignment; sector 0 or the bound if there is no border below |
| SectorSearch.LastSectorFails | libs/libpartman/src/schem.c:465-468 | -1 if and only if the start lies beyond the usable range |
| SectorSearch.OfferedEndOverlapsIff | libs/libpartman/src/schem.c:436-489 | a free start with the offered end passes the overlap test if and only if no missed partition decides the end |
| SectorSearch.DefaultsWork | src/main.c:343-386 | taking both defaults always gives a clear stretch in range when no other partition is a single sector |
| SearchEnds.LastHitIff | libs/libpartman/src/schem.c:385-429 | going from candidate to candidate comes to a free sector if and only if there is one |
| SearchEnds.Chain | libs/libpartman/src/schem.c:382-431 | where the search leads from any candidate: to a free sector if there is one, else back to sector 0 if the last partition on its way wraps, else to -1 |
| SearchEnds.NeverEnds | libs/libpartman/src/schem.c:382-431 | sent back from the first usable sector and from sector 0, the search never ends |
| SearchEnds.DoneOnce | libs/libpartman/src/schem.c:382-433 | a search has one result |
| SearchEnds.SearchEndsIff | libs/libpartman/src/schem.c:364-434 | on every table the search ends if and only if it is not sent back from the first usable sector, or not from sector 0 |
| SearchEnds.SearchRightIff | libs/libpartman/src/schem.c:364-434 | on every table it gives what it should if and only if it is not sent back, or is sent back once and nothing is free from sector 0 on either |
| SearchEnds.OffersBelow | libs/libpartman/src/schem.c:411-433 | sent back with a free sector below the usable range, it ends with a sector below the usable range |
| SearchEnds.SearchableIf | libs/libpartman/src/schem.c:364-434 | a free sector in range, or no partition to the end of the range that ends at 2^64 - 1, suffices not to be sent back |
| SearchEnds.TooLongOffersBelow | libs/libpartman/src/schem.c:411-433 | a GPT table on which a sector below the usable range is offered |
| SearchEnds.TooLongLoads | libs/libpartman/src/gpt.c:865-897 | images that load as this table |
| SearchEnds.ZeroEntryWrapsIff | libs/libpartman/src/mbr.c:280-283 | an MBR entry is loaded as a partition that ends at 2^64 - 1 if and only if start and size are zero |
| SearchEnds.ZeroEntryNeverEnds | libs/libpartman/src/schem.c:382-431 | with such an entry alone in an MBR the search for any other slot never ends |
| GptFormat.HdrReadWrite | libs/libpartman/src/gpt.c:328-378 | a header written is read back field for field |
| GptFormat.HdrWriteRead | libs/libpartman/src/gpt.c:328-378 | writing a header that was read restores every byte but signature and reserved word |
| GptFormat.HdrCrcOfBytes | libs/libpartman/src/gpt.c:219-256 | the field-wise checksum is the checksum of the 92 stored bytes with 16..23 cleared |
| GptTable.NameReadWriteIff | libs/libpartman/src/gpt.c:272-274 | a name survives the overlapping layout if and only if it is chained |
| GptTable.NameReadIsChained | libs/libpartman/src/gpt.c:291-293 | a name read from disk is chained and writes its bytes back |
| GptTable.EntReadWriteIff | libs/libpartman/src/gpt.c:258-294 | an entry survives being written and read if and only if its name is chained |
| GptTable.EntWriteRead | libs/libpartman/src/gpt.c:258-294 | an entry that was read writes the same bytes back |
| GptTable.StreamOfBytes | libs/libpartman/src/gpt.c:186-200 | which stored byte the checksum of a read entry takes at each of its 128 positions; overlapped name bytes twice |
| GptTable.TableSpliceEntry | libs/libpartman/src/gpt.c:296-305 | after a table is written, each entry is found at its place |
| GptTable.TableSpliceFrame | libs/libpartman/src/gpt.c:296-305 | bytes before and behind the table are unchanged |
| GptCodec.HdrWrite | libs/libpartman/src/gpt.c:328-356 | writes exactly the header bytes |
| GptCodec.WriteBytes | libs/libpartman/src/gpt.c:332-335 | the signature loop writes the signature and nothing else |
| GptCodec.HdrRead | libs/libpartman/src/gpt.c:358-378 | reads the header that the bytes denote |
| GptCodec.FeedBytes | libs/libpartman/src/gpt.c:226-229 | feeding the signature divides its bytes |
| GptCodec.FeedHdr | libs/libpartman/src/gpt.c:224-251 | feeding the fields in turn divides the header bytes, checksum and reserved word as zero |
| GptCodec.HdrCrcCreate | libs/libpartman/src/gpt.c:219-256 | feeding the fields gives the CRC-32 (`CheckValue`, `Residue`) of the header bytes with the checksum field zero |
| GptCodec.EntWriteFixed | libs/libpartman/src/gpt.c:262-270 | writes exactly bytes 0..55 of an entry |
| GptCodec.NameWrite | libs/libpartman/src/gpt.c:272-274 | overlapping writes leave the low bytes of all code units and the high byte of the last |
| GptCodec.EntWrite | libs/libpartman/src/gpt.c:258-275 | the overlapping two-byte writes leave exactly the 93 specified bytes |
| GptCodec.EntRead | libs/libpartman/src/gpt.c:277-294 | reads the entry that the bytes denote |
| GptCodec.NameCrcCompute | libs/libpartman/src/gpt.c:197-199 | feeding the name divides both bytes of each code unit |
| GptCodec.EntCrcCompute | libs/libpartman/src/gpt.c:186-200 | feeding the fields divides the 128-byte stream of the entry |
| GptCodec.TableCrcCreate | libs/libpartman/src/gpt.c:202-217 | the CRC-32 of the counted entries' streams |
| GptCodec.TableWrite | libs/libpartman/src/gpt.c:296-305 | writes every counted entry at its place and nothing else |
| GptCodec.TableRead | libs/libpartman/src/gpt.c:307-316 | reads every counted entry |
| GptStore.Layout | libs/libpartman/src/gpt.c:712-734 | on every accepted image MBR bytes, header, table, usable range, table and header follow one another inside the image |
| GptStore.HdrsOf | libs/libpartman/src/gpt.c:736-794 | both headers name each other, their tables and the scheme's data, and carry valid checksums |
| GptStore.SaveRegionFits | libs/libpartman/src/gpt.c:441-511 | all four regions of a save lie in the image |
| GptStore.LoadOutcome | libs/libpartman/src/gpt.c:513-710 | loading is fatal if and only if the header at sector 1, or the one where the secondary is looked for, lies outside the image, counts more than 128 entries or has a table outside the image; else a GPT is found if and only if a whole pair is |
| GptStore.LoadedFrom | libs/libpartman/src/gpt.c:628-702 | what is loaded is the header and table of the primary pair if that is whole, else of the secondary one |
| GptRecovery.Places | libs/libpartman/src/gpt.c:712-734 | the byte positions of the four structures are apart and in order |
| GptRecovery.SaveProgress | libs/libpartman/src/gpt.c:609-626 | what is on disk, and what still is as before, after each number of the four writes |
| GptProgram.PairSave | libs/libpartman/src/gpt.c:441-511 | the image becomes the old one with header and then table written |
| GptProgram.IsPresent | libs/libpartman/src/gpt.c:436-439 | the signature test |
| GptProgram.HdrLoad | libs/libpartman/src/gpt.c:536-549 | a header is accepted exactly if signature, checksum and position agree |
| GptProgram.TableLoad | libs/libpartman/src/gpt.c:551-585 | too many entries or a table outside the image is fatal, a wrong checksum is an invalid table, else the entries |
| GptProgram.PairLoadAt | libs/libpartman/src/gpt.c:513-607 | the outcome of loading a pair is the specified one |
| GptProgram.GptBuf.CopyTable | libs/libpartman/src/gpt.c:411-413 | the counted entries are copied |
| GptProgram.GptBuf.Restore | libs/libpartman/src/gpt.c:386-416 | the rebuilt pair has swapped positions, its own table position, a new checksum and the same entries; the source pair is unchanged |
| GptProgram.GptBuf.Save | libs/libpartman/src/gpt.c:609-626 | the four regions are written, the secondary pair first |
| GptProgram.GptBuf.Settle | libs/libpartman/src/gpt.c:662-702 | the decision over two loaded pairs, with reconstruction of the lost one |
| GptProgram.GptBuf.Load | libs/libpartman/src/gpt.c:628-710 | both headers and tables are as specified, as is the outcome, for every image |
| GptTheorems.ConvertBack | libs/libpartman/src/gpt.c:736-831 | converting to entries and back gives the scheme with unused slots zeroed |
| GptTheorems.SaveLoadPairs | libs/libpartman/src/gpt.c:609-710 | saving and loading gives back both pairs exactly as built |
| GptTheorems.LoadedNamesChained | libs/libpartman/src/gpt.c:796-831 | whatever image is loaded, the scheme has chained names and can be saved |
| GptTheorems.RoundTripIff | libs/libpartman/src/gpt.c:865-924 | save then load on any image gives the same scheme, unused slots zeroed, if and only if its names are chained |
| GptTheorems.PrimRebuilt | libs/libpartman/src/gpt.c:685-698 | the primary header is rebuilt from the secondary one field for field |
| GptTheorems.SecRebuiltIff | libs/libpartman/src/gpt.c:668-683 | the secondary header is rebuilt as saved if and only if the table takes as many sectors as 128 entries |
| GptTheorems.PrimaryRecovered | libs/libpartman/src/gpt.c:685-698 | with the secondary pair intact and the primary one found invalid, both pairs and the scheme load as saved |
| GptTheorems.SecondaryRecovered | libs/libpartman/src/gpt.c:668-683 | the same the other way round, with the exact condition for the rebuilt header |
| GptTheorems.DamagedFront | libs/libpartman/src/gpt.c:712-734 | damage in front of the secondary table leaves the secondary pair intact |
| GptTheorems.DamagedBack | libs/libpartman/src/gpt.c:712-734 | damage from the secondary table on leaves the primary pair intact |
| GptTheorems.PrimaryDecides | libs/libpartman/src/gpt.c:637-660 | with the primary pair intact the scheme loads as saved if and only if the secondary pair is not fatal |
| GptTheorems.CrashConsistency | libs/libpartman/src/gpt.c:609-710 | what an image loads as after a new save is cut at any of its four writes, collisions included |
| GptTheorems.ResidueIsOld | libs/libpartman/src/gpt.c:296-316 | what is found at the primary table before the last write is the old table |
| GptTheorems.CrashFromPrimary | libs/libpartman/src/gpt.c:609-710 | the same from any image in which the primary pair of the old scheme is in place and no header at the end is fatal, whatever became of the secondary pair |
| GptTheorems.CrashAtomicIff | libs/libpartman/src/gpt.c:441-710 | from such an image, for any slot counts, every cut loads as exactly the old or exactly the new scheme, changing at the primary header, if and only if what is left at the primary table is not taken for the new table or holds its partitions |
| GptTheorems.HarmlessIff | libs/libpartman/src/gpt.c:202-217 | with equally many slots: if and only if the two tables do not collide in checksum |
| GptCrashes.CutLeavesHalf | libs/libpartman/src/gpt.c:609-626 | a save cut before its last write leaves a valid secondary pair and a primary header over another table |
| GptCrashes.HalfLoads | libs/libpartman/src/gpt.c:685-698 | such an image loads as the new scheme |
| GptCrashes.CutFromInvalid | libs/libpartman/src/gpt.c:609-710 | what an image loads as when a save is cut after any of its writes and the primary pair is invalid then |
| GptCrashes.CutFromLost | libs/libpartman/src/gpt.c:609-710 | the same from an image whose primary pair stays invalid |
| GptCrashes.SecondCrash | libs/libpartman/src/gpt.c:609-626 | what every cut of the save of another scheme over such a half-saved image loads as |
| GptCrashes.SecondCrashIff | libs/libpartman/src/gpt.c:609-626 | with equally many slots, its first write leaves no GPT at all if and only if the checksums of the tables differ |
| GptCrashes.RepairSafe | libs/libpartman/src/gpt.c:609-626 | saving the loaded scheme unchanged first is safe at every cut |
| GptDamage.HdrBurstRejected | libs/libpartman/src/gpt.c:425-429 | a burst of at most four bytes outside 16..23 of a valid header is rejected |
| GptDamage.HdrByteRejected | libs/libpartman/src/gpt.c:425-429 | any one changed byte of a valid header outside 20..23 is rejected |
| GptDamage.ReservedIgnored | libs/libpartman/src/gpt.c:358-378 | the reserved word does not influence what is read |
| GptDamage.StreamChanges | libs/libpartman/src/gpt.c:186-200 | a damaged entry byte changes the checksum stream, and only within four bytes |
| GptDamage.HdrByteDamaged | libs/libpartman/src/gpt.c:513-607 | a damaged byte of a saved header makes the pair hdr_inv, or changes nothing if it is reserved |
| GptDamage.EntByteDamaged | libs/libpartman/src/gpt.c:513-607 | a damaged byte at 0..92 of a counted entry makes the pair table_inv, one at 93..127 changes nothing |
| GptDamage.OneByteTolerated | libs/libpartman/src/gpt.c:628-710 | whatever single byte of a saved image is changed to whatever value, it loads as the saved scheme |
| GptScheme.NewGptUsable | libs/libpartman/src/gpt.c:833-851 | a new scheme has the drawn identifier and 128 unused slots; its usable range fills the space between the tables and is not empty; it is safe and can be saved |
| GptScheme.InitGpt | libs/libpartman/src/gpt.c:833-851 | the scheme is the new one with the drawn identifier |
| GptScheme.TableFromSchem | libs/libpartman/src/gpt.c:764-782 | used slots become entries, unused ones stay zero |
| GptScheme.PrimHdrFromSchem | libs/libpartman/src/gpt.c:751-790 | the primary header with both checksums |
| GptScheme.FromSchem | libs/libpartman/src/gpt.c:736-794 | both pairs built in place are the specified ones |
| GptScheme.ToSchem | libs/libpartman/src/gpt.c:796-831 | the scheme has the primary header's data and every used entry, other slots zero |
| GptScheme.SaveGpt | libs/libpartman/src/gpt.c:899-924 | the image becomes the one after the four region writes |
| GptScheme.LoadGpt | libs/libpartman/src/gpt.c:865-897 | scheme and outcome are as specified for every image |
| GptScheme.EraseSig | libs/libpartman/src/gpt.c:318-326 | eight bytes become zero |
| GptScheme.RemoveGpt | libs/libpartman/src/gpt.c:926-971 | both signatures are zeroed and nothing else changes |
| GptScheme.RemovedNotFound | libs/libpartman/src/gpt.c:926-971 | after removal no GPT is found, on any image |
| OnDisk.RemovedFrame | libs/libpartman/src/gpt.c:318-326 | removal clears the eight bytes of each signature and no other byte |
| OnDisk.GuidOnDisk | libs/libpartman/src/guid.c:47-60 | three little-endian numbers, then eight bytes in order |
| OnDisk.HdrsOnDisk | libs/libpartman/src/gpt.c:328-356 | what each byte position of both headers of a saved image holds, in terms of the scheme |
| OnDisk.EntriesOnDisk | libs/libpartman/src/gpt.c:258-305 | what each byte position of every entry in both tables of a saved image holds, in terms of the scheme |
| OnDisk.TablePlaces | libs/libpartman/src/gpt.c:712-734 | the primary table begins in sector 2, the secondary one ends where the last whole sector begins |
| OnDisk.HdrFoundIff | libs/libpartman/src/gpt.c:425-439 | a header is accepted if and only if signature, checksum of its bytes and own position are right |
| OnDisk.TableReadAt | libs/libpartman/src/gpt.c:307-316 | each entry is read at the position and with the entry size that the header names |
| MbrScheme.ReadWritten | libs/libpartman/src/mbr.c:91-140 | disk signature, entries and boot signature are read as written |
| MbrScheme.WrittenFrame | libs/libpartman/src/mbr.c:111-128 | every byte outside 440..443 and 446..511 is unchanged |
| OnDisk.MbrOnDisk | libs/libpartman/src/mbr.c:91-128 | what each byte position of the identifier, the entries and the boot signature 55 AA holds |
| OnDisk.MbrFoundIff | libs/libpartman/src/mbr.c:147-150 | an MBR is found if and only if bytes 510 and 511 are 55 AA |
| MbrScheme.PartWrite | libs/libpartman/src/mbr.c:91-99 | writes exactly the sixteen bytes of an entry |
| MbrScheme.MbrWrite | libs/libpartman/src/mbr.c:111-128 | the buffer becomes the specified one |
| MbrScheme.PartRead | libs/libpartman/src/mbr.c:101-109 | reads the entry that the bytes denote |
| MbrScheme.MbrRead | libs/libpartman/src/mbr.c:130-140 | reads signature and all four entries |
| MbrScheme.NewMbrUsable | libs/libpartman/src/mbr.c:152-164 | a new scheme has the drawn identifier and four unused slots; its range is all of the image behind the MBR, up to the last whole sector or sector 2^32 - 1 |
| MbrScheme.FromSchem | libs/libpartman/src/mbr.c:226-257 | the entries built are the specified ones |
| MbrScheme.ToSchem | libs/libpartman/src/mbr.c:259-285 | the scheme built is the specified one |
| MbrScheme.InitMbr | libs/libpartman/src/mbr.c:287-291 | the scheme is the new one with the drawn signature |
| MbrScheme.SaveMbr | libs/libpartman/src/mbr.c:322-331 | the image becomes the specified one |
| MbrScheme.LoadMbr | libs/libpartman/src/mbr.c:304-320 | found exactly if the boot signature is there; the scheme is the specified one |
| MbrScheme.RemoveMbr | libs/libpartman/src/mbr.c:333-340 | an empty MBR is written, boot signature included |
| MbrScheme.MbrRoundTrip | libs/libpartman/src/mbr.c:226-331 | partitions in the 32-bit range, boot indicators and the disk identifier survive save and load on any image |
| MbrScheme.SafeIsHoldable | libs/libpartman/src/mbr.c:157-160 | the capped usable range keeps every safe partition in the 32-bit range |
| MbrScheme.ChsStored | libs/libpartman/src/mbr.c:226-257 | each bound of a saved partition has its own CHS address: the one that denotes it, or the last one beyond the reach of CHS, (1023, 255, 63) if protective; size, type and indicator are as in the scheme |
| MbrScheme.RemoveLeavesMbr | libs/libpartman/src/mbr.c:333-340 | a "removed" MBR is still found |
| MbrScheme.SetProt | libs/libpartman/src/mbr.c:342-354 | one protective partition over the usable range, all other slots empty |
| MbrScheme.ProtectiveSafe | libs/libpartman/src/mbr.c:342-365 | that scheme is safe and recognized as protective: type 0xEE from the first to the last usable sector in slot 0, nothing in the others |
| CtxModel.OnlyGptIsRemoved | libs/libpartman/src/schem.c:226-248 | with an MBR in memory whenever anything is in the image, the remove pass is taken for GPT at most |
| CtxModel.NewKeepsInv | libs/libpartman/src/schem.c:123-141 | creating a scheme keeps the invariant and makes its type the current one |
| CtxModel.LoadEstablishesInv | libs/libpartman/src/schem.c:143-216 | loading establishes the invariant: GPT in memory implies MBR in memory, and each flag is set if and only if its scheme is found in the image |
| CtxModel.SaveKeepsInv | libs/libpartman/src/schem.c:218-268 | after saving the flags equal the set in memory, and each is set if and only if its scheme is found in the image |
| CtxModel.SavedType | libs/libpartman/src/schem.c:143-268 | loading what was saved finds the type that was in memory, safe tables or not |
| CtxModel.SaveThenLoad | libs/libpartman/src/schem.c:143-268 | loading saved safe tables gives the same type, the same GPT, and the same MBR - or over a GPT a fresh protective one, if the saved one did not begin with a protective partition |
| CtxModel.RestoredIff | libs/libpartman/src/schem.c:188-216 | both schemes come back, unused slots zeroed, if and only if there is no GPT or the MBR begins with a protective partition |
| CtxModel.GptToMbr | libs/libpartman/src/schem.c:218-268 | converting a GPT image to MBR leaves an image in which no GPT is found |
| CtxCrash.CutNowhere | libs/libpartman/src/schem.c:218-268 | with both schemes in memory a save is the MBR and the four regions of the GPT, in this order |
| CtxCrash.IntactStays | libs/libpartman/src/mbr.c:111-128 | writing the MBR leaves both GPT pairs in place |
| CtxCrash.FoundLoads | libs/libpartman/src/schem.c:143-216 | what the program has in memory when it finds a saved MBR and a saved GPT |
| CtxCrash.UpdateAtomic | libs/libpartman/src/schem.c:218-268 | a save over a saved context that is cut after the MBR and any number of GPT writes leaves the new MBR with exactly the old or the new GPT, and the program starts with these two |
| CtxCrash.NoPrimLost | libs/libpartman/src/gpt.c:513-607 | a primary pair without a valid header, or with its table in front of the secondary one, stays invalid while the secondary pair is written |
| CtxCrash.ConvertToGpt | libs/libpartman/src/schem.c:218-268 | what is found after every write of a new GPT on an image without one: the new MBR from the first write on; then what the secondary pair holds, or an invalid pair at sector 1 should it become valid |
| CtxCrash.ConvertUnsigned | libs/libpartman/src/schem.c:218-268 | on an image without signatures no GPT is found before the secondary pair is complete, unless what is left there has the checksum of the new table |
| CtxCrash.CutToMbrAll | libs/libpartman/src/schem.c:218-268 | replacing a GPT by an MBR is two erased signatures and the MBR, in this order |
| CtxCrash.OneErased | libs/libpartman/src/gpt.c:926-971 | with the primary signature erased alone the GPT still loads |
| CtxCrash.ConvertToMbr | libs/libpartman/src/schem.c:218-268 | what is found after every write of an MBR over a saved GPT: the GPT until both signatures are gone, the new MBR only after the last write |
| CutRuns.CutAssigns | libs/libpartman/src/gpt.c:441-511 | a cut save is a prefix of four assignments to registers that hold both headers and both tables |
| CutRuns.RegsLoad | libs/libpartman/src/gpt.c:628-710 | what an image loads as whose regions belong to any four schemes with equally many slots |
| CutRuns.CutsLoad | libs/libpartman/src/schem.c:218-268 | after any sequence of cut saves, collisions included, what is loaded is decided by the last saves that got to their first, second, third and fourth write |
| CutRuns.CutsLoadWhole | libs/libpartman/src/schem.c:218-268 | without collisions: which scheme is loaded, and exactly when none |
| CutRuns.LostBy | libs/libpartman/src/schem.c:218-268 | a GPT is lost only by a save cut right before its last write and a later one cut right after its first |
| CutRuns.OneCutSafe | libs/libpartman/src/schem.c:218-268 | one cut save after complete ones leaves the old or the new scheme |
| CutRuns.CutsMbr | libs/libpartman/src/schem.c:218-268 | after any sequence of cut saves the MBR is that of the last one |
| CtxProgram.SchemCtx.Reset | libs/libpartman/src/schem.c:288-307 | both schemes are dropped, flags kept on request |
| CtxProgram.SchemCtx.NewGptSchemes | libs/libpartman/src/schem.c:95-116 | a new GPT and its protective MBR |
| CtxProgram.SchemCtx.New | libs/libpartman/src/schem.c:123-141 | the new context is the specified one |
| CtxProgram.SchemCtx.ProtectGpt | libs/libpartman/src/schem.c:188-216 | a protective MBR that was found is kept, any other is replaced |
| CtxProgram.SchemCtx.LoadMbr | libs/libpartman/src/schem.c:155-186 | an MBR is in memory and flagged exactly if one is found |
| CtxProgram.SchemCtx.Load | libs/libpartman/src/schem.c:143-216 | success and context are as specified for every image |
| CtxProgram.SchemCtx.RemoveLost | libs/libpartman/src/schem.c:226-248 | schemes that nothing replaces are removed, flags cleared |
| CtxProgram.SchemCtx.SaveMbrScheme | libs/libpartman/src/schem.c:250-264 | an MBR in memory is written and flagged |
| CtxProgram.SchemCtx.SaveGptScheme | libs/libpartman/src/schem.c:250-264 | a GPT in memory is written and flagged |
| CtxProgram.SchemCtx.Save | libs/libpartman/src/schem.c:218-268 | image and flags are as specified |
| CtxProgram.SchemCtx.CurrentType | libs/libpartman/src/schem.c:270-286 | GPT before MBR before none |
| EditModel.AlterSafe | src/main.c:327-386 | adding or resizing keeps a scheme safe, whatever the user types |
| EditModel.EditSafe | src/main.c:222-386 | every edit command keeps used partitions well formed, in range and disjoint |
| EditModel.EditShape | src/main.c:222-386 | an edit changes one slot at most, in the fields it is about |
| EditModel.EditStorable | src/main.c:222-386 | edits keep names chained and the scheme savable |
| EditModel.EditMbrShaped | src/main.c:222-386 | edits keep the fields that an MBR does not store zero |
| EditModel.EditUnwrapped | src/main.c:222-386 | edits never make a partition that ends at 2^64 - 1, on overlapping and out-of-range tables too |
| EditLaws.PartPromptIff | src/main.c:178-220 | a typed number chooses its slot if and only if the slot exists and its use is as asked for |
| EditLaws.PartPromptDefault | src/main.c:178-220 | the default is the first such slot; the prompt fails if and only if there is none |
| EditLaws.StretchIff | src/main.c:343-375 | on every table a typed stretch is accepted if and only if it is in range and clear of the other partitions |
| EditLaws.BoundUnreadable | src/main.c:343-369 | an unreadable bound is turned down |
| EditLaws.StartTyped | src/main.c:343-355 | an empty line for the start is the number that is offered |
| EditLaws.EndTyped | src/main.c:357-369 | an empty line for the end is the number that is offered |
| EditLaws.NoSlotNoEdit | src/main.c:178-220 | input that chooses no slot changes nothing, whatever the command |
| EditLaws.AddIff | src/main.c:327-386 | a partition with every field of a new one is added if and only if the slot exists and is free and the stretch is in range and clear; else nothing changes |
| EditLaws.ResizeIff | src/main.c:327-386 | a partition is moved, all else kept, if and only if it is used and the stretch is in range and clear of the others; else nothing changes |
| EditLaws.RetypeIff | src/main.c:258-325 | a GUID becomes the type in a GPT, a number of one byte in an MBR, all else kept; any other input changes nothing |
| EditLaws.DeleteClears | src/main.c:222-256 | deleting zeroes the slot and nothing else; in a GPT toggling changes nothing |
| EditLaws.DefaultsAddIff | src/main.c:327-386 | accepting every default adds the offered partition if and only if a slot and a sector are free and no missed partition decides the end; otherwise nothing changes |
| EditLaws.DefaultsFail | libs/libpartman/src/schem.c:460 | on a new MBR scheme of the smallest image, after a partition was put on the last sector, every default offers sectors 1..1023 and adds nothing |
| EditLaws.DeleteUndoesAdd | src/main.c:222-234 | adding gives the slot the default type, the drawn GUID and the stretch, all else zero; deleting afterwards empties it and restores the rest |
| EditLaws.ResizeBack | src/main.c:327-386 | moving a partition and moving it back gives the scheme it started from |
| EditLaws.ToggleTwice | src/main.c:236-256 | toggling inverts the active bit; twice is the identity if and only if no other bit was set |
| EditProgram.Prompt | src/scan.c:243-273 | the empty line takes the default, a number in range is taken, all else is turned down |
| EditProgram.PromptPart | src/main.c:178-220 | a slot is chosen exactly if its use is as asked for |
| EditProgram.DeletePart | src/main.c:222-234 | the chosen slot is zeroed |
| EditProgram.ToggleBootFlag | src/main.c:236-256 | MBR only: the active bit of the chosen slot is inverted, other bits cleared |
| EditProgram.ChangeType | src/main.c:258-325 | the scheme is the specified one, which `RetypeIff` pins down |
| EditProgram.PromptStretch | src/main.c:343-375 | the dialogue gives the specified stretch, or none at the same points |
| EditProgram.AlterSlot | src/main.c:343-385 | the slot takes the stretch, initialized first if it is new, or nothing changes |
| EditProgram.AlterPart | src/main.c:327-386 | the scheme after adding or resizing is the specified one |
| EditProgram.EditOne | src/main.c:419-457 | every edit command has its specified effect on the scheme |
| EditProgram.Modify | src/main.c:395-457 | the current scheme is edited, the other one and the flags stay; without a current scheme nothing happens; a condition on the table only for adding and resizing |
| EditProgram.ResetProt | src/main.c:488-500 | the MBR becomes a fresh protective one |
| EditProgram.Dispatch | src/main.c:459-511 | writing, creating, entering, resetting and returning are the specified steps, which `CommandLaws` pins down |
| EditProgram.HandleAction | src/main.c:388-518 | schemes, flags, current scheme and image after a command are the specified step, which `CommandLaws` pins down |
| EditProgram.RunSession | src/main.c:520-555 | after any commands whose searches end the state is the specified run, whatever was loaded |
| Session.StepKeepsRunnable | src/main.c:388-518 | whatever was loaded, every command leaves a state for the next one |
| Session.LoadedRunnable | src/main.c:662-673 | the loop can start on whatever was loaded, safe or not |
| Session.UnwrappedCanRun | src/main.c:520-555 | from tables without partitions that end at 2^64 - 1 every search of every run ends |
| CommandLaws.CreateMbrMakes | src/main.c:464-468 | `o`: an MBR with the identifier, no used slot and the whole range, no GPT, the MBR is edited; flags and image stay |
| CommandLaws.CreateGptMakes | src/main.c:470-474 | `g`: a GPT with the identifier and 128 unused slots and its protective MBR, the GPT is edited; flags and image stay |
| CommandLaws.ResetProtectiveIff | src/main.c:488-500 | `h`: over a GPT the MBR becomes a protective one with the identifier, whatever it was, all else stays; otherwise nothing changes |
| CommandLaws.EnterProtectiveIff | src/main.c:476-486 | `M`: the MBR is edited if a GPT was and there is an MBR; nothing else changes |
| CommandLaws.ReturnGoes | src/main.c:502-505 | `r`: the GPT is edited if there is one, else the MBR, else none; nothing else changes |
| CommandLaws.EnterThenReturn | src/main.c:476-505 | from the scheme that is returned to, entering the MBR and returning leads back to the same state |
| CommandLaws.WriteKeeps | src/main.c:459-462 | `w`: schemes and current scheme stay, the flags become what is in memory |
| CommandLaws.ModifyKeeps | src/main.c:395-457 | edits change the current scheme and nothing else; other commands change nothing |
| CommandLaws.StartEdits | src/main.c:520-530 | the program starts with the GPT if one is found, else the MBR if one is, else none |
| SessionLaws.RunLifecycle | src/main.c:520-555 | from every image that can be loaded, after any commands, a GPT in memory and anything in the image are accompanied by an MBR in memory, and a save removes at most the GPT |
| SessionLaws.StepKeepsInv | src/main.c:388-518 | every command keeps the flags in agreement with what is found in the image |
| SessionLaws.RunFlags | src/main.c:520-555 | from every image that can be loaded and keeps its GPT tables off sector 0, after any commands, each flag is set if and only if its scheme is found in the image |
| SessionLaws.RunThenType | src/main.c:623-681 | and writing and starting again finds the type that is in memory, safe tables or not |
| SessionLaws.StepKeepsSafe | src/main.c:388-518 | every command keeps safe tables safe, whatever the image |
| SessionLaws.RunSafe | src/main.c:520-555 | after any run with any input, from safe tables and whatever the image, every scheme in memory is safe |
| SessionLaws.RunKeepsData | src/main.c:520-555 | no run changes a byte between the two GPT tables, whatever was loaded |
| SessionLaws.PartitionKept | src/main.c:520-555 | so every partition in the range of a GPT that the program makes keeps its contents |
| SessionLaws.BlankStart | src/main.c:662-673 | on an image without signatures the program starts with no scheme, and with safe tables |
| SessionLaws.RunThenRestart | src/main.c:623-681 | after any run from safe tables, writing and starting again gives the same GPT, and the same MBR if and only if there is no GPT or it begins with a protective partition |
| SessionLaws.RetypeIsLost | libs/libpartman/src/schem.c:205-213 | four commands after which a restart finds a fresh protective MBR instead of the edited one |

## Left out

- Page rounding, `mmap`, `munmap`, `fsync` and file descriptors: an image is a byte array; a mapping outside it is the fatal result, where the operating system would fail later or differently.
- GptTheorems.CrashConsistency: takes the four region writes as durable in program order and each as a whole; reordered or torn writes inside a region are not modelled.
- GptStore.LoadPair: sectors times sector size is unbounded, so a foreign header whose table position wraps at 2^64 bytes is fatal here; entry count times entry size is unbounded too, as in a 64-bit `unsigned long`. A mapping of zero sectors succeeds.
- Schemes.Scheme.FindStartSector: the usable range lies below 2^63, so that -1 is not a sector and aligning up does not wrap; a GPT loaded with a range beyond that is not covered. Tables on which the search is sent back to sector 0 are described by its states alone (`SearchEnds`).
- SessionLaws.RunSafe: starts from safe tables; the program does not check what it loads. The other laws of runs do not need this.
- CutRuns.CutsLoad: all schemes have equally many slots, as the program's own do; `CrashAtomicIff` and `SecondCrash` cover other counts for one and two saves.
- CtxModel.LoadEstablishesInv: assumes that a valid GPT header at sector 1 or at the end of the image does not place its table over sector 0, which a foreign image could do; everything that this program saves meets it (`SavedTablesClear`).
- EditModel.Retyped: a typed GUID has 32 significant bits in its first field; `sscanf` on a wider `unsigned long` accepts a sign and more.
- Session.Step: the failing exits of saving (mapping and synchronization errors) and of allocation end the program and have no step; `q` and the end of input end the list of commands.
- Allocation and release of memory: taken care of by the language.
- Parsing of typed numbers, sizes with suffixes and GUIDs (`scan.c`, `guid_to_str`, `str_to_guid`): input is its parsed value; the text conversion is `sscanf` and `sprintf`.
- Printing, logging, options, and extending the image file to the size asked for.
- `rand.c`, `guid_create`: identifiers are arbitrary values; nothing rests on their distribution.
- Table slots beyond the partition count: a GPT table is allocated for 128 entries, and those beyond the count are never used.
- Tables of other tools with an entry size other than 128: loading is modelled for any entry size; saving uses 128.
- A corrected name layout at `56 + 2*i`: the model follows the code.
