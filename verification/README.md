# Verified models of a board support layer

This project models, in Dafny 4.11, those parts of the Yocto layer of the Summit SOM i.MX8M Plus that carry
real state or arithmetic, and proves what they promise:

- **SPI flash programmer** (`NorFlash`, `FlashPages`, `SpiCommands`, `SpiHub`, `SpiPages`, `SpiFlash`): a flash with a
  write-enable latch, a busy flag, block protection and page-wrapping programs; the interpreter of command
  lists; the choice of erase blocks; the page loop with its tail step; read-back and comparison.
- **OTP configuration log** (`OtpCounter`, `OtpLayout`, `OtpProgram`, `OtpRuns`, `OtpTraces`,
  `OtpLimits`): a 2 KB
  write-once memory as a two-ended log under a thermometer-coded counter, over all sequences of runs,
  complete or interrupted.
- **UART divisor search** (`UartBaud`): which baud rates the self-checking computation accepts.
- **PAC193x power monitor** (`Pac193xSnapshot`, `Pac193xRefresh`): the variable-layout register snapshot, and
  the refresh protocol of cache, timer and work item with the energy accumulator behind it.
- **U-Boot environment** (`Crc32` on `ShiftRegister`, `Rfc1952`, `RedundantEnv`): the checksum against its standard, and
  the two-copy store under faults.
- **Time zone links** (`TimezoneLinks`): reader and writer of a chain of symbolic links.
- **FIT image sources** (`FitImage`): a generator whose references must resolve.
- **Atmel PMECC header** (`AtmelHeader`): a packed word and its in-place repetition.

`Arithmetic`, `Bits` and `Options` hold shared facts. The state that the code updates in place (flash behind a
hub, OTP part, host buffers, register record, driver record, environment copies, file system, image source) is
updated in place here too; every such method is tied to a specification function, and the promises are proved
about that function.

## Where the code does not do what it is meant to

Each of these is stated with the exact condition under which the code is right, and proved in both directions:

- The **tail step** of the flash page loop starts inside the last page and runs on to twice the missing length.
  On a flash whose programs wrap around their page it can and the image's own bytes with padding. For a given
  buffer it is harmless exactly under `SpiPages.TailHarmless`; for every buffer, exactly unless
  `SpiPages.TailComesRound`, which for a flash programmed in its own pages means a remainder below half a page.
- From an **unaligned start** image pages cross the ends of flash pages and wrap. The image is stored for every
  buffer exactly when no address is `SpiPages.Misplaced`; beyond the second flash page one always is.
- The **size guard** of the flash writer adds two 32-bit numbers; it protects exactly when the sum does not wrap.
- The **read-back** never polls the busy bit, and a busy flash reads 0xFF. Four transfers and the first read pass
  before the data counts, so a part that programs a page for six transfers or more is misread: its verdict is not
  about the flash, in either direction (`SpiFlash.VerdictIff`, `SpiFlash.SlowPartSucceedsWrongly`).
- The **code window** reader of a hub that runs from SPI leaves its 32 KB window exactly when the image spans two
  and does not start at a multiple of 1 KB (`SpiFlash.WholeImageInWindowIff`).
- The **OTP space check** compares with an unsigned difference. As long as the free gap is not negative, runs are
  safe; a negative gap is reached by 29 plain runs, and then everything is accepted and the next header lands on
  data, with success reported (`OtpLimits.SuccessLosesData`).
- A **long OTP configuration** may reach into the next header slot. The log then scans back exactly unless it reads
  as a header there (`OtpRuns.SuccessScansIff`, `OtpLimits.OverlapIsScanned`). Further runs are let through until
  one writes past the host's buffer (`OtpRuns.DefinedIff`, `OtpLimits.OverrunIsReached`).
- An **interrupted OTP run** leaves its data behind. As long as 72 bytes are free that is harmless; with fewer it
  can read as a header later, exactly under `OtpLimits.LeftoverIff`.
- The **header walk** has no bound of its own; it leaves the buffer exactly when all its slots read as headers,
  which no counter allows.
- A **bi-directional VPOWER** is sign-extended from bit 3, so it is read back exactly when it lies in -8..7.
- A **rate change** does not force a refresh exactly when the time stamp is that of the same millisecond; a second
  one does.
- The **redundant store** takes a failed write that returns 0 for a success; a zero return is to be trusted
  exactly otherwise.
- The **UART search** finds no setting for 57600 and 115200 baud (`UartBaud.StandardRatesMissed`).
- The **FIT generator** compares names by `grep -x`, where a dot matches anything: a wanted device tree can be
  taken for another one, and the default then names no configuration. A link to a file that is not listed leaves
  its configuration without an image (`FitImage.ReferencesResolveIff`).
- The **Atmel header word** packs its fields without masking; it describes the flash exactly when all of them fit.

## Conventions of the models

- Bytes are integers from 0 to 255; the CRC works on bit vectors. Machine widths appear where they matter: byte
  casts, 16- and 32-bit sums, s64 wrap-around, unsigned comparisons.
- Time in the flash model passes in bus transfers, in the power monitor in milliseconds.
- The idle SPI bus reads 0xFF. SST26 parts erase blocks of 8, 32 or 64 KB by address, as the comments in the
  command tables say; other parts erase 64 KB.
- The OTP of a hub that boots from its ROM is blank at 0x00, except for byte 1, and burns upwards; the pseudo OTP
  of a hub that boots from SPI is blank at 0xFF and burns downwards. The XOR checksum starts from an arbitrary
  value, because the variable is never initialised.
- In the UART model the error percentage is an exact rational instead of a float, a DWORD product does not wrap
  (the target's DWORD is a 64-bit unsigned long), and the baud rate is positive.
- A write of an environment copy that does not run to its end leaves the old copy, one with a wrong checksum, or
  the new one.
- Which faults occur, what a bus delivers, how late a timer fires and which zones are installed are parameters.

## Model

| member | source | states |
|---|---|---|
| `SpiCommands.ProgramIndexIsRight` | recipes-packages/hub-ctrl/files/libpt2/USB2530_SpiFlash.cpp:922-1128 | in both command lists the hard-coded index (25, 49) is the page-program entry, and no other entry is one |
| `SpiCommands.ListWalks` | recipes-packages/hub-ctrl/files/libpt2/USB2530_SpiFlash.cpp:922-1128 | up to the page-program entry, every command of either list that needs it is issued with the write-enable latch set, the flash idle and unprotected, and the erase entries take effect in order, whichever of them are no-ops |
| `SpiCommands.EraseManyAt` | recipes-packages/hub-ctrl/files/libpt2/USB2530_SpiFlash.cpp:805-920 | after n erase entries an address reads 0xFF exactly if one of the first n blocks is among the chosen ones and contains it, and is untouched otherwise, for both chip families |
| `SpiCommands.EraseInAddresses` | recipes-packages/hub-ctrl/files/libpt2/USB2530_SpiFlash.cpp:805-920 | in addresses, for both chip families: after the erase entries the high 64 KB read 0xFF exactly if the request starts or reaches into them or the configuration is to go, the low 64 KB unless it starts above them; every other address below 128 KB keeps its content |
| `SpiCommands.EraseBytes` | recipes-packages/hub-ctrl/files/libpt2/USB2530_SpiFlash.cpp:884-920 | the bytes of each erase entry of both lists: the block erase with its 24-bit address, or four zeros |
| `SpiCommands.ChoiceCovers` | recipes-packages/hub-ctrl/files/libpt2/USB2530_SpiFlash.cpp:805-920 | for every request inside 128 KB the chosen blocks cover the whole image range, for both chip families |
| `SpiHub.StepSound` | recipes-packages/hub-ctrl/files/libpt2/USB2530_SpiFlash.cpp:1186-1190 | the static walk is sound for every flash state: what it promises about a command holds after the flash has executed it, and the flash refuses nothing |
| `SpiHub.Hub.PollIdle` | recipes-packages/hub-ctrl/files/libpt2/USB2530_SpiFlash.cpp:1195-1236 | an RDSR entry, sent twice and then polled, ends with an idle flash that is otherwise unchanged |
| `SpiHub.Hub.RunEntry` | recipes-packages/hub-ctrl/files/libpt2/USB2530_SpiFlash.cpp:1171-1237 | one interpreter step refines the walk: memory effect as stated, nothing refused, a fetched response never mistaken for a polling command |
| `SpiHub.Hub.WaitReady` | recipes-packages/hub-ctrl/files/libpt2/USB2530_SpiFlash.cpp:1276-1290 | the wait loop of the page program ends, with an idle flash that is otherwise unchanged |
| `SpiHub.Hub.ProgramPage` | recipes-packages/hub-ctrl/files/libpt2/USB2530_SpiFlash.cpp:1267-1320 | one page program is accepted (latch set, idle, unprotected) and ands exactly the given bytes into the flash page, wrapping inside it |
| `SpiFlash.RoundsLeft` | recipes-packages/hub-ctrl/files/libpt2/USB2530_SpiFlash.cpp:1240-1266 | round n of the page loop programs exactly when a page or the tail is left, so the loop stops after the tail step |
| `SpiFlash.ProgramImage` | recipes-packages/hub-ctrl/files/libpt2/USB2530_SpiFlash.cpp:1240-1322 | the page loop terminates, has nothing refused, and leaves exactly the full pages and the tail step in memory |
| `SpiPages.FullPagesAt` | recipes-packages/hub-ctrl/files/libpt2/USB2530_SpiFlash.cpp:1242-1251 | after n full pages every image byte has been anded in once, from any start address: at its own address, or one flash page further down where an image page crosses the end of a flash page; nothing else has changed |
| `SpiPages.TailAt` | recipes-packages/hub-ctrl/files/libpt2/USB2530_SpiFlash.cpp:1252-1262 | what the tail step does to an image byte: nothing, the same byte again, or, where it wraps around its flash page, a byte from one page further on |
| `SpiPages.BelowIsKept` | recipes-packages/hub-ctrl/files/libpt2/USB2530_SpiFlash.cpp:1240-1262 | an image that starts at a flash page or above it changes nothing below that page, from any start |
| `SpiPages.AboveIsKept` | recipes-packages/hub-ctrl/files/libpt2/USB2530_SpiFlash.cpp:1240-1262 | and one that ends at or below a flash page changes nothing from that page on, unless its tail step begins there |
| `SpiPages.TailBeginsBelow` | recipes-packages/hub-ctrl/files/libpt2/USB2530_SpiFlash.cpp:1252-1256 | which it cannot from an aligned start |
| `SpiPages.StoredIff` | recipes-packages/hub-ctrl/files/libpt2/USB2530_SpiFlash.cpp:1240-1322 | on an erased range, from any start address, the page loop stores the image exactly when the right byte lands on each of its addresses, which only the buffer, the sizes and the start decide |
| `SpiPages.AlignedLandIff` | recipes-packages/hub-ctrl/files/libpt2/USB2530_SpiFlash.cpp:1240-1322 | from an aligned start that is so exactly when the tail step is harmless for the buffer |
| `SpiPages.AnyStartIff` | recipes-packages/hub-ctrl/files/libpt2/USB2530_SpiFlash.cpp:1240-1322 | from any start address the image is stored for every buffer exactly when none of its addresses is misplaced by sizes and start alone |
| `SpiPages.UnalignedIsMisplaced` | recipes-packages/hub-ctrl/files/libpt2/USB2530_SpiFlash.cpp:1240-1251 | an unaligned image that goes on beyond the flash page after its first one always has a misplaced address |
| `SpiPages.OnePageIsInPlace` | recipes-packages/hub-ctrl/files/libpt2/USB2530_SpiFlash.cpp:1240-1262 | inside a single flash page only the tail step can misplace, from any start |
| `SpiPages.HalfPageIsEnough` | recipes-packages/hub-ctrl/files/libpt2/USB2530_SpiFlash.cpp:1252-1262 | a size that is a whole number of pages, or leaves at least half a page, makes the tail step harmless |
| `SpiPages.EveryBufferIff` | recipes-packages/hub-ctrl/files/libpt2/USB2530_SpiFlash.cpp:1252-1262 | for every buffer the tail step is harmless, exactly when by sizes alone it does not come round to the image; otherwise one set byte in a zero image is lost |
| `SpiPages.ComesRoundIff` | recipes-packages/hub-ctrl/files/libpt2/USB2530_SpiFlash.cpp:1252-1262 | that size condition says exactly when an image byte is wrapped onto |
| `SpiPages.OwnPageIff` | recipes-packages/hub-ctrl/files/libpt2/USB2530_SpiFlash.cpp:1252-1262 | with the flash's own page as programming page it is a remainder strictly between none and half a page |
| `SpiPages.WrapExample` | recipes-packages/hub-ctrl/files/libpt2/USB2530_SpiFlash.cpp:1252-1262 | a one-byte image with 256-byte pages reads 510 buffer bytes and wraps |
| `SpiFlash.Identify` | recipes-packages/hub-ctrl/files/libpt2/USB2530_SpiFlash.cpp:654-770 | the identification tells an absent flash from a present one and, on an idle flash, the SST26 family from all others |
| `SpiFlash.ReadChunk` | recipes-packages/hub-ctrl/files/libpt2/USB2530_SpiFlash.cpp:541-573 | one 512-byte read behind its five-byte header delivers the flash bytes at their place, or, from a flash that is still busy, 0xFF; it disturbs nothing before it |
| `SpiFlash.ReadIntRom` | recipes-packages/hub-ctrl/files/libpt2/USB2530_SpiFlash.cpp:369-584 | the pass-through reader, which never polls, delivers every byte of flash[start, end), except that each 512-byte chunk read while the flash is still busy reads 0xFF; it stays inside the 130 KB array, and a reversed range is an error |
| `SpiFlash.ReadSpiRom` | recipes-packages/hub-ctrl/files/libpt2/USB2530_SpiFlash.cpp:275-353 | the window reader delivers each image byte from the flash if it lies inside the 32 KB window mapped for its 1 KB chunk, and other memory if not; it stays inside the 130 KB array |
| `SpiFlash.InWindowIff` | recipes-packages/hub-ctrl/files/libpt2/USB2530_SpiFlash.cpp:291-333 | a byte is inside the mapped window exactly when it lies in the same 32 KB as the start of its 1 KB chunk |
| `SpiFlash.AlignedInWindow` | recipes-packages/hub-ctrl/files/libpt2/USB2530_SpiFlash.cpp:275-333 | from a 1 KB-aligned start every byte is |
| `SpiFlash.WholeImageInWindowIff` | recipes-packages/hub-ctrl/files/libpt2/USB2530_SpiFlash.cpp:275-333 | a whole image is, exactly from a 1 KB-aligned start or when it lies in a single window |
| `SpiFlash.UnalignedStart` | recipes-packages/hub-ctrl/files/libpt2/USB2530_SpiFlash.cpp:291-333 | 32 KB from address 0x100: the byte at 0x8000 is read from elsewhere |
| `SpiFlash.ReadFlash` | recipes-packages/hub-ctrl/files/libpt2/USB2530_SpiFlash.cpp:166-199 | the reader is chosen by the boot source |
| `SpiFlash.CompareIsHolds` | recipes-packages/hub-ctrl/files/libpt2/USB2530_SpiFlash.cpp:1329-1344 | the comparison succeeds exactly when the flash range equals the buffer, if the read-back can be trusted: through the pass-through, from a part that programs within five transfers; through the window, when the image fits it |
| `SpiFlash.Verify` | recipes-packages/hub-ctrl/files/libpt2/USB2530_SpiFlash.cpp:1329-1344 | success is reported exactly when every delivered byte equals the buffer |
| `SpiFlash.RunList` | recipes-packages/hub-ctrl/files/libpt2/USB2530_SpiFlash.cpp:1167-1347 | the whole interpreter run: nothing refused, memory equals erase plus page loop, the reported error is that of the comparison |
| `SpiFlash.LoadBinary` | recipes-packages/hub-ctrl/files/libpt2/USB2530_SpiFlash.cpp:771-1350 | for every prior content and program time: final memory, no refused command, NoDevice exactly for an absent flash, success exactly when the comparison of what is delivered succeeds; a 64 KB half that is neither erased nor reached keeps its content |
| `SpiFlash.SparedIsKept` | recipes-packages/hub-ctrl/files/libpt2/USB2530_SpiFlash.cpp:805-1262 | the same of the specified memory, for a flash whose pages divide 64 KB and are whole programming pages |
| `SpiFlash.SparedIff` | recipes-packages/hub-ctrl/files/libpt2/USB2530_SpiFlash.cpp:805-1262 | from an aligned start the halves that keep their content are exactly those that are not erased |
| `SpiFlash.LoadedIff` | recipes-packages/hub-ctrl/files/libpt2/USB2530_SpiFlash.cpp:771-1350 | for every prior content, every start address and both chip families the image ends up in the flash exactly when all the right bytes land |
| `SpiFlash.SuccessIff` | recipes-packages/hub-ctrl/files/libpt2/USB2530_SpiFlash.cpp:1240-1344 | LoadBinary reports success exactly then, if its read-back can be trusted |
| `SpiFlash.ReadBackIff` | recipes-packages/hub-ctrl/files/libpt2/USB2530_SpiFlash.cpp:1329-1344 | for every content of the flash and every buffer, from any start, the comparison tells whether they are equal, exactly when the read-back can be trusted: a condition on boot source, program time, start and size |
| `SpiFlash.VerdictIff` | recipes-packages/hub-ctrl/files/libpt2/USB2530_SpiFlash.cpp:1240-1344 | the same for what LoadBinary itself leaves in the flash: the verdict is right for every buffer exactly then, through the pass-through from any start, through the window from a page-aligned one |
| `SpiFlash.SlowPartSucceedsWrongly` | recipes-packages/hub-ctrl/files/libpt2/USB2530_SpiFlash.cpp:541-573 | on every part that programs for six transfers or more a one-byte image with a padding of zeros is reported as a success, and the flash does not hold it |
| `SpiFlash.SizeGuardIff` | recipes-packages/hub-ctrl/files/libpt2/MchpUSBInterface.cpp:1087-1091 | the 32-bit size guard lets exactly those requests through that end within 128 KB, and those whose end wraps around 2^32 into them |
| `Bits.CountOnes` | recipes-packages/hub-ctrl/files/libpt2/MchpUSBInterface.cpp:2038-2054 | the bit-clearing loop computes the population count and terminates |
| `Bits.ClearLowestOne` | recipes-packages/hub-ctrl/files/libpt2/MchpUSBInterface.cpp:2046-2050 | x & (x - 1) has exactly one set bit less |
| `OtpCounter.AdvanceCounts` | recipes-packages/hub-ctrl/files/libpt2/MchpUSBInterface.cpp:1172-1198 | in both boot modes one run moves the thermometer code up by exactly one; a full counter stays full |
| `OtpCounter.ThermometerExamples` | recipes-packages/hub-ctrl/files/libpt2/MchpUSBInterface.cpp:1172-1198 | the codes after three and after ten runs, in both boot modes |
| `OtpCounter.AdvanceBurns` | recipes-packages/hub-ctrl/files/libpt2/MchpUSBInterface.cpp:1172-1198 | writing the advanced counter moves bits in the burnable direction only, so the medium takes it as it is |
| `OtpCounter.ThermometerInjective` | recipes-packages/hub-ctrl/files/libpt2/MchpUSBInterface.cpp:1172-1198 | different counts have different codes |
| `OtpCounter.BurnIsOneWay` | recipes-packages/hub-ctrl/files/libpt2/MchpUSBInterface.cpp:1248-1252 | each stored bit only ever moves in one direction |
| `OtpCounter.CounterIsNoSignature` | recipes-packages/hub-ctrl/files/libpt2/MchpUSBInterface.cpp:1215-1217 | the first byte of a counter never reads as the first letter of a header |
| `OtpLayout.HeaderRoundTrip` | recipes-packages/hub-ctrl/files/libpt2/MchpUSBInterface.cpp:1274-1280 | the packed big-endian header decodes back to offset, length and checksum |
| `OtpLayout.BlocksDisjoint` | recipes-packages/hub-ctrl/files/libpt2/MchpUSBInterface.cpp:1205-1241 | in a log the data blocks are pairwise disjoint and meet no header |
| `OtpLayout.ScanOfLog` | recipes-packages/hub-ctrl/files/libpt2/MchpUSBInterface.cpp:1215-1238 | scanning a log returns exactly its records, if and only if the next slot does not read as a header |
| `OtpLayout.ScanStaysInside` | recipes-packages/hub-ctrl/files/libpt2/MchpUSBInterface.cpp:1215-1238 | a header walk that ends has seen fewer than 256 records and stopped at a slot inside the buffer |
| `OtpLayout.WalkInBytes` | recipes-packages/hub-ctrl/files/libpt2/MchpUSBInterface.cpp:1215-1238 | by bytes: the walk passes over headers with fields in range, ends at the first slot without a signature, and gives up at the first header with fields out of range |
| `OtpLayout.EscapesIff` | recipes-packages/hub-ctrl/files/libpt2/MchpUSBInterface.cpp:1215-1238 | the walk runs below the 2 KB buffer exactly when every one of its slots reads as a header with fields in range |
| `OtpLayout.CounterStopsScan` | recipes-packages/hub-ctrl/files/libpt2/MchpUSBInterface.cpp:1215-1238 | which cannot be when byte 0 is not the first letter of a header |
| `OtpLayout.LogFrame` | recipes-packages/hub-ctrl/files/libpt2/MchpUSBInterface.cpp:1215-1238 | a log depends on its committed bytes only |
| `OtpLayout.LogExtends` | recipes-packages/hub-ctrl/files/libpt2/MchpUSBInterface.cpp:1263-1285 | a header below the log with its data right above the last block extends it by one record |
| `OtpProgram.OtpPart.NextCounter` | recipes-packages/hub-ctrl/files/libpt2/MchpUSBInterface.cpp:1172-1198 | the computed counter bytes are the specified advance |
| `OtpProgram.OtpPart.FindFreeSpace` | recipes-packages/hub-ctrl/files/libpt2/MchpUSBInterface.cpp:1205-1238 | unless it leaves the buffer, the header walk terminates and agrees with the recursive scan: next data offset, next header offset, or out of range |
| `OtpProgram.OtpPart.Decide` | recipes-packages/hub-ctrl/files/libpt2/MchpUSBInterface.cpp:1201-1245 | refusal or the place of data and header, as the specification decides |
| `OtpProgram.OtpPart.XorAll` | recipes-packages/hub-ctrl/files/libpt2/MchpUSBInterface.cpp:1265-1272 | each bit of the checksum is the parity of that bit in all bytes and in an arbitrary start value, because the variable is not initialised |
| `OtpProgram.OtpPart.ProgramFile` | recipes-packages/hub-ctrl/files/libpt2/MchpUSBInterface.cpp:1146-1312 | the final memory and the outcome of a whole run, with any number of its three writes getting through |
| `OtpRuns.PlanOfLog` | recipes-packages/hub-ctrl/files/libpt2/MchpUSBInterface.cpp:1201-1245 | on a log a run either refuses, or writes its data right above the last block and its header into the next slot |
| `OtpRuns.RunInBytes` | recipes-packages/hub-ctrl/files/libpt2/MchpUSBInterface.cpp:1146-1312 | the same by numbers and bytes: refused exactly when no free byte is left below the next header slot; otherwise, as far as the writes get through, the advanced counter, the configuration right above the last block, the header in that slot, and nothing else |
| `OtpRuns.InvalidIff` | recipes-packages/hub-ctrl/files/libpt2/MchpUSBInterface.cpp:1228-1245 | a run complains about a record exactly when the header walk gives up, and changes nothing when it is refused |
| `OtpRuns.SafeIffGap` | recipes-packages/hub-ctrl/files/libpt2/MchpUSBInterface.cpp:1239-1245 | an accepted run stays clear of all committed bytes exactly when the free gap is not negative |
| `OtpRuns.NegativeGapAccepts` | recipes-packages/hub-ctrl/files/libpt2/MchpUSBInterface.cpp:1241-1245 | with a negative gap the unsigned comparison lets every run through |
| `OtpRuns.NegativeGapDamages` | recipes-packages/hub-ctrl/files/libpt2/MchpUSBInterface.cpp:1239-1285 | in both boot modes the next run then burns its header over the end of the last block; a committed byte there is lost exactly when burning changes it |
| `OtpLimits.NegativeGapIsReached` | recipes-packages/hub-ctrl/files/libpt2/MchpUSBInterface.cpp:1239-1245 | from a blank part, 28 runs with 64 bytes and one with 20 lead to a memory that holds 29 records and a gap of -6 |
| `OtpLimits.SuccessLosesData` | recipes-packages/hub-ctrl/files/libpt2/MchpUSBInterface.cpp:1239-1312 | the next run of one byte reports success and has destroyed the last configuration |
| `OtpRuns.WalkStaysInside` | recipes-packages/hub-ctrl/files/libpt2/MchpUSBInterface.cpp:1172-1238 | on a part whose counter reads any count the header walk stays in the buffer, whatever the rest of the memory holds |
| `OtpRuns.RunKeepsCommitted` | recipes-packages/hub-ctrl/files/libpt2/MchpUSBInterface.cpp:1146-1312 | with a non-negative gap no run, interrupted anywhere, changes a committed byte |
| `OtpRuns.OnlyWritten` | recipes-packages/hub-ctrl/files/libpt2/MchpUSBInterface.cpp:1246-1290 | besides the counter it changes nothing but the block of its configuration and the next header slot |
| `OtpRuns.RunKeepsLog` | recipes-packages/hub-ctrl/files/libpt2/MchpUSBInterface.cpp:1146-1312 | and all committed records stay in place |
| `OtpRuns.RunCounts` | recipes-packages/hub-ctrl/files/libpt2/MchpUSBInterface.cpp:1246-1253 | the counter moves by one as soon as an accepted run writes at all |
| `OtpRuns.RunCommits` | recipes-packages/hub-ctrl/files/libpt2/MchpUSBInterface.cpp:1263-1290 | a complete run whose header burns exactly commits its record |
| `OtpRuns.SuccessIff` | recipes-packages/hub-ctrl/files/libpt2/MchpUSBInterface.cpp:1293-1312 | success is reported exactly when all three writes got through and the medium took data and header as they were |
| `OtpRuns.SuccessScans` | recipes-packages/hub-ctrl/files/libpt2/MchpUSBInterface.cpp:1210-1245 | after a success rescanning yields the old records and the new one exactly when the next slot does not read as a header |
| `OtpRuns.SuccessScansIff` | recipes-packages/hub-ctrl/files/libpt2/MchpUSBInterface.cpp:1210-1290 | the same as a condition before the run, for every gap: exactly when the slot after the next is no header once the configuration lies over it |
| `OtpLimits.OverlapIsScanned` | recipes-packages/hub-ctrl/files/libpt2/MchpUSBInterface.cpp:1210-1290 | after 28 full blocks a run of 20 bytes that spells a signature there reports success and does not scan back |
| `OtpRuns.SuccessStores` | recipes-packages/hub-ctrl/files/libpt2/MchpUSBInterface.cpp:1254-1263 | after a success the record's block holds the configuration |
| `OtpRuns.SuccessHeader` | recipes-packages/hub-ctrl/files/libpt2/MchpUSBInterface.cpp:1265-1285 | and its header, byte by byte: the signature, a checksum whose bits are the parities of the configuration's, offset and length with the high byte first |
| `OtpRuns.NextSlotUntouched` | recipes-packages/hub-ctrl/files/libpt2/MchpUSBInterface.cpp:1239-1290 | a run that leaves a gap leaves the next slot as it was |
| `OtpRuns.SlotReadsConfig` | recipes-packages/hub-ctrl/files/libpt2/MchpUSBInterface.cpp:1215-1241 | where a configuration reaches three bytes into the next slot, the slot reads as a header exactly when the configuration says so there |
| `OtpRuns.DefinedIff` | recipes-packages/hub-ctrl/files/libpt2/MchpUSBInterface.cpp:1146-1312 | on any memory a run leaves its 2 KB buffer exactly when the header walk does, or when a configuration that is let through reaches past the end |
| `OtpRuns.LogIsDefined` | recipes-packages/hub-ctrl/files/libpt2/MchpUSBInterface.cpp:1146-1312 | on a log no run does, whatever the gap |
| `OtpLimits.OverrunIsReached` | recipes-packages/hub-ctrl/files/libpt2/MchpUSBInterface.cpp:1239-1263 | but 32 complete runs on a blank part, the last three with a negative gap, lead to a memory on which the next one writes past its buffer |
| `OtpTraces.ReplayKeepsLog` | recipes-packages/hub-ctrl/files/libpt2/MchpUSBInterface.cpp:1146-1312 | over every sequence of runs that start with a non-negative gap, burn their header and leave a next slot that reads as none, the memory stays a log of exactly the committed records |
| `OtpTraces.ReplayKeepsCommitted` | recipes-packages/hub-ctrl/files/libpt2/MchpUSBInterface.cpp:1146-1312 | and no step changes a committed byte |
| `OtpTraces.ReplayScans` | recipes-packages/hub-ctrl/files/libpt2/MchpUSBInterface.cpp:1205-1238 | and it scans back as exactly those records |
| `OtpTraces.CounterAgainstRecords` | recipes-packages/hub-ctrl/files/libpt2/MchpUSBInterface.cpp:1172-1253 | below 16 the counter is at least the number of committed records, equal to it without interruptions |
| `OtpTraces.BlankPartScans` | recipes-packages/hub-ctrl/files/libpt2/MchpUSBInterface.cpp:1146-1312 | from a blank part, every sequence of uninterrupted runs with room scans back as one record for each accepted configuration, in order |
| `OtpTraces.BlankPartStores` | recipes-packages/hub-ctrl/files/libpt2/MchpUSBInterface.cpp:1146-1312 | and every record holds its configuration |
| `OtpTraces.InterruptedRunsScan` | recipes-packages/hub-ctrl/files/libpt2/MchpUSBInterface.cpp:1146-1312 | from a blank part, every sequence of runs that may each stop after any write, under a condition on lengths only, scans back as exactly the committed records |
| `OtpTraces.InterruptedRunsCount` | recipes-packages/hub-ctrl/files/libpt2/MchpUSBInterface.cpp:1172-1253 | with the counter at least their number |
| `OtpTraces.InterruptedRunsStore` | recipes-packages/hub-ctrl/files/libpt2/MchpUSBInterface.cpp:1146-1312 | and every run that reported success still has its record, which still holds its configuration, after all runs |
| `OtpTraces.LengthsLeaveRoom` | recipes-packages/hub-ctrl/files/libpt2/MchpUSBInterface.cpp:1205-1245 | the conditions on lengths in numbers: from a blank part, uninterrupted runs have room if configurations and headers come to at most 2038 bytes, and interrupted ones if they come to at most 1966 |
| `OtpTraces.AlwaysScansIff` | recipes-packages/hub-ctrl/files/libpt2/MchpUSBInterface.cpp:1146-1312 | for every gap that is not negative: the memory scans as the committed records after every single run, exactly when every run finds its header slot burnable and leaves a next slot that reads as none |
| `OtpLimits.LeftoverIff` | recipes-packages/hub-ctrl/files/libpt2/MchpUSBInterface.cpp:1146-1312 | whatever the gap: a committed run that leaves one scans back as its records exactly when the slot after the next did not read as a header before the run |
| `OtpLimits.LeftoverIsScanned` | recipes-packages/hub-ctrl/files/libpt2/MchpUSBInterface.cpp:1146-1312 | from a blank part with 22 bytes left, one interrupted run plants such a header, and the next run reports success but does not scan back |
| `UartBaud.CalculateSettings` | recipes-packages/hub-ctrl/files/libpt2/MchpUSBInterface.cpp:1940-2018 | the registers and the verdict that the computation produces in every mode |
| `UartBaud.SetBaudrate` | recipes-packages/hub-ctrl/files/libpt2/MchpUSBInterface.cpp:931-972 | succeeds exactly if some of the four combinations is accepted and reaches the device, and sends the first such one |
| `UartBaud.AcceptedTh1IsExact` | recipes-packages/hub-ctrl/files/libpt2/MchpUSBInterface.cpp:1970-1980 | BD = 0: an accepted reload value was not truncated by its byte cast |
| `UartBaud.Bd0AcceptedIff` | recipes-packages/hub-ctrl/files/libpt2/MchpUSBInterface.cpp:1970-2017 | BD = 0: accepted exactly when the divisor survives the byte cast and the rate it gives is within 3% of the request |
| `UartBaud.Bd0Window` | recipes-packages/hub-ctrl/files/libpt2/MchpUSBInterface.cpp:1970-2017 | BD = 0: every setting with an ideal divisor from 34 to 256 is accepted and never rounds below the request |
| `UartBaud.Bd1AcceptedIff` | recipes-packages/hub-ctrl/files/libpt2/MchpUSBInterface.cpp:1981-2017 | BD = 1: accepted exactly when the ideal divisor survives the byte cast |
| `UartBaud.AcceptedIsClose` | recipes-packages/hub-ctrl/files/libpt2/MchpUSBInterface.cpp:1996-2017 | in every mode an accepted rate is within less than 3% of the request |
| `UartBaud.LowRatesAreServed` | recipes-packages/hub-ctrl/files/libpt2/MchpUSBInterface.cpp:941-968 | every rate from 608 to 9191 baud has an accepted setting |
| `UartBaud.GeneratorRates` | recipes-packages/hub-ctrl/files/libpt2/MchpUSBInterface.cpp:941-968 | the third and the fourth combination, which use the baud rate generator, accept exactly 915 to 1219 and 1830 to 2438 baud |
| `UartBaud.ServedRatesLieBetween` | recipes-packages/hub-ctrl/files/libpt2/MchpUSBInterface.cpp:941-968 | no rate below 608 or above 312500 baud has one |
| `UartBaud.StandardRatesServed` | recipes-packages/hub-ctrl/files/libpt2/MchpUSBInterface.cpp:941-968 | 9600, 19200 and 38400 baud have one |
| `UartBaud.StandardRatesMissed` | recipes-packages/hub-ctrl/files/libpt2/MchpUSBInterface.cpp:941-968 | 57600 and 115200 baud have none |
| `UartBaud.FixedRates` | recipes-packages/hub-ctrl/files/libpt2/MchpUSBInterface.cpp:1948-2017 | the modes with a fixed rate accept exactly the requests around 5 MHz, 937500 and 1875000 baud, in numbers; unknown modes accept none |
| `Pac193xSnapshot.MaskMeaning` | recipes-bsp/kernel-module-pac193x/files/pac193x/pac193x.c:171-179 | the configuration writer and the parser mean the same channels |
| `Pac193xSnapshot.FieldRoundTrip` | recipes-bsp/kernel-module-pac193x/files/pac193x/pac193x.c:286-310 | a field comes back exactly when readable: always, except that a bi-directional VPOWER needs to lie in -8..7 |
| `Pac193xSnapshot.PowerMacro` | recipes-bsp/kernel-module-pac193x/files/pac193x/pac193x.c:300-303 | the power macro is the big-endian number without its low four bits |
| `Pac193xSnapshot.PackedAt` | recipes-bsp/kernel-module-pac193x/files/pac193x/pac193x.c:1041-1128 | for every mask an active channel's field lies where the channels below it end |
| `Pac193xSnapshot.StaysInside` | recipes-bsp/kernel-module-pac193x/files/pac193x/pac193x.c:1033-1128 | for every mask and channel count the parser stays within the first 75 bytes |
| `Pac193xSnapshot.ReadFields` | recipes-bsp/kernel-module-pac193x/files/pac193x/pac193x.c:1067-1074 | a per-channel loop reads every active channel's field and leaves the others alone |
| `Pac193xSnapshot.SectionRoundTrip` | recipes-bsp/kernel-module-pac193x/files/pac193x/pac193x.c:1066-1128 | reading a section that the chip has sent gives the chip's values on active channels, exactly when they are readable |
| `Pac193xSnapshot.SnapshotRoundTrip` | recipes-bsp/kernel-module-pac193x/files/pac193x/pac193x.c:1033-1128 | the same for each section of a whole snapshot, for every mask and every prior content |
| `Pac193xSnapshot.CountRoundTrip` | recipes-bsp/kernel-module-pac193x/files/pac193x/pac193x.c:1033-1034 | the sample count comes back |
| `Pac193xSnapshot.SnapshotInBytes` | recipes-bsp/kernel-module-pac193x/files/pac193x/pac193x.c:1033-1128 | every value of an active channel by the number of its first byte, counted from the active channels: accumulators from 3, then voltages, sense voltages, their averages, powers |
| `Pac193xSnapshot.EnergyByRate` | recipes-bsp/kernel-module-pac193x/files/pac193x/pac193x.c:209-214 | a refresh adds accumulated power times sample count, divided by 1024, 256, 64 or 8 samples a second as the register says, rounded down, to each active channel's energy, and nothing to the others |
| `Pac193xSnapshot.RegData.ReadEnergies` | recipes-bsp/kernel-module-pac193x/files/pac193x/pac193x.c:1040-1064 | the first loop: accumulators and energies |
| `Pac193xSnapshot.RegData.RegSnapshot` | recipes-bsp/kernel-module-pac193x/files/pac193x/pac193x.c:1033-1128 | all fields after a snapshot, with the offsets that the six loops hand on; the energies by the sampling rate |
| `Pac193xRefresh.StepKeepsInv` | recipes-bsp/kernel-module-pac193x/files/pac193x/pac193x.c:1134-1157 | timer, work, reads, rate changes, time and samples all keep the refresh invariant |
| `Pac193xRefresh.ChipCanReply` | recipes-bsp/kernel-module-pac193x/files/pac193x/pac193x.c:996-1132 | whatever has happened, the chip has a reply that reports its window, to a read, to a rate change and to queued work |
| `Pac193xRefresh.GapBounded` | recipes-bsp/kernel-module-pac193x/files/pac193x/pac193x.c:1134-1157 | the chip is never left alone for longer than 60 s plus the lateness of timer and work |
| `Pac193xRefresh.GapBoundedInRuns` | recipes-bsp/kernel-module-pac193x/files/pac193x/pac193x.c:1134-1157 | over every run |
| `Pac193xRefresh.GapIsReached` | recipes-bsp/kernel-module-pac193x/files/pac193x/pac193x.c:1144-1157 | the bound is reached |
| `Pac193xRefresh.RateChangeRefreshes` | recipes-bsp/kernel-module-pac193x/files/pac193x/pac193x.c:942-950 | a rate change forces a refresh exactly unless the time stamp is that of this millisecond; then it only rewinds the stamp, so that a second one refreshes |
| `Pac193xRefresh.ReadIsCached` | recipes-bsp/kernel-module-pac193x/files/pac193x/pac193x.c:1347-1372 | a read within 50 ms of the time stamp changes nothing at all; a later one refreshes, takes the stamp and gives the timer another 60 s |
| `Pac193xRefresh.TimerAndWork` | recipes-bsp/kernel-module-pac193x/files/pac193x/pac193x.c:1134-1157 | the work item refreshes and leaves the timer alone; the timer queues it at most once and starts anew for 60 s |
| `Pac193xRefresh.NothingSaturates` | recipes-bsp/kernel-module-pac193x/files/pac193x/pac193x.c:1034-1064 | with gaps up to 181 s the chip's registers hold the true count and sum and their product fits s64 |
| `Pac193xRefresh.LimitIsClose` | recipes-bsp/kernel-module-pac193x/files/pac193x/pac193x.c:1061-1063 | 20 samples more at full scale overflow the product |
| `Pac193xRefresh.EachSampleOnce` | recipes-bsp/kernel-module-pac193x/files/pac193x/pac193x.c:1356-1372 | every sample of a run ends up in exactly one refresh window, in order; cached reads consume none |
| `Pac193xRefresh.StepEnergy` | recipes-bsp/kernel-module-pac193x/files/pac193x/pac193x.c:1054-1063 | a refresh adds the documented contribution of its window, everything else adds nothing |
| `Pac193xRefresh.EnergyIsSum` | recipes-bsp/kernel-module-pac193x/files/pac193x/pac193x.c:1040-1064 | over every run the energy is the sum of the documented contributions modulo 2^64 |
| `Pac193xRefresh.EnergyIsExact` | recipes-bsp/kernel-module-pac193x/files/pac193x/pac193x.c:1061-1063 | and the plain sum exactly as long as that fits s64 |
| `Pac193xRefresh.Monitor.constructor` | recipes-bsp/kernel-module-pac193x/files/pac193x/pac193x.c:1540-1554 | probing ends in the invariant, and what the chip had collected before counts towards the energies |
| `Pac193xRefresh.Monitor.RegSnapshot` | recipes-bsp/kernel-module-pac193x/files/pac193x/pac193x.c:996-1132 | a refresh, from the chip's bytes to the energies |
| `Pac193xRefresh.Monitor.ReadRegTimeout` | recipes-bsp/kernel-module-pac193x/files/pac193x/pac193x.c:1144-1157 | the timer re-arms itself and queues work that is not already pending |
| `Pac193xRefresh.Monitor.WorkPeriodicRfsh` | recipes-bsp/kernel-module-pac193x/files/pac193x/pac193x.c:1134-1142 | the work item refreshes and leaves the timer alone |
| `Pac193xRefresh.Monitor.RetrieveData` | recipes-bsp/kernel-module-pac193x/files/pac193x/pac193x.c:1347-1372 | refresh and re-arm when the cache is older than 50 ms, nothing otherwise |
| `Pac193xRefresh.Monitor.ReadRaw` | recipes-bsp/kernel-module-pac193x/files/pac193x/pac193x.c:1347-1372 | a read is the specified step and keeps the invariant |
| `Pac193xRefresh.Monitor.WriteRaw` | recipes-bsp/kernel-module-pac193x/files/pac193x/pac193x.c:942-950 | so is a rate change |
| `Crc32.Compute` | recipes-packages/libubootenv/libubootenv/1003-crc32.patch:18-29 | the nested loops compute the checksum specified over the bits of the buffer |
| `Crc32.CrcIsRfcCrc` | recipes-packages/libubootenv/libubootenv/1003-crc32.patch:18-29 | which is the table-driven CRC of section 8 of RFC 1952, defined on its own in `Rfc1952`, for every buffer and start value |
| `Crc32.PolynomialIs` | recipes-packages/libubootenv/libubootenv/1003-crc32.patch:26 | the polynomial by the exponents of its terms |
| `Crc32.KnownChecksums` | recipes-packages/libubootenv/libubootenv/1003-crc32.patch:18-29 | two known checksums, that of the digits 1 to 9 among them |
| `Rfc1952.CheckValue` | recipes-packages/libubootenv/libubootenv/1003-crc32.patch:18-29 | the independent definition has the published check value, too |
| `Crc32.CrcConcat` | recipes-packages/libubootenv/libubootenv/1003-crc32.patch:18-29 | checksumming in pieces, feeding each result into the next call, is checksumming the concatenation |
| `Crc32.AbsorbOnto` | recipes-packages/libubootenv/libubootenv/1003-crc32.patch:23-27 | each data byte reaches every 32-bit state |
| `Crc32.AbsorbOneToOne` | recipes-packages/libubootenv/libubootenv/1003-crc32.patch:23-27 | from one state only |
| `Crc32.CrcDetectsBurst` | recipes-packages/libubootenv/libubootenv/1003-crc32.patch:18-29 | two different buffers of one length that differ only within 32 consecutive bits never share a CRC |
| `Crc32.CrcDetectsFourBytes` | recipes-packages/libubootenv/libubootenv/1003-crc32.patch:18-29 | in particular no change of four consecutive bytes leaves the CRC as it was |
| `ShiftRegister.BurstChangesRegister` | recipes-packages/libubootenv/libubootenv/1003-crc32.patch:23-27 | the register argument behind it: no two messages that differ only within a burst no longer than the register leave it in the same state |
| `ShiftRegister.RegisterIsFeed` | recipes-packages/libubootenv/libubootenv/1003-crc32.patch:23-27 | working byte by byte is feeding the bits one at a time |
| `RedundantEnv.SomeCopySurvives` | recipes-packages/libubootenv/libubootenv/1004-redund.patch:8-35 | at most one fault (failed write, crash mid-write, failed flag): some copy is complete and holds the old or the new image |
| `RedundantEnv.ZeroMeansStored` | recipes-packages/libubootenv/libubootenv/1004-redund.patch:9-35 | a zero return means that the current copy holds the new image, except exactly when a failed write returned 0 and had not got through |
| `RedundantEnv.StoresAnyway` | recipes-packages/libubootenv/libubootenv/1004-redund.patch:18-35 | without such a misreading every store that does not crash stores, even when it returns an error, which only the flag can cause; the current copy, which is not flagged as obsolete, switches exactly when the first write worked |
| `RedundantEnv.OldCopyIsKept` | recipes-packages/libubootenv/libubootenv/1004-redund.patch:18-31 | a store that switches leaves the old image in place and flags that copy, and only that, as obsolete, exactly if flags are booleans and setting one was not lost |
| `RedundantEnv.FallsBack` | recipes-packages/libubootenv/libubootenv/1004-redund.patch:18-23 | a store that falls back rewrites the current copy, stays with it and sets no flag |
| `RedundantEnv.PlainStore` | recipes-packages/libubootenv/libubootenv/1004-redund.patch:8-15 | without redundancy copy 0 is written and nothing else, and zero is returned exactly for a write that worked or failed with a zero |
| `RedundantEnv.RunKeepsCurrent` | recipes-packages/libubootenv/libubootenv/1004-redund.patch:8-35 | over every run of stores and crashes the current copy stays complete, and no copy ever holds anything but an image that was stored |
| `RedundantEnv.FaultFreeRun` | recipes-packages/libubootenv/libubootenv/1004-redund.patch:8-35 | every sequence of stores without faults is such a run, and ends with the last image as the current copy, not obsolete |
| `RedundantEnv.TwoFaultsLose` | recipes-packages/libubootenv/libubootenv/1004-redund.patch:18-23 | two faults in one store can lose both copies |
| `RedundantEnv.MisreadingLoses` | recipes-packages/libubootenv/libubootenv/1004-redund.patch:9-28 | with a misreading, one fault in each of two stores can |
| `RedundantEnv.UbootCtx.Store` | recipes-packages/libubootenv/libubootenv/1004-redund.patch:8-35 | the copies, the current index and the return value after a store |
| `RedundantEnv.UbootCtx.CheckCopies` | recipes-packages/libubootenv/libubootenv/1004-redund.patch:38-47 | a copy that cannot be read counts as one with a wrong checksum instead of ending the load |
| `TimezoneLinks.LastIsEnd` | recipes-packages/systemd/files/0005-timedate-symlink.patch:24-53 | for the daemon, which stops at a link to a zone, and for opening a file, which does not: a search over the unvisited links gives up exactly when following them would never end, and otherwise finds where it stops |
| `TimezoneLinks.LoopEndsIff` | recipes-packages/systemd/files/0005-timedate-symlink.patch:24-53 | in particular from /etc/localtime, and from /etc/timezone when it is opened |
| `TimezoneLinks.ReadIff` | recipes-packages/systemd/files/0005-timedate-symlink.patch:9-56 | the zone that the reader gets: UTC exactly where the chain ends at nothing, or an installed one that the last link names below /usr/share/zoneinfo/ or ../usr/share/zoneinfo/ |
| `TimezoneLinks.ImageLinks` | classes-recipe/image-summitsom-gen.bbclass:117-124 | with the links of the image, both chains end on the data partition and are apart, so that the last change wins |
| `TimezoneLinks.SameEnd` | recipes-packages/systemd/files/0005-timedate-symlink.patch:70-82 | a change at the last name leaves the chain as it was |
| `TimezoneLinks.WriteThenRead` | recipes-packages/systemd/files/0005-timedate-symlink.patch:60-119 | for every file system whose chain ends and whose /etc/timezone can be opened, through whatever links: writing a zone and reading it back gives that zone, or UTC for none, invalid exactly if it is not installed; the last name is a link to the zone below /usr/share/zoneinfo/ or is removed; only it and the file behind /etc/timezone change, and the latter names the same zone except for an unset zone with UTC installed |
| `TimezoneLinks.LastChangeWins` | recipes-packages/systemd/files/0005-timedate-symlink.patch:60-119 | over every sequence of zone changes the reader sees the last one, at the end of the same chain, and so does the file behind /etc/timezone, if that does not lead through the end of the chain |
| `TimezoneLinks.Timedated.FollowLinks` | recipes-packages/systemd/files/0005-timedate-symlink.patch:24-53 | the loop terminates by a measure on unvisited links, at the last name |
| `TimezoneLinks.Timedated.GetTimezone` | recipes-packages/systemd/files/0005-timedate-symlink.patch:9-56 | the reader returns what the last name says |
| `TimezoneLinks.Timedated.WriteTimezone` | recipes-packages/systemd/files/0005-timedate-symlink.patch:60-119 | it fails, changing nothing, exactly when /etc/timezone is a circle of links; otherwise the file system after the writer, and what a reader then gets |
| `FitImage.PickedIsSound` | classes-recipe/kernel-fitimage.bbclass:632-693 | no device tree is picked twice; images are emitted only for picked ones |
| `FitImage.PickedIff` | classes-recipe/kernel-fitimage.bbclass:663-692 | a name is picked exactly when the loops come across it and nothing picked before its first appearance matches it as a pattern |
| `FitImage.DefaultIsWanted` | classes-recipe/kernel-fitimage.bbclass:656-680 | the default is the wanted device tree if the loops come across it |
| `FitImage.CandidateIff` | classes-recipe/kernel-fitimage.bbclass:632-693 | the loops come across exactly the kernel's device trees that are not there, with content, in the external directory, and all that the listing shows; the latter without an image for a link below the directory |
| `FitImage.CandidatesInOrder` | classes-recipe/kernel-fitimage.bbclass:632-693 | in the order of the kernel's list, and then of the listing |
| `FitImage.MatchesIff` | classes-recipe/kernel-fitimage.bbclass:663 | the comparison of names is that of grep -x, read character by character, where a dot in the name matches anything |
| `FitImage.DotlessMatchesIff` | classes-recipe/kernel-fitimage.bbclass:663 | so that a name without dots passes for no other one |
| `FitImage.NodesAreUnique` | classes-recipe/kernel-fitimage.bbclass:484-490 | configuration names are unique |
| `FitImage.DefaultResolvesIff` | classes-recipe/kernel-fitimage.bbclass:521-534 | exactly the first configuration carries a default line, and it names an emitted configuration exactly when the wanted device tree is not taken for one picked before |
| `FitImage.DanglingDefault` | classes-recipe/kernel-fitimage.bbclass:656-663 | board.a.dtb after board-a.dtb is such a case |
| `FitImage.SignsWhatItRefersTo` | classes-recipe/kernel-fitimage.bbclass:552-581 | sign-images lists exactly the kinds that the configuration references |
| `FitImage.References` | classes-recipe/kernel-fitimage.bbclass:493-519 | what a configuration can refer to |
| `FitImage.OverlayIff` | classes-recipe/kernel-fitimage.bbclass:769 | a device tree is an overlay exactly when what follows the last dot of its name is dtbo |
| `FitImage.ConfigsAreFull` | classes-recipe/kernel-fitimage.bbclass:766-781 | one configuration for each picked device tree, in order: always its tree, or the target of its link, and the boot script if there is one; the kernel, and ramdisk and setup as far as they are built, exactly unless it is an overlay |
| `FitImage.ImageNames` | classes-recipe/kernel-fitimage.bbclass:617-745 | which image names are emitted, exactly |
| `FitImage.EmittedIff` | classes-recipe/kernel-fitimage.bbclass:656-692 | an image is emitted exactly when the first device tree of that name that the loops come across is not a link below the directory and is not taken for one picked before |
| `FitImage.ReferencesResolveIff` | classes-recipe/kernel-fitimage.bbclass:467-519 | every reference of a configuration resolves exactly when this holds of its device tree, or of the target of its link |
| `FitImage.ClearNamesResolveIff` | classes-recipe/kernel-fitimage.bbclass:632-693 | with names that cannot be taken for one another, every reference resolves exactly when the device tree, or the target of its link, comes as a file from the kernel or the listing; and the default resolves |
| `FitImage.DanglingReference` | classes-recipe/kernel-fitimage.bbclass:467-519 | a.dtb as a link to b.bin: the configuration refers to an image that is not emitted |
| `FitImage.Its.EmitSectionConfig` | classes-recipe/kernel-fitimage.bbclass:438-597 | one configuration section, by its arguments |
| `FitImage.Its.CollectDtbs` | classes-recipe/kernel-fitimage.bbclass:632-693 | the two loops pick and emit what the specification says |
| `FitImage.Its.EmitConfigs` | classes-recipe/kernel-fitimage.bbclass:766-781 | one configuration for each device tree, as specified, or one for the kernel alone |
| `FitImage.Its.Assemble` | classes-recipe/kernel-fitimage.bbclass:604-786 | a fatal error exactly for keys of the same name or a missing ramdisk; otherwise all image sections and the full configurations |
| `AtmelHeader.RoundTrip` | recipes-packages/swupdate/swupdate/1008-atmel-header-update.patch:130-136 | the boot ROM reads every packed field back exactly when all of them are in range |
| `AtmelHeader.FfsIff` | recipes-packages/swupdate/swupdate/1008-atmel-header-update.patch:91-95 | the power-of-two test by the lowest set bit is right |
| `AtmelHeader.ZeroIff` | recipes-packages/swupdate/swupdate/1008-atmel-header-update.patch:84-137 | the word is zero exactly unless the sectors are a power of two, of 512 or 1024 bytes, with 2, 4, 8, 12 or 24 ECC bits |
| `AtmelHeader.WordDescribes` | recipes-packages/swupdate/swupdate/1008-atmel-header-update.patch:84-137 | the word for a supported geometry carries the key, the sectors by their logarithm, 512 bytes times a power of two, the ECC bits by their place in a list, spare size and offset, exactly when all of them fit their fields |
| `AtmelHeader.EccBytesAreLeast` | recipes-packages/swupdate/swupdate/1008-atmel-header-update.patch:139-143 | the ECC bytes are the least whole number that holds (12 + sector/512) * cap bits |
| `AtmelHeader.HeaderUpdate` | recipes-packages/swupdate/swupdate/1008-atmel-header-update.patch:145-180 | on success the first 52 words hold the word in little-endian order and the rest is unchanged; on failure the buffer is; a negative sector size fails |
| `AtmelHeader.PackedFits` | recipes-packages/swupdate/swupdate/1008-atmel-header-update.patch:130-136 | the word fits 32 bits |
| `AtmelHeader.WordReadsBack` | recipes-packages/swupdate/swupdate/1008-atmel-header-update.patch:167-173 | its four bytes read back as the word |
| `AtmelHeader.UpdateIff` | recipes-packages/swupdate/swupdate/1008-atmel-header-update.patch:145-166 | the update goes through exactly for a page of a power of two of sectors of a supported size |
| `AtmelHeader.UpdateDescribes` | recipes-packages/swupdate/swupdate/1008-atmel-header-update.patch:145-172 | the update describes the flash correctly exactly when the spare area is below 512 bytes, the ECC bytes fit into it, and a page has at most 128 sectors |

## Left out

- SpiFlash.LoadBinary: the flash is idle when it starts; USB errors are not modelled.
- SpiFlash.VerdictIff: through the window from a start that is not page-aligned only one direction is promised (a read-back that can be trusted gives the right verdict, `SpiFlash.CompareIsHolds`); `SpiFlash.ReadBackIff` has both for every start.
- SpiFlash.ReadSpiRom: reads an idle flash: the time that the last page program may still take is not modelled here, so the statements about the window hold once it is over. The code that the hub runs to fill its buffer is opaque; memory outside the mapped window is an arbitrary function.
- SpiPages.StoredIff: the programming page (128 or 256 bytes) divides the page of the flash.
- SpiFlash.Identify: reduced to absent, SST26 and other; the table of part names is not part of the model.
- OtpProgram.OtpPart.ProgramFile: a write either happens as a whole or not at all, and the configuration is at most the 64 bytes of its buffer; what a run does once it leaves the 2 KB host buffer is undefined and outside the model (`OtpRuns.DefinedIff` says which runs these are).
- OtpTraces.InterruptedRunsStore: promises the block of a run that reported success; data left behind by an interrupted run can spoil a later block, and that run then reports a mismatch.
- OtpTraces.ReplayKeepsLog: assumes of each run what `OtpTraces.SoundStep` says (gap not negative, header slot burnable, next slot not a header), as do ReplayKeepsCommitted and ReplayScans; the theorems from a blank part replace it by conditions on lengths.
- UartBaud.CalculateSettings: float rounding of the error percentage is not modelled.
- Pac193xRefresh.StepKeepsInv: I2C failures, the chip's conversion time after a refresh and jiffies wrap-around are not modelled; a snapshot is one step; a rate change that is refused (invalid rate, buffer in use) does nothing and is no event.
- Pac193xRefresh.EnergyIsSum: physical units are not modelled; the documented formula is taken as given.
- RedundantEnv.RunKeepsCurrent: assumes that no failed write returns 0 (`RedundantEnv.MisreadingLoses` shows why) and boots after a crash from any complete copy; how libuboot_load chooses between two complete copies is not part of this model, and neither are devwrite and set_obsolete_flag.
- A torn environment copy is assumed to have a wrong checksum; `Crc32.CrcDetectsBurst` says for which differences that is certain.
- TimezoneLinks.WriteThenRead: two different names are two different files, link targets are used as they are, doubled slashes and dot components are not normalised, and the set of installed zones does not change, not even by writing through /etc/timezone; the only failing file operation is opening a circle of links.
- TimezoneLinks.LastChangeWins: assumes that /etc/timezone does not lead through the end of the other chain; if it does, the next write goes into a zone file. The limit on the number of links that the kernel follows is not modelled.
- TimezoneLinks.Timedated.WriteTimezone: an unset zone is an empty string; with UTC installed the code passes a null pointer on to write_string_file, which is not part of this model.
- FitImage.Its.Assemble: device tree names are flat and free of regular expression characters other than the dot; data paths, hashes, compatible lines, signing of single images and encryption are not modelled.
- AtmelHeader.HeaderUpdate: a sector size of zero in sysfs, which the code would divide by, is outside the model.
- USB transfers, hub enumeration, UART data transfer, pin multiplexing and the example programs: foreign calls or register writes without state.
- The chip-erase branch of LoadBinary: behind the 128 KB guard it cannot be reached.
- SPI_SignatureErase and the code downloaded to the hub: opaque device code.
- The A/B update scripts, U-Boot board code and the charger driver patch: a two-value toggle, fragments of code that is elsewhere, and setters that would add only easy round trips.
- Memory timing tables, device trees, recipes and certificates: data.
