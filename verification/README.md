# Verification of the LPC2000 flash loader

This project models the flash loader in `LPC2146_USB/CrossWorks_GCC/loader/loader.c` and proves what a host that
downloads a program through it can rely on. The loader is a write-back cache of one 4 KiB block in
front of flash memory that is changed only by In-Application Programming (IAP) commands: *prepare*
a range of sectors, *copy* a block from RAM to flash, *erase* a range of sectors.

The model has two layers. The classes `Loader.FlashLoader` and `Iap.Flash` hold the loader's static
variables and the device, and their methods keep the loops and branches of the source. Each method's
`ensures` equates the new state with a function of the old one (module `Cache`). The miss path
that poke and memset repeat in the source is one method here (`SelectBlock`). The other modules
prove what those functions mean.

| file | content |
|---|---|
| Words.dfy | 32-bit addresses and words, bytes of a word, packing and unpacking |
| Geometry.dfy | run-length sector tables, sector search, the four tables |
| Iap.dfy | the IAP device: status codes, protection, trace of commands, two kinds of programming |
| Cache.dfy | the loader's operations as functions of states; sessions |
| Loader.dfy | the loader as a class |
| Outcome.dfy | what one write-back and one erase do under any failures |
| Commands.dfy | exactly which commands each operation issues and which sectors it leaves unprotected |
| Protocol.dfy | command discipline and memory frame over every run |
| Refinement.dfy | flash and cache refine plain byte memory |
| Nor.dfy, Programming.dfy | the same on NOR flash, and the erase-write-flush session |
| Failures.dfy | damage of failed commands, retried flushes, no invented bytes |
| Erasing.dfy | which bytes an erase covers, and when the cache hides it |
| Counting.dfy | exact number of blocks written back, and of attempts |
| BlankCheck.dfy | the blank check with its 32-bit count |

## How the environment is modelled

- The device is the model's own: the source only calls a ROM entry point. `Iap.Execute` accepts a
  prepare whose sectors exist in order, a copy to an aligned block of prepared flash, and an erase of
  prepared sectors. A command that succeeds at copying or erasing protects its sectors again. A
  command that does not succeed leaves memory and protection unchanged.
- `Config.schedule` is a status for every moment of the run. A command that passes the device's
  checks answers with it, so "for every schedule" means for every pattern of IAP failures.
  `Clean` says that the schedule never fails a command.
- `Config.mode` selects programming that replaces bytes or programming that only clears bits (NOR).
- Addresses and lengths are 32-bit and wrap round where the source's arithmetic does; no operation
  has a precondition on its range. The sector map has to fit in 32 bits, and the theorems about
  blocks need sector sizes that are multiples of the block size, which all four tables have.
- `Config.clock` is the processor clock that the loader passes on in kHz.

## What is found to be weaker than one might expect

- Poke and memset ignore a failed write-back and still return 1. `Failures.PokeExact` and
  `Failures.MemsetExact` state exactly when that loses data, `Failures.LostPokeExample` and
  `Failures.LostMemsetExample` the smallest cases.
- Erase and erase-all ignore the results of both their commands and still return 1.
  `Outcome.EraseOutcome` states exactly when an erase goes through, `Erasing.EraseSeenExactly` when it
  is seen, `Erasing.SilentEraseExample` the smallest case.
- An erase does not invalidate the cache, so a block erased under the cache comes back at the next
  flush. `Erasing.AcceptedEraseSeen` states exactly when an erase that goes through is seen,
  `Erasing.StaleBlockExample` the smallest case.
- An erase of length 0 erases a whole sector unless its address starts a sector or lies outside
  (`Erasing.EmptyEraseExact`, `Erasing.EmptyEraseExample`).
- The blank check of fewer bytes than there are before the next word boundary runs its count past
  zero and asks about the whole address space (`BlankCheck.BlankCheckExact`,
  `BlankCheck.BlankCheckExample`). This is latent: the function is static and nothing in the file
  calls it.
- Erase-all on an empty sector map issues two refused commands, where erasing the empty range would
  issue none (`Erasing.EraseAllIsErase`).

## Model

| member | source | states |
|---|---|---|
| Words.UnpackByte | LPC2146_USB/CrossWorks_GCC/loader/loader.c:295-307 | byte 4i+j of the poked stream is byte j of host word i, least significant first |
| Words.UnpackShifts | LPC2146_USB/CrossWorks_GCC/loader/loader.c:295-307 | the same in literal shifts of the host word: its lowest byte is written first, its highest last |
| Words.UnpackPack | LPC2146_USB/CrossWorks_GCC/loader/loader.c:293-311 | unpacking inverts little-endian packing for every number of bytes, discarding the padding of the last word |
| Geometry.GetSectorNumber | LPC2146_USB/CrossWorks_GCC/loader/loader.c:182-201 | the nested walk of the run-length table finds the sector whose prefix sums bracket the address, and answers -1 exactly at and past the total size; its 32-bit sums never wrap |
| Geometry.GetNumberOfSectors | LPC2146_USB/CrossWorks_GCC/loader/loader.c:203-211 | the count is the length of the expanded sector list |
| Geometry.SectorNumberCorrect | LPC2146_USB/CrossWorks_GCC/loader/loader.c:182-201 | the sector number is the only index whose sector contains the address, -1 exactly past the end |
| Geometry.SectorNumberMonotone | LPC2146_USB/CrossWorks_GCC/loader/loader.c:182-201 | sector numbers never decrease with the address |
| Geometry.SectorNumberOnto | LPC2146_USB/CrossWorks_GCC/loader/loader.c:182-211 | every sector index is the number of its first and of its last byte |
| Geometry.BlockInOneSector | LPC2146_USB/CrossWorks_GCC/loader/loader.c:218-223 | all 4096 addresses of an aligned block of the geometry have the same sector number, and the block fits that sector |
| Geometry.ExpandCorrect | LPC2146_USB/CrossWorks_GCC/loader/loader.c:85-131 | a table of runs of block-sized sectors expands to block-sized sectors with the total of its runs |
| Geometry.TablesUsable | LPC2146_USB/CrossWorks_GCC/loader/loader.c:91-131 | all four tables are terminated, made of whole blocks, fit in 32 bits, and describe 60, 120, 256 and 500 KiB |
| Geometry.TableSectors | LPC2146_USB/CrossWorks_GCC/loader/loader.c:91-131 | the sector of every flash address of the four maps in plain numbers, and that they have 15, 15, 18 and 27 sectors |
| Iap.Flash.IapCommand | LPC2146_USB/CrossWorks_GCC/loader/loader.c:143-153 | one command has exactly the effect of the device function, records itself, and returns its status |
| Cache.WriteBytesSplit | LPC2146_USB/CrossWorks_GCC/loader/loader.c:290-313 | poking two adjoining stretches one after the other is poking them joined: same flash, buffer, cached address, commands |
| Cache.FillIsWrite | LPC2146_USB/CrossWorks_GCC/loader/loader.c:290-337 | memset by block fragments and poke of as many equal bytes end in the same flash, buffer, cached address and command trace |
| Cache.HostPoke | LPC2146_USB/CrossWorks_GCC/loader/loader.c:290-313 | poking packed bytes writes those bytes |
| Cache.HostChunking | LPC2146_USB/CrossWorks_GCC/loader/loader.c:290-313 | two pokes packed separately equal one poke of all bytes, also when the cut is not at a word boundary |
| Loader.FlashLoader.constructor | LPC2146_USB/CrossWorks_GCC/loader/loader.c:133-141 | the loader starts with an empty cache and arbitrary RAM |
| Loader.FlashLoader.WriteCurrentBlock | LPC2146_USB/CrossWorks_GCC/loader/loader.c:213-229 | result and whole new state of a write-back, on every failure path |
| Loader.FlashLoader.SelectBlock | LPC2146_USB/CrossWorks_GCC/loader/loader.c:299-305 | the miss path writes back, ignores the result and loads the block; all buffer indices are in range |
| Loader.FlashLoader.StoreByte | LPC2146_USB/CrossWorks_GCC/loader/loader.c:299-306 | one turn of the poke loop selects the block and replaces one buffer byte |
| Loader.FlashLoader.LoaderFlushWrites | LPC2146_USB/CrossWorks_GCC/loader/loader.c:284-288 | a flush is one write-back with its result ignored |
| Loader.FlashLoader.LoaderPoke | LPC2146_USB/CrossWorks_GCC/loader/loader.c:290-313 | the nested loops read exactly one word for each four bytes begun, end, return 1, and write the unpacked bytes in order |
| Loader.FlashLoader.LoaderMemset | LPC2146_USB/CrossWorks_GCC/loader/loader.c:315-337 | the fragment loop ends, returns 1 and fills the range fragment by fragment, every fragment inside the buffer |
| Loader.FlashLoader.LoaderErase | LPC2146_USB/CrossWorks_GCC/loader/loader.c:339-351 | returns 1 and issues prepare and erase for the sectors of the two ends, or nothing when an end is outside |
| Loader.FlashLoader.LoaderEraseAll | LPC2146_USB/CrossWorks_GCC/loader/loader.c:353-360 | returns 1 and issues prepare and erase for all sectors |
| Outcome.NothingPending | LPC2146_USB/CrossWorks_GCC/loader/loader.c:216-228 | a block outside the geometry is dropped without a command |
| Outcome.CopyPassesChecks | LPC2146_USB/CrossWorks_GCC/loader/loader.c:218-223 | preparing the one sector of the block base makes the device accept the copy of the whole block |
| Outcome.WriteBackOutcome | LPC2146_USB/CrossWorks_GCC/loader/loader.c:213-229 | the write-back succeeds exactly when the environment accepts both commands; then the flash is programmed and the sector protected again; otherwise buffer, cached address and memory are unchanged, and the sector is left unprotected exactly when its prepare succeeded |
| Commands.AttemptCommands | LPC2146_USB/CrossWorks_GCC/loader/loader.c:216-224 | one write-back attempt issues nothing for a block outside the geometry, one prepare when that fails, and else a prepare of the block's sector and a copy of the whole buffer, with the answers of the schedule |
| Commands.FlushCommands | LPC2146_USB/CrossWorks_GCC/loader/loader.c:284-288 | a flush issues exactly one attempt, for every schedule; the sectors left unprotected |
| Commands.WriteByteCommands | LPC2146_USB/CrossWorks_GCC/loader/loader.c:299-306 | one turn of the poke loop issues exactly one attempt when it changes the block and nothing otherwise, for every schedule; the sectors left unprotected |
| Commands.PokeTurn | LPC2146_USB/CrossWorks_GCC/loader/loader.c:297-310 | the same for the k-th byte of a poke: the block changes at the first byte if another block was cached, and later exactly at the addresses that are multiples of 0x1000 |
| Commands.WriteCommands | LPC2146_USB/CrossWorks_GCC/loader/loader.c:290-337 | the exact trace of a whole poke or memset: one attempt for each change of block, whatever fails |
| Commands.UploadExample | LPC2146_USB/CrossWorks_GCC/loader/loader.c:284-313 | on the LPC2146 map, the four commands of an 8 KiB upload to 0x7000, in numbers |
| Outcome.EraseOutcome | LPC2146_USB/CrossWorks_GCC/loader/loader.c:345-349 | both commands are issued whatever the first answers; the erase goes through exactly when the range names sectors in order, the environment accepts the second command, and the sectors are prepared by the first command or still from before; then exactly these sectors are filled and protected again, otherwise memory is unchanged |
| Commands.EraseCommands | LPC2146_USB/CrossWorks_GCC/loader/loader.c:339-351 | for every address, length and schedule, an erase with both ends in the geometry issues exactly one prepare and one erase of the sectors of the two ends; their answers, the memory and the protection they leave |
| Commands.EraseAllCommands | LPC2146_USB/CrossWorks_GCC/loader/loader.c:353-360 | the same for erase-all, from the first to the last sector |
| Commands.LastAddressCases | LPC2146_USB/CrossWorks_GCC/loader/loader.c:344 | the last address of a range in plain arithmetic, also for length 0 and past the end of the address space |
| Protocol.StepEvolves | LPC2146_USB/CrossWorks_GCC/loader/loader.c:213-360 | every operation with any arguments and failures appends well-ordered commands, changes nothing past the flash, and without failures leaves no sector newly unprotected |
| Protocol.RunEvolves | LPC2146_USB/CrossWorks_GCC/loader/loader.c:213-360 | the same for every session |
| Protocol.ProtocolSafety | LPC2146_USB/CrossWorks_GCC/loader/loader.c:213-229 | over every run from power-on, each copy writes one aligned block inside one sector, directly after a successful prepare of that sector, and is refused only by the environment; each erase directly follows a prepare of the same sectors |
| Protocol.CleanSessionsProtect | LPC2146_USB/CrossWorks_GCC/loader/loader.c:213-360 | when nothing fails, every session ends with all sectors write-protected |
| Protocol.FlashFrame | LPC2146_USB/CrossWorks_GCC/loader/loader.c:218-226 | no session changes memory past the end of the geometry, whatever fails and whatever range is asked for |
| Refinement.CoversRange | LPC2146_USB/CrossWorks_GCC/loader/loader.c:290-337 | a poke or memset that does not pass the last address covers exactly its addresses, byte k of the data at address a+k |
| Refinement.WriteByteView | LPC2146_USB/CrossWorks_GCC/loader/loader.c:299-306 | on overwritten flash, what flash and cache stand for after one byte is written, including the bytes lost to a failed eviction |
| Refinement.OtherByte | LPC2146_USB/CrossWorks_GCC/loader/loader.c:299-306 | on both kinds of flash, a byte that is not written reads as before exactly when the eviction does not damage it: it neither fails on a byte not yet in flash nor has to set bits of NOR flash |
| Refinement.WriteBytesTrack | LPC2146_USB/CrossWorks_GCC/loader/loader.c:290-313 | during a poke a flash byte has its last value until an eviction damages it, and from then on shows what flash holds |
| Refinement.WriteBytesExact | LPC2146_USB/CrossWorks_GCC/loader/loader.c:290-313 | a poke of any length acts on a flash byte as on plain memory exactly when no eviction damages it that the rest of the poke does not make up for |
| Refinement.EraseExact | LPC2146_USB/CrossWorks_GCC/loader/loader.c:339-360 | an erase, failed or not, acts on a flash byte as on plain memory exactly when it does not clear it, or it read 0xFF already, or it goes through while the byte is not cached |
| Refinement.FlushExact | LPC2146_USB/CrossWorks_GCC/loader/loader.c:284-288 | a flush, failed or not, keeps what flash and cache stand for exactly when it need not set bits of NOR flash |
| Refinement.StepExact | LPC2146_USB/CrossWorks_GCC/loader/loader.c:284-360 | the exact condition for every operation, every schedule of failures and both kinds of flash |
| Refinement.SessionExact | LPC2146_USB/CrossWorks_GCC/loader/loader.c:213-360 | for every session, every schedule of failures and both kinds of flash, a flash byte reads as in plain memory after each operation exactly when no eviction or flush damages it and each erase that has something to clear there goes through while it is not cached |
| Refinement.SessionAt | LPC2146_USB/CrossWorks_GCC/loader/loader.c:213-360 | the part of it that the trace shows: a flash byte that no failed command concerns, and that no operation erases while its block is cached, reads as in plain memory, whatever failed elsewhere |
| Refinement.SessionRefines | LPC2146_USB/CrossWorks_GCC/loader/loader.c:213-360 | without failures and with no sector erased under a cached block, every session leaves flash and cache standing for exactly the plain memory, for all ranges, also straddling or outside the geometry |
| Refinement.FlushCommits | LPC2146_USB/CrossWorks_GCC/loader/loader.c:284-288 | a flush leaves in flash what flash and cache stood for and empties the cache |
| Refinement.FlushedSession | LPC2146_USB/CrossWorks_GCC/loader/loader.c:213-351 | a session from power-on closed by a flush leaves the flash equal to the plain memory |
| Nor.WriteBytesSame | LPC2146_USB/CrossWorks_GCC/loader/loader.c:299-306 | on NOR flash, writes that only clear bits keep every cached byte a bit-subset of the flash byte below it and act as on overwritten flash, across evictions, reloads and failures |
| Nor.NorIsOverwrite | LPC2146_USB/CrossWorks_GCC/loader/loader.c:213-360 | for every schedule of failures, a session that only clears bits runs on NOR flash as on overwritten flash: same memory, buffer and commands |
| Nor.NorSession | LPC2146_USB/CrossWorks_GCC/loader/loader.c:213-360 | without failures, a flushed session that in plain memory only clears bits between erases leaves NOR flash equal to plain memory |
| Programming.ProgrammingSession | LPC2146_USB/CrossWorks_GCC/loader/loader.c:213-351 | erases, then disjoint writes into erased sectors in any order, then a flush: every flash byte ends as the data written to it, as 0xFF if only erased, and unchanged otherwise, on both kinds of flash |
| Programming.ProgrammingOutcome | LPC2146_USB/CrossWorks_GCC/loader/loader.c:213-351 | byte by byte, what flash of either kind holds after erases, then pokes, memsets and flushes writing the byte at most once, then a flush: the written byte, on NOR flash its bitwise and with what the erases left, also where bits would have to be set |
| Programming.ProgrammingExactAt | LPC2146_USB/CrossWorks_GCC/loader/loader.c:213-351 | the covering write arrives at a byte exactly when, on NOR flash, it only clears bits of what the erases leave there, whatever happens elsewhere |
| Programming.ProgrammingExact | LPC2146_USB/CrossWorks_GCC/loader/loader.c:213-351 | the same result for erases, disjoint writes anywhere and a flush holds exactly when, on NOR flash, every written byte only clears bits of what the erases leave |
| Programming.NorBitsOnlyClear | LPC2146_USB/CrossWorks_GCC/loader/loader.c:216-226 | on NOR flash a byte that no operation erases ends with a subset of its bits, for every session and failures |
| Programming.NorWriteExact | LPC2146_USB/CrossWorks_GCC/loader/loader.c:284-337 | one poke or memset and a flush come out right on NOR flash exactly when every byte written to flash only clears bits |
| Programming.NorWriteOutcome | LPC2146_USB/CrossWorks_GCC/loader/loader.c:216-226 | NOR flash holds the bitwise and of the old and the written byte after one poke or memset and a flush |
| Failures.EvictionDamage | LPC2146_USB/CrossWorks_GCC/loader/loader.c:300-306 | a failed eviction hurts only bytes of the evicted block, which revert to the flash contents |
| Failures.WriteByteExact | LPC2146_USB/CrossWorks_GCC/loader/loader.c:299-306 | one turn of the poke loop acts as on plain memory exactly when it does not evict a dirty block with a failing write-back |
| Failures.PokeExact | LPC2146_USB/CrossWorks_GCC/loader/loader.c:290-313 | a poke acts on all flash bytes as on plain memory exactly when it loses none of them, on both kinds of flash |
| Failures.MemsetExact | LPC2146_USB/CrossWorks_GCC/loader/loader.c:315-337 | the same for memset, with the bytes that its fragments lose |
| Failures.LostPokeExample | LPC2146_USB/CrossWorks_GCC/loader/loader.c:300-312 | when the first command of a run fails, the first of two pokes is lost although both return success, and the byte differs from what was asked |
| Failures.LostMemsetExample | LPC2146_USB/CrossWorks_GCC/loader/loader.c:320-336 | a single memset of two blocks can lose its own first block |
| Failures.FlushKeeps | LPC2146_USB/CrossWorks_GCC/loader/loader.c:213-229 | one flush empties the cache exactly when nothing was pending or the environment accepts both commands, and then flash holds what flash and cache stood for; otherwise nothing changed |
| Failures.FlushRetry | LPC2146_USB/CrossWorks_GCC/loader/loader.c:213-229 | after any number of flushes the block is still cached with nothing changed, or everything is in flash |
| Failures.IntactThenFlushed | LPC2146_USB/CrossWorks_GCC/loader/loader.c:213-360 | after any session with failures that is faithful to a byte, including flushes that failed before or between writes, a flush that goes through leaves the byte in flash as in plain memory |
| Failures.NoInventedBits | LPC2146_USB/CrossWorks_GCC/loader/loader.c:213-360 | over every run and all failures, on both kinds of flash, each bit that flash and cache hold is a bit the byte had before or an operation put there |
| Failures.NoInventedBytes | LPC2146_USB/CrossWorks_GCC/loader/loader.c:213-360 | on overwritten flash this holds of whole bytes |
| Erasing.EraseHitsMeeting | LPC2146_USB/CrossWorks_GCC/loader/loader.c:343-348 | a non-empty range in the geometry hits exactly the sectors that share a byte with it |
| Erasing.EraseEffect | LPC2146_USB/CrossWorks_GCC/loader/loader.c:339-351 | an accepted erase fills exactly the hit bytes with 0xFF and changes no other byte of memory, for every address and length |
| Erasing.EraseOutside | LPC2146_USB/CrossWorks_GCC/loader/loader.c:343-349 | no command is issued exactly when an end of the range is outside the geometry |
| Erasing.EmptyEraseExact | LPC2146_USB/CrossWorks_GCC/loader/loader.c:343-348 | a length of 0 erases the whole sector of the address exactly when the address is inside and not the first byte of a sector |
| Erasing.EmptyEraseExample | LPC2146_USB/CrossWorks_GCC/loader/loader.c:343-348 | on the LPC2146 map, erasing 0 bytes at address 1 clears byte 0 |
| Erasing.EraseAllIsErase | LPC2146_USB/CrossWorks_GCC/loader/loader.c:353-360 | erase-all is command for command the erase of the whole range exactly when there is a sector |
| Erasing.EraseSeenExactly | LPC2146_USB/CrossWorks_GCC/loader/loader.c:339-360 | for every schedule of failures, an erase is seen exactly when each byte it clears read 0xFF already or was not cached while the erase went through |
| Erasing.AcceptedEraseSeen | LPC2146_USB/CrossWorks_GCC/loader/loader.c:339-360 | an accepted erase is seen exactly when no cached block lies in its sectors or that block is blank |
| Erasing.SilentEraseExample | LPC2146_USB/CrossWorks_GCC/loader/loader.c:347-350 | when the erase command fails nothing is erased, and the result is still 1 |
| Erasing.StaleBlockReturns | LPC2146_USB/CrossWorks_GCC/loader/loader.c:284-351 | a block erased under the cache is written back by the next flush |
| Erasing.StaleBlockExample | LPC2146_USB/CrossWorks_GCC/loader/loader.c:284-351 | poke, erase and flush of one byte leaves the poked byte, not 0xFF |
| Counting.WriteBackCopies | LPC2146_USB/CrossWorks_GCC/loader/loader.c:213-229 | an unfailing write-back is one copy exactly when a block of the geometry is cached |
| Counting.PokeCopies | LPC2146_USB/CrossWorks_GCC/loader/loader.c:299-305 | poking [a, a+n) issues one copy for each block boundary crossed, plus one exactly when another block of the geometry was cached |
| Counting.MemsetCopies | LPC2146_USB/CrossWorks_GCC/loader/loader.c:321-327 | memset of [a, a+n) issues exactly as many |
| Counting.UploadCopies | LPC2146_USB/CrossWorks_GCC/loader/loader.c:284-313 | an upload from an empty cache closed by a flush programs each block it meets once |
| Counting.PokeAttempts | LPC2146_USB/CrossWorks_GCC/loader/loader.c:299-305 | whatever fails, poking [a, a+n) attempts one write-back for each block boundary crossed, plus one exactly when another block of the geometry was cached |
| BlankCheck.IsErased | LPC2146_USB/CrossWorks_GCC/loader/loader.c:155-180 | the byte, word and byte loops answer 1 exactly when every byte of the range is 0xFF, if the range reaches the next word boundary, and exactly when the whole address space is 0xFF otherwise; 32-bit count, only aligned word loads |
| BlankCheck.AllErasedRange | LPC2146_USB/CrossWorks_GCC/loader/loader.c:155-180 | the bytes that a scan reads, by address, also past the end of the address space |
| BlankCheck.BoundaryDistance | LPC2146_USB/CrossWorks_GCC/loader/loader.c:158-164 | the distance to the word boundary is the number below 4 that makes the address a multiple of 4 |
| BlankCheck.UnderflowScansAll | LPC2146_USB/CrossWorks_GCC/loader/loader.c:158-164 | once the count has passed zero the answer is about the whole address space |
| BlankCheck.BlankCheckExact | LPC2146_USB/CrossWorks_GCC/loader/loader.c:155-180 | the answer is about the given range for all memories exactly when the range reaches the next word boundary |
| BlankCheck.BlankCheckExample | LPC2146_USB/CrossWorks_GCC/loader/loader.c:158-164 | one erased byte at address 1 is reported as not erased because of a byte outside the range |

## Left out

- The part identification switch of `loaderBegin` and `loaderEnd`: the sector map is any well-formed table, of which the four tables are instances; a part whose map differs from the selected table is not modelled.
- `setOscillatorFrequency` and `loaderSetParameter`: the clock is a constant of a run.
- `loaderReadWord`: the host's words are a sequence long enough for the poke; the transport is not modelled.
- IapCommand: the device behind the ROM entry point is the model's own, and the second result word, which only `loaderBegin` reads, is not modelled.
- Status codes that the modelled commands do not use, and programming that stops half-way: a failed command leaves memory unchanged.
- The RAM buffer as part of the address space: memory past the flash is constant, so a poke to the loader's own buffer or to peripheral registers is not modelled.
- The copy of the loader in `LPC2146_USB_DMA/CrossWorks_GCC/loader/loader.c`: it has the same text.
- The USB driver described in the repository's `README.md`: its source is not part of this model.
- SessionRefines: its discipline on erases is sufficient for a whole session; `SessionExact` gives the exact condition for agreeing after every operation. A session may also agree at its end alone, when a later write overwrites a block that an erase left stale.
- SessionAt: counts every failed command that concerns the byte, also one that loses nothing; the exact condition is `SessionExact`.
- FlushRetry: stated, like `WriteByteExact`, `EvictionDamage` and `FlushKeeps`, for overwritten flash; `StepExact` covers both kinds.
- WriteByteExact: covers one turn of the poke loop; the condition for whole ranges is `PokeExact`.
- GetSectorNumber: asks for a map of fewer than 2^32 bytes; with exactly 2^32 bytes the end of the last sector would wrap to 0.
