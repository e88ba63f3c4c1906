# esp-stub-lib: verified models of the flash, MMU, USB-OTG and log code

This project models the stateful core of esp-stub-lib, the library that flasher stubs for
Espressif chips are built from, and proves what that code promises.

| file | models |
|---|---|
| `Words.dfy` | 32-bit words; the alignment macros of `bit_utils.h` on binary digits |
| `Errors.dfy` | the return codes of `err.h` |
| `Soc.dfy` | the hardware of a mapped read: MMU table, write-back data cache, flash, PSRAM |
| `MmuPlan.dfy` | the 32-bit arithmetic of `src/mmu.c`: which requests are refused, which entries are borrowed |
| `Borrowing.dfy` | what borrowing MMU entries does to everybody else's view of memory |
| `Mmu.dfy` | `src/mmu.c` as a class with its `s_mmap_state` |
| `MmuSession.dfy` | any sequence of mapped reads: invisibility and the cache stop/start discipline |
| `ErasePlan.dfy` | the erase scheduler as a function; exactness and optimality |
| `NorContent.dfy` | the bytes of a NOR flash under erasing and (partial) programming |
| `WritePlan.dfy` | the word calls of an unaligned write; refinement of bytewise programming; chunking |
| `Nor.dfy` | the flash device as the target calls show it |
| `Flash.dfy` | `src/flash.c` as a class over the device |
| `FlashRuns.dfy` | whole runs: resumed erases, retried and chunked writes, erase-write-read |
| `UsbOtg.dfy` | `src/usb_otg.c`: transmit buffer and reset detection |
| `LogRing.dfy` | `src/log_buf.c`: the wrapping ring |
| `LogFormat.dfy` | `src/log_common.c`: the format interpreter feeding the ring |

## How the hardware is modelled

**Cache and MMU.** A chip is a record of constants and four arbitrary functions: `bus` sends a
virtual address to an MMU entry and an offset (several addresses may reach one entry), `line`
names the cache line of an address, `encode` and `decode` translate flash page numbers and raw
entries. The cache is a partial map from addresses to bytes, each clean or dirty. On a miss it
may write back and drop any cells and fill any part of the line, so every line size and
replacement policy is covered. The assumptions are in two predicates: `Chip.Valid` (DROM
addresses reach consecutive entries, a line that meets DROM stays in its page, a written entry
maps its flash page) and `Sound` (clean cells agree with memory, dirty cells belong to PSRAM, and
a dirty byte has no second virtual address). The single-threaded runtime assumptions of
`include/esp-stub-lib/cache.h` are built in: nothing runs between two calls. The cache calls
require the cache to be stopped and loads require it to run, so using them out of order does
not verify. Invalidating by address does nothing on a chip without that capability.

**Flash device.** What the device answers is arbitrary but fixed in advance, by number of the
call: how many polls each erase keeps it busy, which four-byte starts it refuses, which writes
and reads succeed, and the result of each encrypted write. The device records every erase,
write, encrypted write and read with its addressing mode. An erased region is arbitrary until a poll has seen the
device idle; `Settled()` is what the device will hold then. Starting an erase requires the
device to be idle, so no erase can start while another runs, whatever the timing. A failing
write leaves any mixture of programmed and unprogrammed bits.

## Main results

* **Mapped read** (`Mmu.MmuReader.ReadFlash`): the buffer gets the flash bytes, the table and the
  running cache are given back, and the call is invisible at every virtual address *exactly
  when* the borrowed window held no dirty data that memory lacks. `UnwrittenByteIsLost` shows a
  state in which such a byte is lost. Any sequence of reads is invisible as a whole
  (`MmuSession.ReadAll`).
* **Refusal** (`MmuPlan.RefusalExact`): for all inputs, a request is refused exactly when it is
  empty, the page size is unsupported, or it meets more pages than can be lent, with one
  exception: when the sum on line 94 of `src/mmu.c` wraps, the request is accepted with no page
  mapped (`WrappingRequestAccepted`).
* **Erase** (`Flash.FlashLib.EraseArea`, `ErasePlan.PlanIsShortest`): success happens exactly when
  every wait and start goes well, erases precisely the area, each byte once, and uses the fewest
  commands that any exact cover by aligned blocks and sectors can have. InvalidArg means a
  misaligned argument and nothing else; any other failure is a Timeout at the first trouble.
* **Resumption** (`Flash.FlashLib.StartNextErase`, `FlashRuns.KeepErasing`): commands issued so
  far followed by the plan from the cursors is a constant of every call, whatever its outcome.
  With a device that is idle in time, as many calls as the plan has commands finish it.
* **Write** (`WritePlan.WriteRefines`, `Flash.FlashLib.WriteBuff`): padded word writes refine bytewise
  NOR programming; a write succeeds exactly when all its device calls do; retries converge;
  chunk boundaries do not matter.
* **Round trip** (`FlashRuns.RoundTrip`): erase, write and read back succeed together exactly when
  the area is whole sectors and the device does what it is asked; the read then shows the data.
* **USB-OTG and log**: trace invariants over arbitrary interleavings and arbitrary runs; the reset
  request in terms of the line events alone (`UsbOtg.RequestMeans`); what each format specifier
  prints, digit by digit (`LogFormat.DigitPlaces`, `LogFormat.SpecifierMeanings`).

Where the code and its comments differ, the model follows the code: `src/mmu.c` and `mmu.h`
speak of negative error codes, while `err.h` defines positive ones.

## Model

| member | source | states |
|---|---|---|
| `BitUtils.AlignMacros` | include/esp-stub-lib/bit_utils.h:32-38 | the mask forms of ALIGN_DOWN and IS_ALIGNED are rounding down and divisibility, for every 32-bit value and power of two |
| `MmuPlan.ShiftIsLog` | src/mmu.c:28-47 | the page shift is nonzero exactly for the six supported sizes and is then the logarithm of the size |
| `MmuPlan.SupportedSizes` | src/mmu.c:28-47 | the six page sizes and their shifts, one by one |
| `MmuPlan.PageCountExact` | src/mmu.c:93-94 | the rounded quotient counts the distinct pages that the request meets |
| `MmuPlan.RefusalExact` | src/mmu.c:78-110 | for all inputs: refused if and only if empty, unsupported page size, or too many pages and no 32-bit wrap; an accepted plan has one entry per page met, or none when the sum wraps |
| `MmuPlan.WrappingRequestAccepted` | src/mmu.c:88-102 | a request for almost 4 GiB is accepted with zero pages although it meets 65536 |
| `MmuPlan.WindowShape` | src/mmu.c:80-115 | the plan borrows the last entries, its window ends with DROM, and page number and offset recombine to the flash address |
| `MmuPlan.RequestFits` | src/mmu.c:93-115 | without the wrap the request lies in the window and reaches into its last page |
| `Borrowing.WindowBus` | src/target/base/include/target/mmu.h:25-48 | window addresses reach the borrowed entries in order, other DROM addresses reach none of them |
| `Borrowing.LinesOfWindow` | src/mmu.c:49-53 | invalidating by address drops the lines of the window and no others |
| `Borrowing.DirtyStays` | src/mmu.c:130-134 | dirty data outside the window keeps its place in memory while the entries are borrowed |
| `Borrowing.StepKept` | src/mmu.c:49-60 | write-backs, evictions and invalidations outside the window lose nothing and change no other memory |
| `Borrowing.Returned` | src/mmu.c:154-172 | with the table restored and the window invalidated, every view and the soundness of the cache are determined |
| `Borrowing.InvisibleExactly` | src/mmu.c:174-188 | the call is invisible at every address if and only if memory already had the dirty data of the window |
| `Borrowing.UnwrittenByteIsLost` | src/mmu.c:49-53 | a concrete machine state in which a dirty byte of the window is lost |
| `Mmu.WindowFlash` | src/mmu.c:130-134 | through the rewritten entries the window is a consecutive stretch of flash |
| `Mmu.LoadFetches` | src/mmu.c:183 | whatever the cache evicts and prefetches, loads bring only clean copies of the right flash bytes into the window |
| `Mmu.AcceptedPlan` | src/mmu.c:83-115 | an accepted request inside the flash maps only existing pages and stays in its window |
| `Mmu.ReadPhases` | src/mmu.c:123-171 | the hardware calls of a read, phase by phase: stop, save, rewrite, invalidate, start, one load per byte in order, stop, restore the saved values, invalidate, start |
| `Mmu.InvalidationByCapability` | src/mmu.c:49-60 | a chip that invalidates by address never gets a whole-cache call, and one that cannot never gets an invalidation by address |
| `Mmu.MmuReader.InvalidateWindow` | src/mmu.c:49-60 | with the capability the one call is an invalidation of the window by address, without it a write-back and an invalidation of everything; either way the window is empty and no dirty data outside it is lost |
| `Mmu.MmuReader.SaveEntries` | src/mmu.c:125-128 | the raw entries are saved in order |
| `Mmu.MmuReader.WriteEntries` | src/mmu.c:130-134 | consecutive entries map consecutive flash pages; no other entry changes |
| `Mmu.MmuReader.PutBack` | src/mmu.c:162-165 | the saved raw values are back in their entries; no other entry changes |
| `Mmu.MmuReader.Map` | src/mmu.c:76-149 | refusal changes nothing; success establishes the mapping with the exact order of hardware calls and no stale cell in the window |
| `Mmu.MmuReader.Unmap` | src/mmu.c:154-172 | the table is as before the call, the window is empty, the cache runs, no mapping is active |
| `Mmu.MmuReader.Copy` | src/mmu.c:183 | the buffer gets the flash bytes, the rest of it is unchanged, the mapping stays in force |
| `Mmu.MmuReader.ReadFlash` | src/mmu.c:174-188 | refused: nothing changes; accepted: right bytes, table restored, cache sound and running, every later view determined, invisible if and only if the window was clean, exact trace of hardware calls (`ReadPhases` spells it out) |
| `MmuSession.ReadKeepsDiscipline` | src/mmu.c:123-171 | the trace of a read touches entries only while the cache is stopped, never nests stops, loads only while it runs, and ends with nothing borrowed |
| `MmuSession.DisciplineMeans` | src/mmu.c:123-171 | what the discipline says of each call of a log: the cache is running at loads and stops, and stopped at every other call |
| `MmuSession.LentMeans` | src/mmu.c:130-165 | an entry is lent exactly when it was rewritten and not restored since |
| `MmuSession.ReadAll` | include/esp-stub-lib/mmu.h:15-37 | in any sequence of accepted and refused reads every accepted one delivers its flash bytes; the whole is invisible and keeps the discipline |
| `ErasePlan.FirstCommand` | src/flash.c:249-288 | a block at a 64 KiB boundary with 64 KiB left, otherwise a 4 KiB sector; what remains afterwards |
| `ErasePlan.PlanTiles` | src/flash.c:249-288 | from an aligned address the commands erase each byte up to the rounded end exactly once and nothing else |
| `ErasePlan.OverEraseIsLast` | src/flash.c:286-288 | only the last command of a plan reaches past the requested end |
| `ErasePlan.RaggedBound` | src/flash.c:286-288 | the over-erased stretch is shorter than a sector, and empty for whole sectors |
| `ErasePlan.PrefixTiles` | src/flash.c:286-290 | after k commands exactly the stretch up to the cursor is covered and the plan from the cursor is what remains |
| `ErasePlan.NoShorterCover` | src/flash.c:249-262 | no exact cover by aligned blocks and sectors, in any order and with any overlap, has fewer commands than the greedy plan |
| `ErasePlan.PlanIsShortest` | src/flash.c:249-262 | the greedy plan is an exact cover and a shortest one |
| `ErasePlan.PlanLengthExact` | src/flash.c:249-262 | the number of commands in closed form |
| `ErasePlan.PlanIsShort` | src/flash.c:300-306 | at most size/65536 + 30 commands |
| `NorContent.TilesFill` | src/flash.c:300-306 | commands that tile a region set exactly that region to 0xFF |
| `NorContent.RetryConverges` | src/flash.c:182-210 | programming after a partial attempt gives what one complete attempt gives |
| `NorContent.RetriesConverge` | src/flash.c:182-210 | the same after any number of failed attempts |
| `WritePlan.PadNeutral` | src/flash.c:44-51 | programming a word padded with 0xFF programs only the bytes of the partial word |
| `WritePlan.WriteRefines` | src/flash.c:158-211 | head, body and tail together program exactly the bytes of the buffer, for every address and length |
| `WritePlan.WriteTiles` | src/flash.c:179-208 | every word that meets the range is written once, in ascending order, and no other |
| `WritePlan.WriteShape` | src/flash.c:174-210 | one call for an aligned buffer; otherwise one for a cut first word, one for the whole words and one for a cut last word; each byte of each call is the buffer's byte for that address or 0xFF |
| `WritePlan.SomeOpsBetween` | src/flash.c:182-204 | after any prefix of the calls the flash lies bitwise between the intended and the old contents |
| `WritePlan.ChunkingIndependent` | src/flash.c:178-208 | a buffer written in consecutive chunks, cut anywhere, leaves the same flash as one call |
| `Flash.SizesOfIds` | src/target/common/src/flash.c:62-84 | the size of each known flash id, one by one, and 0 for any other |
| `Flash.FlashLib.InitEx` | src/flash.c:83-119 | the four-byte mode is chosen when the detected flash needs it; the return code; a device no larger than detected is reached entirely |
| `Flash.FlashLib.Deinit` | src/flash.c:121-128 | both four-byte modes are off afterwards |
| `Flash.FlashLib.WaitReady` | src/flash.c:218-229 | Ok if and only if one of the first max(1, timeout) polls sees the device idle, otherwise Timeout; the exact number of polls, one for a timeout of 0 |
| `Flash.FlashLib.Issue` | src/flash.c:264-284 | in both addressing modes the same command is started, or a refused start issues nothing |
| `Flash.FlashLib.StartNextErase` | src/flash.c:231-291 | the exact outcome, the code of each failure included; a failure moves no cursor; issued commands followed by the remaining plan never change |
| `Flash.FlashLib.EraseArea` | src/flash.c:293-309 | InvalidArg if and only if misaligned; otherwise Ok if and only if all waits and starts go well, and then exactly the area is erased and the device idle; otherwise Timeout, with the prefix of the plan up to the first trouble issued; the same commands in both addressing modes; at most (n+1)*1000000 polls |
| `Flash.FlashLib.WritePlain` | src/flash.c:174-210 | the planned calls in order, in the right addressing mode; Ok if and only if they all succeed, and then exactly the buffer is programmed and the device idle; a failing call is the last one, with every byte between old and intended |
| `Flash.FlashLib.WriteBuff` | src/flash.c:158-211 | the empty write; an encrypted write is refused without a call unless it is whole 16-byte blocks, and is otherwise one call with the same address and bytes, whose result is returned; an unencrypted write is Ok if and only if every planned call succeeds, and then clears exactly the bits that the buffer clears |
| `Flash.FlashLib.ReadBuff` | src/flash.c:142-156 | unaligned: refused without a call; aligned: one call in the right addressing mode, Ok if and only if it succeeds, and then the settled flash bytes are delivered |
| `FlashRuns.KeepErasing` | src/flash.c:231-291 | any interleaving of successes, timeouts and refusals covers exactly the stretch up to the cursor; when nothing is left the rounded region is erased; a device that is idle in time and refuses nothing is finished after as many calls as the plan has commands |
| `FlashRuns.RetryWrite` | src/flash.c:158-211 | a success after failed attempts leaves the flash of one good write; without one every byte is between old and intended; a device that stops failing at some call is written within as many attempts |
| `FlashRuns.WritePieces` | src/flash.c:158-211 | consecutive writes of pieces equal one write of the whole, and succeed on a device whose writes succeed |
| `FlashRuns.ErasedThenWritten` | src/flash.c:142-309 | an erased area after a write holds the written bytes and 0xFF elsewhere |
| `FlashRuns.RoundTrip` | src/flash.c:142-309 | erase, write, read: Ok if and only if the area is whole sectors, the erases are done in time, no start is refused and every write and the read succeed; then the buffer shows the written bytes and 0xFF around them, in both modes |
| `UsbOtg.RequestedStep` | src/usb_otg.c:81-88 | how each event changes the request: a clear withdraws it, a 0 read in the interrupt after a 1 raises it, nothing else touches it |
| `UsbOtg.RequestMeans` | src/usb_otg.c:73-103 | the request in terms of the events alone: a reading of 1, at the attach or in the interrupt, whose next reading is a 0 in the interrupt, and no clear after that |
| `UsbOtg.LevelMeans` | src/usb_otg.c:81-99 | the remembered level is that of the last reading, at the attach or in the interrupt |
| `UsbOtg.CdcAcm.AttachSample` | src/usb_otg.c:98-99 | the level at the attach is remembered as the previous one |
| `UsbOtg.CdcAcm.AttachClear` | src/usb_otg.c:91-96 | buffer and request are cleared, the remembered level is not; invariant kept |
| `UsbOtg.CdcAcm.Callback` | src/usb_otg.c:73-89 | the receive FIFO is drained in order; a line change remembers the level and raises the request if and only if it fell from 1 to 0; nothing else touches either |
| `UsbOtg.CdcAcm.TxOneChar` | src/usb_otg.c:105-112 | sent plus buffered bytes are the given bytes; a full buffer of 64 goes out at once |
| `UsbOtg.CdcAcm.TxFlush` | src/usb_otg.c:114-118 | everything given has been sent |
| `UsbOtg.CdcAcm.HandleReset` | src/usb_otg.c:136-138 | the request is cleared and the trace invariant kept |
| `UsbOtg.CdcAcm.IsResetRequested` | src/usb_otg.c:131-134 | the flag, which is true exactly if the line fell from 1 to 0 after the last clear |
| `UsbOtg.Run` | src/usb_otg.c:73-145 | for every interleaving: sent and buffered bytes are those given since the last attach, in order, and the request flag is exactly `Requested` of the line events, which `RequestMeans` spells out |
| `LogRing.Ring.WriteChar` | src/log_buf.c:23-27 | reading the ring from `count` gives the last N characters written, for every ring size |
| `LogRing.RecentText` | src/log_buf.c:23-27 | the tail of that reading is the last min(N, total) characters of the text |
| `LogRing.LatestAt` | src/log_buf.c:23-27 | each of the last N characters lies at its number modulo N |
| `LogFormat.DigitsRoundTrip` | src/log_common.c:77-84 | reading back printed digits gives the number, in decimal and in both hexadecimal cases |
| `LogFormat.DigitChars` | src/log_common.c:77-84 | the sixteen digits in lower and upper case |
| `LogFormat.DigitPlaces` | src/log_common.c:77-84 | the character at each place is that of the place's value, and no place is missing or a leading zero |
| `LogFormat.SignedRoundTrip` | src/log_common.c:68-76 | reading back %d gives the signed argument |
| `LogFormat.RenderConcat` | src/log_common.c:54-96 | formats compose: a concatenation fits if and only if the second part fits the arguments that the first left over, and then prints both texts |
| `LogFormat.SpecifierMeanings` | src/log_common.c:61-94 | the text of %u, %x, %X, %d, %c, %s and a null %s; an unsupported specifier, %% included, is echoed and takes no argument |
| `LogFormat.RenderPlain` | src/log_common.c:54-58 | text without % fits any arguments and comes out as it is |
| `LogFormat.RenderVerbatim` | src/log_common.c:88-93 | text with only unsupported specifiers is echoed and consumes no argument |
| `LogFormat.Logger.PrintArg` | src/log_common.c:61-87 | each supported specifier shows one argument |
| `LogFormat.Logger.Printf` | src/log_common.c:47-98 | the interpreter loop sends exactly the rendering of the format to the ring |
| `LogFormat.LogAll` | src/log_common.c:47-98 | any run of log calls leaves the last min(N, total) characters of the rendered text in the ring |

## Left out

- Mmu.MmuReader.ReadFlash: assumes that an accepted request lies in the flash and that the sum on line 94 does not wrap, because a wrapped request copies from addresses that were never mapped; `RefusalExact` says exactly when that happens.
- MmuSession.ReadAll: asks for no dirty data anywhere in DROM instead of in each request's window, so that one condition serves all requests.
- LogFormat.Logger.Printf: a format that ends in a lone `%` reads past its terminator and `%d` of INT_MIN overflows; both are excluded by `Fits` because C gives them no meaning.
- Flash.FlashLib.EraseArea: the area must lie in the device; what a chip does with addresses beyond its end is not modelled.
- Flash.FlashLib.StartNextErase: likewise, and the two cursors must be distinct variables.
- Flash.FlashLib.InitEx: attaching the pins, reading the id and the ROM configuration are parameters.
- UsbOtg.CdcAcm.Callback: bytes that arrive while the FIFO is being drained are not modelled.
- UsbOtg.CdcAcm.AttachClear: routing and enabling the interrupt is left to the target.
- Instruction fetches through aliases of the borrowed window while a mapping is active: the runtime assumptions exclude them.
- The page-sized chunks of `src/target/common/src/flash_4byte.c` and the ROM write and read loops: contracts of the device calls; their own polls are not counted.
- AES-XTS: an encrypted write call is recorded with its address and plain bytes; of the cells only that those outside its range stay is known.
- `stub_lib_flash_erase_chip`, `rom_erase_area`, `update_config` and `get_config`: forwards to target or ROM code.
- Log levels and the log calls inside the flash and MMU code: no effect on the modelled state.
- `ets_printf`: only the formats that are passed to it, as text.
- UART, USB-Serial-JTAG, SDIO, slave SPI, hashing, clock, security, miniz: register access, argument checks and forwards that add only easy members.
