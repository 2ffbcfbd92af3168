# AVR ISP flash writer, modelled in Dafny

This project models the flash-programming core of the AVR ISP module of the
Octowire framework (`owfmodules/avrisp/flash_write.py`). That core programs an
ATmega's flash over SPI with the serial-programming (ISP) instruction set:

- `erase` erases the chip;
- `write` cuts a firmware chunk into pages, skips blank pages and programs each
  remaining page with `program_page`;
- `program_page` loads the page buffer, reloads the extended-address register
  when the page's bank differs from the cached `self.extended_addr`, commits
  the page, then waits for the write with one of two busy-wait strategies
  (`_wait_poll_rdybsy`, `_wait_poll_flash`);
- `verify` reads the flash back through a bank cache of its own, starting
  empty, and compares it with the chunk. Its bank reloads do not update
  `self.extended_addr`. After a verification that crossed into another bank,
  the target's register and `self.extended_addr` can disagree, so the next
  `program_page` of a later HEX part may skip a reload it would need
  (`SessionProps.WriteCacheIgnoresVerify`, `VerifyProps.ReadWordsFrames`);
- `process` erases, picks the busy-wait strategy from the device record and
  writes each HEX part, falling back to the raw file.

The SPI port and the reset line are an abstract device (`Port.SpiPort`). It
keeps a log of events: frames sent, reset driven low or high, pauses in
milliseconds. The target's answers come from a fixed, finite stream of response
bytes read through a cursor. With that device every routine is a deterministic
function of its arguments, the extended-address cache and the responses.

The model is organised as follows:

- `isp.dfy` holds the instruction frames (`Isp.Encode`), their decoding and the
  big-endian 16-bit address packing.
- `page.dfy` holds the page buffers of `write` (`Page.PageImage`) and its page
  plan (`Page.Plan`): which pages are programmed, and at which address.
- `flash_spec.dfy` holds the reference semantics. For each routine there is a
  function from a wire state (`Port.Wire`: log, cursor, how the routine ended)
  to the wire state it leaves, together with the extended-address cache.
- `flash_write.dfy` holds the routines themselves. `FlashWrite.FlashWriter` is a
  class with the fields `extendedAddr` (`self.extended_addr`) and `busyWait`
  (`self.busy_wait`). Its methods have the loops of the source and are proved to
  leave exactly the state the reference function gives.
- `flash_props.dfy`, `verify_props.dfy` and `session_props.dfy` hold what the
  routines promise, proved about the reference functions: frame order, the
  cache, the polling loops, the read-back and the comparison, and the reset line
  over a session.

Python's exceptions become a `Port.Status`:

- `ValueError` comes from `bytes([x])` with `x > 255`, and from `range` with a
  step of 0 when the page size is 0;
- `IndexError` comes from the comparison indexing past the dump;
- `Stalled` stands for a busy-wait or a read whose answer never comes, because
  the response stream ran out.

An exception aborts the routine at the point where it is raised, and the
model's log shows exactly the events sent before that point. `process` catches
`ValueError` inside its HEX branch and then writes the raw file. The model does
the same.

In these places the model follows the code, where a reader might expect
otherwise:

- `erase` sleeps `erase_delay // 1000` whole seconds, not `erase_delay`
  milliseconds. `FlashSpec.EraseDelayMs` records this.
- `erase` drives reset low twice.
- A blank page is skipped by `continue`, which also skips the address
  increment. Each later page therefore lands one page lower for each blank
  page before it: the j-th programmed page goes to `start + ps * j`, whatever
  its offset in the chunk (`Page.PlanAddresses`, `Page.BlankFirstPageShiftsNext`).
- `write` verifies each chunk right after programming it (once per HEX part),
  not once at the end of the session.
- The code does not check the image against the flash size, so the model does
  not either.
- Reset is released only when a `write` completes, including after a
  verification mismatch. After an exception it stays low
  (`SessionProps.WriteShape`).

An odd first non-blank index `idx` in `_wait_poll_flash` reads the high byte
of word `page_addr + idx // 2 - 1`, which is not byte `idx` of the page
(`FlashProps.ProbeTarget`, `FlashProps.ProbeMissesOddByte`):

- For `idx >= 3` it is byte `idx - 2` of the page, which lies before the first
  non-blank byte and so is erased (`FlashProps.ProbeReadsErasedByte`). On a
  real target that probe never sees the expected value.
- For `idx == 1` it is the high byte of word `page_addr - 1`, the last byte
  of the previous page, outside the page being written. At `page_addr == 0`
  the address wraps to word 0xFFFF. Whether the probe ends depends on what
  that byte holds.

The model keeps this behaviour as written. A probe that never sees the
expected value ends `Stalled` once the responses run out.

## Model

| member | source | states |
|---|---|---|
| Isp.Be16Inverse | owfmodules/avrisp/flash_write.py:104 | `struct.pack(">H", a & 0xFFFF)` gives two bytes that read back, high byte first, as `a` modulo 2^16 |
| Isp.DecodeEncode | owfmodules/avrisp/flash_write.py:154-176 | every frame the writer builds, with its word address in 16 bits, decodes back to the command it was built from |
| Isp.EncodeDecode | owfmodules/avrisp/flash_write.py:87-108 | a frame that decodes is exactly the encoding of the command it decodes to, and that command's address is in range |
| Isp.EncodeInjective | owfmodules/avrisp/flash_write.py:154-176 | two in-range commands share a frame only if they are the same command, so the frames of the log can be told apart |
| Page.FirstNonBlank | owfmodules/avrisp/flash_write.py:133 | `None` exactly for an all-0xFF buffer; otherwise the index of a non-0xFF byte with only 0xFF bytes before it |
| Page.PageImageBytes | owfmodules/avrisp/flash_write.py:204-209 | byte `i` of the page buffer is chunk byte `page + i`, or 0xFF past the end of the chunk |
| Page.PlanPages | owfmodules/avrisp/flash_write.py:201-213 | every `program_page` call of `write` gets the full, non-blank page image of an offset inside the chunk |
| Page.PlanAddresses | owfmodules/avrisp/flash_write.py:210-214 | the j-th `program_page` call gets address `start + ps * j`, where j counts programmed pages only |
| Page.PlanBoundaries | owfmodules/avrisp/flash_write.py:201 | every programmed page sits on an offset that the `range(0, len(chunk), ps)` loop visits |
| Page.PlanAscending | owfmodules/avrisp/flash_write.py:201 | pages are programmed in strictly ascending order of their offsets |
| Page.PlanCovers | owfmodules/avrisp/flash_write.py:201-213 | every non-blank page at a visited offset below the chunk's length is programmed |
| Page.OnBoundaryIff | owfmodules/avrisp/flash_write.py:201 | the offsets the loop visits from `page` on are `page + k * ps` for k = 0, 1, 2, ... and no others |
| Page.PlanProgramsNonBlankPages | owfmodules/avrisp/flash_write.py:201-213 | an offset is programmed if and only if it is a multiple of `ps` below the chunk's length and its page image is not blank |
| Page.BlankFirstPageShiftsNext | owfmodules/avrisp/flash_write.py:210-214 | when the first page is blank, the second page is programmed at the chunk's start address |
| FlashSpec.EraseDelayMs | owfmodules/avrisp/flash_write.py:81 | the erase pause is the device's delay cut down to whole seconds: a multiple of 1000 ms, at most the delay and less than 1000 ms short of it |
| FlashProps.RdyBsyWaitPolls | owfmodules/avrisp/flash_write.py:124-126 | `_wait_poll_rdybsy` sends only `F0 00 00 00` frames, at least one, and takes four response bytes per frame. It ends `Ok` exactly on the first answer whose last byte has bit 0 clear, after every earlier answer said busy, and is `Stalled` only when the answers run out |
| FlashProps.RdyBsyWaitLog | owfmodules/avrisp/flash_write.py:125 | the frames of the ready/busy poll are one or more `F0 00 00 00` |
| FlashProps.RdyBsyWaitEnd | owfmodules/avrisp/flash_write.py:125 | the ready/busy poll ends `Ok` on a ready answer, four bytes per frame, or `Stalled` when fewer than four bytes remain |
| FlashProps.RdyBsyWaitBusy | owfmodules/avrisp/flash_write.py:125 | every answer before the last one had bit 0 of its last byte set |
| FlashProps.PollReadPolls | owfmodules/avrisp/flash_write.py:140-150 | a polling loop of `_wait_poll_flash` repeats only its read frame, one response byte each, and stops exactly at the first byte equal to the expected one |
| FlashProps.FlashPollWaitFrames | owfmodules/avrisp/flash_write.py:128-152 | `_wait_poll_flash` sends nothing for a blank page. Otherwise it loads the page's bank (or raises ValueError when the bank does not fit a byte). It then probes until the first non-0xFF byte is read back, and finally reloads the cached bank |
| FlashProps.FlashPollFrames | owfmodules/avrisp/flash_write.py:128-152 | `_wait_poll_flash` only appends extended-address loads and read frames |
| FlashProps.ProbeTarget | owfmodules/avrisp/flash_write.py:138-150 | the probe reads byte `idx` of the page for an even `idx`, and byte `idx - 2` for an odd one |
| FlashProps.ProbeMissesOddByte | owfmodules/avrisp/flash_write.py:145-150 | for an odd `idx` the probe frame is not the frame that reads byte `idx` |
| FlashProps.ProbeReadsErasedByte | owfmodules/avrisp/flash_write.py:133-150 | for an odd `idx >= 3`, the byte the probe reads (`idx - 2`) is erased, while the expected byte is not |
| FlashProps.BusyWaitFrames | owfmodules/avrisp/flash_write.py:179 | the busy-wait keeps the log so far and adds only frames of its own kind |
| FlashProps.LoadFramesOrder | owfmodules/avrisp/flash_write.py:163-168 | page-load frame k carries buffer byte k: `40 00 k/2 b` for an even k, `48 00 k/2 b` for an odd one, in ascending order |
| FlashProps.ProgramPageFrames | owfmodules/avrisp/flash_write.py:154-179 | `program_page` sends the page-load frames in order, then the extended-address frame exactly when the bank differs from the cache, then exactly one commit `4C hi lo 00` for `page_addr // 2`, then only busy-wait frames. The cache then holds the page's bank |
| FlashProps.ProgramPageFails | owfmodules/avrisp/flash_write.py:163-173 | a page of more than 256 words raises ValueError after 256 loaded words, with the cache untouched. A bank that does not fit a byte raises after the page load, with the cache already set. Neither commits |
| FlashProps.ProgramPageFramesOnly | owfmodules/avrisp/flash_write.py:154-179 | `program_page` only sends frames: it never touches reset and never pauses |
| FlashProps.PlanRunFramesOnly | owfmodules/avrisp/flash_write.py:201-214 | the page loop of `write` only sends frames |
| FlashProps.PlanEmptyIffBlank | owfmodules/avrisp/flash_write.py:210-212 | `write` programs no page exactly when the rest of the chunk is all 0xFF |
| VerifyProps.ReadWordOutcome | owfmodules/avrisp/flash_write.py:98-108 | a read turn succeeds exactly when two answers remain and the word's bank fits a byte, and then it takes those two bytes as (low, high) |
| VerifyProps.ReadWordFramesOnly | owfmodules/avrisp/flash_write.py:99-108 | a read turn only appends frames: it never touches reset and never pauses |
| VerifyProps.ReadWordLog | owfmodules/avrisp/flash_write.py:99-108 | the exact frames of one read turn: ValueError before any frame exactly when the bank is not the cached one and does not fit a byte; otherwise `4D 00 bank 00` exactly when the bank is not the cached one, then `20 hi lo`, then `28 hi lo` unless the answers ran out at the low read |
| VerifyProps.ReadWordsFrames | owfmodules/avrisp/flash_write.py:95-108 | when the read loop of `verify` ends `Ok`, word k (at `start + k`) is preceded by `4D 00 bank 00` exactly when k is 0 and its bank is not the cached one, or k > 0 and its bank differs from word k-1's. With the `4D` frames removed, the log is the low-byte and high-byte reads of `start`, `start + 1`, ... in ascending order |
| VerifyProps.ReadWordsFramesOnly | owfmodules/avrisp/flash_write.py:95-108 | the read loop of `verify` only sends frames and never raises IndexError |
| VerifyProps.ReadWordsOutcome | owfmodules/avrisp/flash_write.py:95-108 | the read loop ends `Ok` exactly when two answers remain per word and every bank fits a byte; the dump is then the next `2 * count` response bytes |
| VerifyProps.CompareIsFirstDivergence | owfmodules/avrisp/flash_write.py:112-122 | the comparison reports a match exactly when every chunk byte agrees with the dump, else the first index where they differ, or where the dump ran out |
| VerifyProps.VerifyOutcome | owfmodules/avrisp/flash_write.py:87-122 | `verify` sends frames only. It reaches the comparison exactly when the read loop completes, and the comparison is then the first divergence from the next `2 * (len // 2)` response bytes. IndexError occurs exactly when the dump runs out, for an odd chunk at its last byte; an odd chunk never matches |
| VerifyProps.VerifyLoadsBankFirst | owfmodules/avrisp/flash_write.py:92-102 | `verify`'s own cache starts empty, so its first frame loads the bank of the start address whatever `self.extended_addr` holds |
| SessionProps.VerifyEnds | owfmodules/avrisp/flash_write.py:87-122 | `verify` ends `Ok` or IndexError exactly when it reached the comparison, and IndexError exactly when the dump ran out |
| SessionProps.WriteShape | owfmodules/avrisp/flash_write.py:181-231 | `write` opens with reset low, `AC 53 00 00` and the 500 ms pause, then only sends frames. A completed write ends with reset high, even after a mismatch; a failed one leaves reset low. Only IndexError fails verification, and page size 0 raises ValueError before any page |
| SessionProps.WriteBlankChunk | owfmodules/avrisp/flash_write.py:201-231 | an all-0xFF chunk without verification is the prologue then reset high, and takes nothing from the target |
| SessionProps.WriteEndsReleased | owfmodules/avrisp/flash_write.py:189-231 | a `write` continues the log it starts from and, when it completes, its last event releases reset |
| SessionProps.WritePartsShape | owfmodules/avrisp/flash_write.py:263-275 | the HEX branch continues the log and, when it completes after writing, ends with reset released |
| SessionProps.ProcessShape | owfmodules/avrisp/flash_write.py:233-280 | with no device `process` does nothing. Otherwise it drives reset high, erases, and only then writes; a session that completes ends with reset released |
| FlashWrite.FillPage | owfmodules/avrisp/flash_write.py:204-209 | the reused page buffer holds exactly the page image afterwards: no byte of the previous page survives |
| FlashWrite.CompareDump | owfmodules/avrisp/flash_write.py:112-122 | the comparison loop returns the verdict of the reference comparison (the first divergence) |
| FlashWrite.FlashWriter.constructor | owfmodules/avrisp/flash_write.py:51-52 | a new writer starts with no cached bank (`self.extended_addr = None`) and no busy-wait chosen (`self.busy_wait = None`); with no cached bank, its first `program_page` sends the `4D` reload (`FlashProps.ProgramPageFrames`) |
| FlashWrite.FlashWriter.Erase | owfmodules/avrisp/flash_write.py:64-85 | reset low twice, `AC 53 00 00`, 500 ms, `AC 80 00 00`, the erase pause, reset high; no answer is taken |
| FlashWrite.FlashWriter.WaitPollRdyBsy | owfmodules/avrisp/flash_write.py:124-126 | the polling loop leaves exactly the state of the reference ready/busy poll |
| FlashWrite.FlashWriter.PollUntil | owfmodules/avrisp/flash_write.py:140-150 | the `while True` read loop leaves exactly the state of the reference polling loop |
| FlashWrite.FlashWriter.WaitPollFlash | owfmodules/avrisp/flash_write.py:128-152 | `_wait_poll_flash` leaves exactly the reference state, and does not change `self.extended_addr` |
| FlashWrite.FlashWriter.ProgramPage | owfmodules/avrisp/flash_write.py:154-179 | `program_page` leaves exactly the reference wire state and cache |
| FlashWrite.FlashWriter.ReadBackWord | owfmodules/avrisp/flash_write.py:98-108 | one turn of the read loop leaves the state of `FlashSpec.ReadWord` and returns its (low, high) bytes; those frames are stated by `VerifyProps.ReadWordLog`, the bytes by `VerifyProps.ReadWordOutcome` |
| FlashWrite.FlashWriter.ReadBack | owfmodules/avrisp/flash_write.py:92-108 | the read loop leaves the state of `FlashSpec.ReadWords` from `start` with an empty cache, and on success returns its dump; `self.extended_addr` is not touched. Its frames (ascending reads, bank reloads) are stated by `VerifyProps.ReadWordsFrames`, its dump by `VerifyProps.ReadWordsOutcome` |
| SessionProps.WriteCacheIgnoresVerify | owfmodules/avrisp/flash_write.py:92-102 | `write` leaves `self.extended_addr` the same with or without `verify`, whatever banks `verify` loads |
| FlashWrite.FlashWriter.Verify | owfmodules/avrisp/flash_write.py:87-122 | `verify` leaves the reference state and returns True exactly when the reference verdict is a match |
| FlashWrite.FlashWriter.Write | owfmodules/avrisp/flash_write.py:181-231 | `write` leaves exactly the reference wire state and cache |
| FlashWrite.FlashWriter.WriteHex | owfmodules/avrisp/flash_write.py:263-275 | the loop over the HEX parts leaves exactly the reference state of the HEX branch |
| FlashWrite.FlashWriter.Process | owfmodules/avrisp/flash_write.py:233-280 | `process` leaves the reference state. `self.busy_wait` becomes the ready/busy poll exactly when `busy_poll` is "0x00", and stays as it was without a device |

## Left out

- SPI and GPIO set-up (`configure`, `direction`), the options dictionaries,
  logging, the `tqdm` progress bars, `run` and the plugin lifecycle: none of
  them changes what goes on the wire.
- `get_device_id` and the `DeviceID` module it wraps are not part of this
  model. The device record is an input, already answered.
- `Device.flashPagesize` is taken already parsed. `int(device["flash_pagesize"], 16)`
  and its own ValueError on a malformed string are not modelled.
- `Device.eraseDelay` is taken already parsed and non-negative. The ValueError
  of `int(device["erase_delay"])` on a malformed string, and the ValueError of
  `time.sleep` on a negative delay, are not modelled.
- Opening the file and the HEX decoding by the `hexformat` library are foreign
  code with I/O. The firmware is given as its decoded parts, or as "not HEX",
  together with its raw bytes. A decoding error and a `ValueError` raised by a
  HEX `write` both lead to the raw fallback.
- `UnicodeDecodeError` and `hexformat.base.DecodeError` raised during a HEX
  `write` cannot occur in the model, because decoding errors are folded into
  "not HEX".
- Real time: `time.sleep` is logged as a pause of the given length in
  milliseconds. No clock is modelled.
- An unbounded busy-wait or read on a silent target becomes `Stalled` once the
  finite response stream runs out, instead of spinning forever.
- Errors of the transport itself are not modelled; every `transmit` succeeds.
- FlashWrite.FlashWriter.WaitPollFlash: requires `self.extended_addr` to hold a
  bank. In the source only `program_page` calls it, after setting the cache, so
  the TypeError of `bytes([None])` cannot happen there.
- FlashSpec.SelectBusyWait: has no contract of its own. The strategy choice is
  stated by FlashWrite.FlashWriter.Process.
