# Dristy: flash stub, wire protocols and build checks

A Dafny model of the parts of Dristy that move bytes into and out of a K210 board, with proofs of what
they promise:

- **The second-stage flash stub and its hosts.** The NOR chip (`NorFlash`), the SLIP framing (`Slip`), the
  CRC-32 (`Crc32`), the bitmap of sectors believed erased (`Bitmap`), the progress tracker (`Ui`) and the
  request state machine (`IspStub`) are imperative, as in C. `IspSpec` is the protocol as a transition
  relation, in which the marked sectors decide only whether a write issues an erase command; `IspStub`
  refines it, and `IspRuns` proves what follows over whole runs, the erase commands issued included. `Link`, `HlDump`, `FlashLayout` and `HkFlash` add the hosts, up to a whole dump
  and a whole flashing run.
- **The HMPY v1 codec and its stream.** `Cobs`, `Hmpy`, `StreamDecoder` and the reassembly of output events
  in `EventTrace`.
- **The resynchronising 0x55 0xAA frames.** The scanner `DlpFrames` and the session buffer
  `SerialTransport`.
- **Build-time algorithms.** Include cycles (`CheckArch`), the layer policy through includes
  (`LayerPolicy`), and board pin routes (`BoardRoutes`).

The chip is an array. Programming can only clear bits and wraps in its 256-byte page; the range of a running
erase holds arbitrary bytes; how often the chip answers busy is an arbitrary number chosen anew for every
operation, and how many idle turns the stub takes before a byte arrives is arbitrary too. `Bytes` holds what
the modules share. Bytes and 32-bit fields are bounded integers, and CRC words are 32 booleans, least
significant first.

Four properties that one might expect do not hold of the code, and the model says exactly when they do:

- `dump` with a negative block size returns normally and writes nothing (`HlDump.DumpIsComplete`,
  `HlDump.NegativeBlockDumpsNothing`).
- When the size of the firmware partition is not a multiple of 4096, which takes an erase unit that is not
  one either, images that pass every host check can be padded past the partition
  (`HkFlash.PaddingStaysInside`, `HkFlash.WholeSectors`, `HkFlash.SmallEraseUnitSpills`).
- `erase_flash` takes a busy answer for an accepted request, so when an earlier erase is still running it
  can return normally without having erased its range. A normal return is to be trusted exactly when no
  erase is running at the call, or the running one leaves the range blank anyway
  (`HkFlash.ReturnMeansBlank`, `HkFlash.SecondEraseIsDropped`).
- The stub's SLIP decoder also reports a frame whose last byte before the closing END is an escape byte,
  which RFC 1055 does not produce; the escape byte is dropped. Exactly the reported frames that do not end in
  an escape byte are escaped data (`Slip.ReportedFaithfully`, `Slip.OpenEscapeIsReported`).

`dafny verify dfyconfig.toml` checks the project.

## Model

| member | source | states |
|---|---|---|
| `Crc32.IspCrc32` | dristy/firmware/hl-isp-dumper/src/main.c:70-81 | the table-free loop over a buffer computes the complement of the register that starts at all ones and takes in the bytes one after the other (section 8 of RFC 1952) |
| `Crc32.ChecksumIsRemainder` | dristy/firmware/hl-isp-dumper/src/main.c:70-81 | the checksum is the complement of the remainder that long division by x^32+x^26+x^23+x^22+x^16+x^12+x^11+x^10+x^8+x^7+x^5+x^4+x^2+x+1 leaves of the message polynomial, lowest bit of each byte first, times x^32, with its 32 highest coefficients complemented; generator and division are given without the register |
| `Crc32.SealBits` | dristy/firmware/hl-isp-dumper/src/main.c:37-42 | the four bytes of a checksum field hold its 32 bits in order, each byte from its lowest bit on |
| `Crc32.ShiftLinear` | dristy/firmware/hl-isp-dumper/src/main.c:77-78 | shifting the register is linear over exclusive-or, for any number of shifts |
| `Crc32.ShiftUndone` | dristy/firmware/hl-isp-dumper/src/main.c:77-78 | up to 32 shifts whose result has that many clear top bits can be undone exactly: nothing was fed back |
| `Crc32.RegisterDetects` | dristy/firmware/hl-isp-dumper/src/main.c:70-81 | two messages that differ only inside a window of four consecutive bytes leave the register in the same state only if they are equal, wherever the window lies and however long the messages are |
| `Crc32.BurstDetected` | dristy/firmware/hl-isp-dumper/src/main.c:83-91 | the checksum field of two messages that differ only inside such a window is the same if and only if the messages are the same |
| `Crc32.SealedResidue` | dristy/firmware/k210/tools/hmpy_protocol.py:275-297 | all messages followed by their own checksum leave the same register state |
| `Crc32.SealedBurstDetected` | dristy/firmware/k210/tools/hmpy_protocol.py:275-297 | a message followed by its checksum, damaged inside four consecutive bytes (also across the seam between message and checksum), still matches its checksum if and only if nothing changed |
| `NorFlash.NorChip.Erase` | dristy/firmware/hl-isp-dumper/src/flash.c:290-326 | an erase command leaves its own range undefined and all other bytes alone until the chip is not busy; it is recorded as issued |
| `NorFlash.NorChip.IsBusy` | dristy/firmware/hl-isp-dumper/src/flash.c:279-287 | one status poll: either busy, one poll nearer to the end and nothing else changed, or ready, with an erased range now all 0xFF |
| `NorFlash.NorChip.WaitReady` | dristy/firmware/hl-isp-dumper/src/main.c:308 | polling until ready ends, and leaves the range of a running erase blank and every other byte alone |
| `NorFlash.NorChip.Program` | dristy/firmware/hl-isp-dumper/src/flash.c:371-400 | the whole effect of a page program command: the bytes programmed in turn at addresses that wrap inside the 256-byte page |
| `NorFlash.PageWriteWraps` | dristy/firmware/hl-isp-dumper/src/flash.c:371-400 | up to a page of data, each byte is ANDed once into the cell at its wrapped place and every other cell stays as it was |
| `NorFlash.PageWriteInside` | dristy/firmware/hl-isp-dumper/src/flash.c:371-400 | without a wrap those cells are the consecutive addresses |
| `NorFlash.NorChip.PageProgram` | dristy/firmware/hl-isp-dumper/src/flash.c:387-400 | the driver's page program on a range inside one page: the bytes ANDed in, one program issued, chip ready again |
| `NorFlash.NorChip.WriteData` | dristy/firmware/hl-isp-dumper/src/flash.c:403-418 | although a program wraps in its page, the write is one contiguous AND-write of the buffer, and the programs issued are the page split of the range |
| `NorFlash.OneProgramPerPage` | dristy/firmware/hl-isp-dumper/src/flash.c:403-418 | the page split tiles the range in order, no piece crosses a page end, and there is exactly one piece per touched page: (addr mod 256 + length + 255) / 256 |
| `NorFlash.AndWriteBlank` | dristy/firmware/hl-isp-dumper/src/flash.c:371-400 | over blank cells an AND-write stores the data itself |
| `NorFlash.AndBits` | dristy/firmware/hl-isp-dumper/src/flash.c:371-400 | programming keeps a bit of a cell set exactly when it is set in the cell and in the data |
| `NorFlash.NorChip.ReadData` | dristy/firmware/hl-isp-dumper/src/flash.c:478-490 | bursts of at most 32 bytes put exactly the addressed range of the chip into the buffer and change nothing around it |
| `NorFlash.NorChip.ReadJedec` | dristy/firmware/hl-isp-dumper/src/flash.c:220-227 | the three identification bytes end up in the buffer when the chip is not busy; a busy chip ignores the command, and any bytes may be read |
| `Ui.Tracker.ValidateWrite` | dristy/firmware/hl-isp-dumper/src/ui.c:179-189 | a write is refused only when it goes to address 0, no image is being tracked yet, and it does not begin with a plausible image header |
| `Ui.Tracker.WriteComplete` | dristy/firmware/hl-isp-dumper/src/ui.c:191-228 | the longest length written to each block is kept, the frontier never falls, the image size is taken from the first header, completion is sticky, the percentage is exact; a frontier that stands inside a short block never moves again |
| `Ui.Tracker.Advance` | dristy/firmware/hl-isp-dumper/src/ui.c:204-213 | the frontier loop ends at the first unwritten block, or inside the first short one, of which it counts exactly what was written |
| `Ui.Tracker.FrontierOfFullBlocks` | dristy/firmware/hl-isp-dumper/src/ui.c:191-228 | when only full blocks are written, in any order, the frontier is 4096 times the least unwritten block |
| `Bitmap.MarkSectors` | dristy/firmware/hl-isp-dumper/src/main.c:107-116 | marks exactly the sectors of a range; the unsigned countdown reaches zero because ranges are whole sectors |
| `Bitmap.ClearSectors` | dristy/firmware/hl-isp-dumper/src/main.c:118-126 | unmarks exactly the sectors of a range, and ends for the same reason |
| `Bitmap.ClearSector` | dristy/firmware/hl-isp-dumper/src/main.c:100-105 | unmarks exactly the sector of an address |
| `Bitmap.BitUpdates` | dristy/firmware/hl-isp-dumper/src/main.c:93-116 | setting or clearing one bit of a byte changes that bit and no other |
| `Bitmap.HonestMark` | dristy/firmware/hl-isp-dumper/src/main.c:155-156 | a piece that has become blank may be marked: marks stay truthful and outside the unfinished part of the erase |
| `Bitmap.HonestKick` | dristy/firmware/hl-isp-dumper/src/main.c:265-274 | a range that was unmarked first may hold anything while it is erased |
| `Bitmap.HonestWrite` | dristy/firmware/hl-isp-dumper/src/main.c:305-316 | changing one sector keeps the bitmap truthful if that sector is unmarked, or still blank |
| `IspStub.IspStub.EraseKick` | dristy/firmware/hl-isp-dumper/src/main.c:128-147 | issues the next erase command exactly when something remains, disturbing only its piece |
| `IspStub.IspStub.EraseStatus` | dristy/firmware/hl-isp-dumper/src/main.c:149-163 | one poll refines the abstract erase engine, in its flash, its commands, its progress and the sectors it marks: those of a finished piece are marked, and no mark is lost |
| `IspStub.IspStub.FinishPiece` | dristy/firmware/hl-isp-dumper/src/main.c:153-157 | every sector of the piece that has become blank is marked, and the marks that were there stay |
| `IspStub.IspStub.ValidPayload` | dristy/firmware/hl-isp-dumper/src/main.c:83-91 | true exactly when the checksum field matches everything behind it in the frame |
| `IspStub.IspStub.StagePayload` | dristy/firmware/hl-isp-dumper/src/main.c:37-42 | the staged data is sealed with its checksum and otherwise unchanged |
| `IspStub.IspStub.HandleRead` | dristy/firmware/hl-isp-dumper/src/main.c:178-205 | replies with exactly the requested bytes of the flash, or bad checksum, bad range or busy, each exactly when the protocol says; the flash is unchanged except for an erase that settles |
| `IspStub.IspStub.HandleErase` | dristy/firmware/hl-isp-dumper/src/main.c:246-275 | rejects in the order uninitialised, busy, bad checksum, bad range; otherwise starts an erase of the range rounded up to sectors with its first command |
| `IspStub.IspStub.HandleWrite` | dristy/firmware/hl-isp-dumper/src/main.c:280-318 | an accepted write leaves data, then 0xFF to the end of its sector, and every other byte as it was, whatever the bitmap says; it issues one sector erase, or none exactly when the sector was marked |
| `IspStub.IspStub.PrepareSector` | dristy/firmware/hl-isp-dumper/src/main.c:305-309 | the conditional erase has the same effect on the flash as an unconditional one, and issues its command exactly when the sector is not marked |
| `IspStub.IspStub.StoreSector` | dristy/firmware/hl-isp-dumper/src/main.c:310-317 | the data is stored over a blank sector, the sector's mark and no other is taken back, and an erase command has been issued exactly if there was no mark |
| `IspStub.IspStub.HandleJedec` | dristy/firmware/hl-isp-dumper/src/main.c:207-216 | replies with sealed identification bytes once initialised; they are the chip's when no erase is running |
| `IspStub.IspStub.HandleRequest` | dristy/firmware/hl-isp-dumper/src/main.c:165-329 | every operation refines a transition relation on (initialised, flash, running erase, progress, erase commands issued, marked sectors, tracked image size), and the stub invariant is kept; initialisation succeeds whenever its checksum is right, as flash_init returns FLASH_OK on every path |
| `IspStub.IspStub.ReceiveByte` | dristy/firmware/hl-isp-dumper/src/main.c:353-383 | a received byte either completes a frame, which is answered by one encoded reply according to that relation, or changes nothing but the decoder |
| `IspStub.IspStub.SendReply` | dristy/firmware/hl-isp-dumper/src/main.c:369-373 | operation, reason and staged payload travel as one frame |
| `IspStub.IspStub.IdleTick` | dristy/firmware/hl-isp-dumper/src/main.c:347-352 | a loop turn without input is exactly one poll of the erase engine |
| `IspStub.IspStub.WriteIdle` | dristy/firmware/hl-isp-dumper/src/main.c:290-318 | without an active erase, an accepted write ends in data and 0xFF to the sector end, whatever the bitmap said, and a rejected one changes nothing |
| `IspStub.IspStub.Turn` | dristy/firmware/hl-isp-dumper/src/main.c:345-384 | one turn of the main loop is one event of the protocol, answered by its encoded reply, or a byte that only the decoder sees |
| `IspStub.IspStub.Run` | dristy/firmware/hl-isp-dumper/src/main.c:331-385 | for any interleaving of received bytes, idle turns and busy answers: the inputs taken are explained by a run of the protocol with one step for each completed frame and each idle turn, in order; what is sent is the encoded replies of that run, in order; the loop stops early only at a reboot request; and a marked sector of the bitmap is all 0xFF |
| `IspRuns.FramesAreReported` | dristy/firmware/hl-isp-dumper/src/main.c:345-384 | idle turns do not disturb framing: the frames handled are those the decoder reports for the received bytes alone |
| `IspRuns.TilingIsLegal` | dristy/firmware/hl-isp-dumper/src/main.c:128-147 | the pieces that the kick rule picks tile a range exactly, in order, with 64 KiB pieces only at aligned addresses that fit |
| `IspRuns.TilingIsMinimal` | dristy/firmware/hl-isp-dumper/src/main.c:128-147 | no legal sequence of sector and block erases covers the same range with fewer commands |
| `IspRuns.IssuedCommandsTile` | dristy/firmware/hl-isp-dumper/src/main.c:128-275 | over any run from an accepted erase request until no erase is active, with any requests, idle turns and busy answers between, the erase commands issued to the chip are exactly that tiling, so they are legal, in order and as few as possible, followed by the sector erase of a write that found the erase just finished, if that write needs one; the completed count ends at end - start |
| `IspRuns.ErasedOverRun` | dristy/firmware/hl-isp-dumper/src/main.c:128-275 | over such a run without a write request the flash becomes 0xFF in the rounded range and keeps every other byte |
| `IspRuns.EraseSpares` | dristy/firmware/hl-isp-dumper/src/main.c:149-163 | when such a run is over, the marked sectors are those marked before and all sectors of the range, without the one that a final write has used |
| `IspRuns.FirstWriteNeedsNoErase` | dristy/firmware/hl-isp-dumper/src/main.c:305-316 | after an accepted erase is over and any further run whose requests do not name a sector of its range, the first acknowledged write to that sector adds no erase command |
| `IspRuns.WriteCommands` | dristy/firmware/hl-isp-dumper/src/main.c:305-316 | an acknowledged write adds one sector erase to the commands if its sector is not marked and none if it is, and takes the mark back |
| `IspRuns.MarksAreInvisible` | dristy/firmware/hl-isp-dumper/src/main.c:93-126 | a stub with any other set of marked sectors can answer every request and poll alike with the same flash: the bitmap decides about erase commands only |
| `IspRuns.PollKeepsPromise` | dristy/firmware/hl-isp-dumper/src/main.c:149-163 | a poll never changes what the flash will be when the running erase is over, nor the commands that will have been issued by then |
| `IspRuns.IdlingKeepsPromise` | dristy/firmware/hl-isp-dumper/src/main.c:345-352 | neither does any number of idle turns, which only bring the erase forward |
| `IspRuns.UnnamedBytesKeepTheirValue` | dristy/firmware/hl-isp-dumper/src/main.c:165-329 | over any run, a byte that lies in no write sector and no erase range named by a request keeps its value |
| `IspRuns.WrittenDataIsReadBack` | dristy/firmware/hl-isp-dumper/src/main.c:178-318 | after any run that does not name those bytes again, reading the range of an acknowledged write returns the data written |
| `IspRuns.NothingBeforeInitialise` | dristy/firmware/hl-isp-dumper/src/main.c:165-329 | over any run without an initialise request, an uninitialised idle stub stays exactly as it is |
| `IspRuns.ImageHeaderIsRequired` | dristy/firmware/hl-isp-dumper/src/ui.c:179-202 | the first acknowledged write to address 0 carries, behind one byte, a length above 0 and at most 16 MiB - 37, least significant byte first, and the tracked size becomes that length + 37 |
| `IspRuns.SizeIsDecidedOnce` | dristy/firmware/hl-isp-dumper/src/main.c:165-329 | nothing but that first write ever changes the tracked size |
| `IspRuns.DamageIsNoticed` | dristy/firmware/hl-isp-dumper/src/main.c:83-91 | damage inside four consecutive bytes of address, length or data always fails the checksum |
| `IspRuns.DamagedRequestDoesNothing` | dristy/firmware/hl-isp-dumper/src/main.c:246-288 | a write or erase request damaged that way changes nothing at all in the stub and is not answered with OK |
| `Slip.SlipDecoder.DecodeByte` | dristy/firmware/hl-isp-dumper/src/slip.c:17-61 | one byte advances the decoder as the pure automaton does, a frame is complete exactly at a closing END with data and no overflow, and nothing is ever written past the capacity |
| `Slip.Send` | dristy/firmware/hl-isp-dumper/src/slip.c:63-83 | the bytes sent are END, the escaped data, END (section PROTOCOL of RFC 1055) |
| `Slip.OctetsOnTheWire` | dristy/firmware/hl-isp-dumper/src/slip.c:63-83 | in octets: 192 around a frame, 219 220 for 192, 219 221 for 219, and every other byte as it is |
| `Slip.FrameRoundTrip` | dristy/firmware/hl-isp-dumper/src/slip.c:17-61 | from outside a frame, an encoded frame is reported once, on its last byte, unchanged, exactly when it is not empty and fits; the decoder is outside again |
| `Slip.StreamRoundTrip` | dristy/firmware/hl-isp-dumper/src/slip.c:17-61 | a stream of encoded frames decodes to the list of those that fit |
| `Slip.ReportedExactly` | dristy/firmware/hl-isp-dumper/src/slip.c:17-61 | between two ENDs a frame is reported, with data d, if and only if d is not empty, fits, and the bytes are the escaped form of d, or that form and one escape left open |
| `Slip.EscapeNeverEndsOpen` | dristy/firmware/hl-isp-dumper/src/slip.c:63-83 | the escaped form of non-empty data never ends in an escape byte |
| `Slip.ReportedFaithfully` | dristy/firmware/hl-isp-dumper/src/slip.c:17-61 | a reported frame is the escaped form of some data, and then of the data reported, if and only if its last byte is not an escape byte |
| `Slip.OpenEscapeIsReported` | dristy/firmware/hl-isp-dumper/src/slip.c:17-61 | a concrete case: the letter A and an open escape are reported as A, although no data is escaped like that |
| `Slip.ReportsFit` | dristy/firmware/hl-isp-dumper/src/slip.c:17-61 | on any bytes whatsoever every reported frame is non-empty and within capacity |
| `Slip.HostEncodeIsEncode` | dristy/tools/hl_dump.py:80-82 | the two-pass replacing encoder of both host tools produces the same bytes as the one-pass escaper of the stub |
| `Slip.HostDecodeInverts` | dristy/tools/hl_dump.py:85-86 | the two-pass replacing decoder inverts the escaping on every input |
| `Slip.HlReadsFrame` | dristy/tools/hl_dump.py:126-142 | the reader of the dump tool returns every non-empty frame the stub sends |
| `Slip.HkReadsFrame` | dristy/firmware/k210/tools/hkflash.py:63-94 | so does the reader of the flashing tool |
| `Link.RequestFields` | dristy/tools/hl_dump.py:89-101 | for every operation, address, length and data, the stub reads back the fields the host packed and finds the checksum right |
| `Link.RequestLayout` | dristy/tools/hl_dump.py:89-101 | operation, three zero bytes, checksum at 4, address at 8, length at 12, data from 16, numbers with their least significant byte first |
| `Link.Pause` | dristy/firmware/hl-isp-dumper/src/main.c:345-352 | any number of loop turns without a byte leave the decoder as it is and only let a running erase go on |
| `Link.Transact` | dristy/firmware/hl-isp-dumper/src/main.c:345-384 | sending one encoded frame to a listening stub, with any number of idle turns before every byte and whether or not an erase is running, gives back one encoded reply that serves that frame in the state reached by then, or silence when the frame exceeds the receive buffer |
| `HlDump.Command` | dristy/tools/hl_dump.py:248-270 | returns the verified reply data exactly when the stub answered OK, and otherwise names the failure, whatever idle turns the stub took and whether or not an erase is running |
| `HlDump.CheckReply` | dristy/tools/hl_dump.py:227-270 | whatever frame arrives, it yields data only if it says OK and carries either nothing or data with the right checksum; each other frame has its own failure |
| `HlDump.ReplyIsChecked` | dristy/tools/hl_dump.py:248-270 | replies as the stub builds them pass with their data, or are rejected with their reason |
| `HlDump.DamagedReplyIsRefused` | dristy/tools/hl_dump.py:258-269 | a reply damaged inside four consecutive bytes of its data, or in its checksum field, is refused |
| `HlDump.ReadBlock` | dristy/tools/hl_dump.py:317-330 | one block read succeeds exactly for a range the stub can serve, and returns those bytes of the flash |
| `HlDump.Dump` | dristy/tools/hl_dump.py:294-340 | a dump over an idle stub returns normally exactly for certain arguments and leaves the flash as it was; with a positive block size the file is the start of the flash, of the size asked for but at most two to the power of the third identification byte |
| `HlDump.DumpIsComplete` | dristy/tools/hl_dump.py:317-330 | a dump that returns normally has written exactly the wanted bytes from address 0 if and only if the block size is positive or nothing was wanted: with a negative block size the tool succeeds and writes an empty file |
| `HlDump.NegativeBlockDumpsNothing` | dristy/tools/hl_dump.py:317-330 | a concrete case: with block size -1 the dump of a whole 16 MiB part is accepted and the file stays empty |
| `FlashLayout.Validate` | dristy/firmware/k210/tools/gen_flash_layout.py:93-169 | accepts exactly the maps that start at 0, end at the capacity, have good names without repetition, and aligned partitions of which each ends before its neighbour starts |
| `FlashLayout.PartitionByName` | dristy/firmware/k210/tools/gen_flash_layout.py:180-186 | finds a partition of that name if and only if there is one |
| `FlashLayout.PartitionsAreDisjoint` | dristy/firmware/k210/tools/gen_flash_layout.py:146-163 | comparing neighbours is enough: any two partitions are in order and do not overlap |
| `FlashLayout.OwnBytes` | dristy/firmware/k210/tools/gen_flash_layout.py:119-168 | no byte of a partition belongs to one of another name |
| `HkFlash.EraseFlash` | dristy/firmware/k210/tools/hkflash.py:320-343 | for any schedule of idle turns and busy answers the poll loop ends; it returns normally exactly for a valid range, or when an earlier erase is still running when the request arrives; the flash is then blank in the range up to the next sector boundary with all else unchanged, or what that earlier erase leaves; the commands issued for the request are the tiling of the range, or none |
| `HkFlash.ReturnMeansBlank` | dristy/firmware/k210/tools/hkflash.py:320-343 | for a valid range, a normal return means a blank range under every schedule of idle turns if and only if no erase is running at the call, or the running erase will leave the range blank anyway |
| `HkFlash.SecondEraseIsDropped` | dristy/firmware/k210/tools/hkflash.py:320-343 | a concrete case: the second sector, asked for while the first is being erased, keeps its contents although the call returns normally |
| `HkFlash.PollUntilDone` | dristy/firmware/k210/tools/hkflash.py:331-343 | the status loop ends under any idle turns and busy answers, and leaves the flash as the running erase promised |
| `HkFlash.WriteFlash` | dristy/firmware/k210/tools/hkflash.py:345-366 | succeeds exactly when the data is acceptable to the stub and no erase is left when the first chunk arrives; the flash is then the data at the address, zero-padded to whole sectors, over what a running erase leaves, and one sector erase has been issued for each sector that was not marked. On failure this holds for exactly the chunks sent so far, and nothing else has changed |
| `HkFlash.WriteChunk` | dristy/firmware/k210/tools/hkflash.py:349-363 | a chunk is stored exactly when it is acceptable and no erase is left; a refused or dropped chunk changes nothing, and after a busy answer no other answer comes |
| `HkFlash.PaddingStaysInside` | dristy/firmware/k210/tools/hkflash.py:397-409 | the padding of every payload that can be made from an image and passes the host check stays inside the firmware partition if and only if the partition size is a multiple of 4096, or below the 37 bytes that every payload has |
| `HkFlash.WholeSectors` | dristy/firmware/k210/tools/gen_flash_layout.py:119-168 | with an erase unit that is a multiple of 4096 every partition of a valid map is whole sectors |
| `HkFlash.SmallEraseUnitSpills` | dristy/firmware/k210/tools/hkflash.py:397-409 | a concrete valid map with an erase unit of 0x800 on which an accepted image is padded into the next partition |
| `HkFlash.PayloadHasHeader` | dristy/firmware/k210/tools/hkflash.py:387-390 | the payload made from an image is flag, length in four bytes, image and the digest of everything in front of it, and starts with the header the stub looks for exactly when the image is not empty and fits the flash |
| `HkFlash.Install` | dristy/firmware/k210/tools/hkflash.py:543-553 | initialise, erase if asked to, write: success exactly when both steps are acceptable; in every case the flash and the erase commands issued are the specified ones for the steps and bytes it got through |
| `HkFlash.InstalledFlashIsInstalled` | dristy/firmware/k210/tools/hkflash.py:320-366 | with or without the erase: the payload stands at the offset, zeros follow to the next multiple of 4096, and nothing outside the partition changed |
| `HkFlash.ReachedStaysInside` | dristy/firmware/k210/tools/hkflash.py:487-553 | however far a run got, it stayed inside a firmware partition of whole sectors |
| `HkFlash.FittingImageIsAccepted` | dristy/firmware/k210/tools/hkflash.py:487-553 | an image that passes the host checks for a firmware partition of whole sectors passes every check of the stub |
| `HkFlash.FlashImage` | dristy/firmware/k210/tools/hkflash.py:487-553 | from the map to the flash: an image that fits is flashed. A flashed image stands at the partition offset byte for byte: the flag 2 or 0, the length in four bytes, the image, and the digest of everything in front of it. With erase, the only erase commands of the run tile the range of 37 + image size bytes rounded up to erase units, and what the padded payload leaves of it is 0xFF. Whenever the partition is whole sectors nothing outside it changes, also when the run fails; a run that fails a host check changes nothing at all |
| `HkFlash.RoundUpIsLeastMultiple` | dristy/firmware/k210/tools/hkflash.py:393-409 | the erased length is the least multiple of the erase unit that holds the payload |
| `HkFlash.SparedSectorsAreFree` | dristy/firmware/k210/tools/hkflash.py:543-553 | writing sectors that an erase has just made blank issues no erase command |
| `HkFlash.OtherPartitionsUntouched` | dristy/firmware/k210/tools/hkflash.py:487-553 | then every byte of every other partition is as before, whether the run succeeded or not |
| `Cobs.EncodeInPlace` | dristy/firmware/k210/tools/hmpy_protocol.py:192-215 | the one-pass encoder with back-patched length bytes produces the block encoding |
| `Cobs.DecodeLoop` | dristy/firmware/k210/tools/hmpy_protocol.py:218-243 | the index loop decodes block by block and fails exactly on empty, zero-bearing, overrunning or over-long packets |
| `Cobs.EncodingIsZeroFree` | dristy/firmware/k210/tools/hmpy_protocol.py:192-215 | no zero byte in the encoding, at most one byte in 254 plus one longer |
| `Cobs.EncodedInBlocks` | dristy/firmware/k210/tools/hmpy_protocol.py:192-215 | three equations that determine the encoding of all data: up to 253 non-zero bytes behind a length byte that counts itself, with the zero behind them or the end implied; 254 of them behind 0xFF with no zero implied |
| `Cobs.EncodeThenDecode` | dristy/firmware/k210/tools/hmpy_protocol.py:192-243 | decoding inverts encoding on all data up to the frame limit, and everything longer is reported as too large |
| `Cobs.DecodeThenEncode` | dristy/firmware/k210/tools/hmpy_protocol.py:218-243 | every accepted packet is the encoding of what it decodes to, except that a final 1 may be missing after a full last block |
| `Cobs.AcceptedExactly` | dristy/firmware/k210/tools/hmpy_protocol.py:192-243 | a packet decodes to d if and only if d fits and the packet is the encoding of d, or that encoding without a final 1 behind a full last block |
| `Cobs.AmbiguityIsTheFinalOne` | dristy/firmware/k210/tools/hmpy_protocol.py:218-243 | two packets decode alike only if they are equal or differ in that final 1 |
| `Hmpy.RawRoundTrip` | dristy/firmware/k210/tools/hmpy_protocol.py:246-297 | a frame encodes exactly when its envelope and payload are valid, and is then decoded unchanged |
| `Hmpy.RawInverse` | dristy/firmware/k210/tools/hmpy_protocol.py:275-297 | every accepted raw frame is the encoding of the valid frame it decodes to, so frames and accepted raw frames are in bijection |
| `Hmpy.EnvelopeRules` | dristy/firmware/k210/tools/hmpy_protocol.py:129-185 | valid are exactly the 21 message types with flags and request 0 for events, else a request from 1 to 2^32 - 1 and one of the flag values 0, 1, 3, 5, 7; an unknown type and flags above 7 have their own status |
| `Hmpy.RawLayout` | dristy/firmware/k210/tools/hmpy_protocol.py:246-263 | HMPY, version 1, type, flags at 6, request at 8, payload length at 12, payload from 16, numbers with their least significant byte first, and the checksum of all of it |
| `Hmpy.TruncationIsReported` | dristy/firmware/k210/tools/hmpy_protocol.py:275-297 | a valid raw frame cut short anywhere is reported as too short below 20 bytes and as a length mismatch from there on |
| `Hmpy.PayloadDamageIsReported` | dristy/firmware/k210/tools/hmpy_protocol.py:275-297 | damage inside four consecutive bytes behind the header is reported as a checksum mismatch |
| `Hmpy.BurstIsRejected` | dristy/firmware/k210/tools/hmpy_protocol.py:275-297 | an accepted raw frame changed inside at most four consecutive bytes is always rejected, header, payload and checksum alike |
| `Hmpy.PacketRoundTrip` | dristy/firmware/k210/tools/hmpy_protocol.py:266-306 | the packet of a valid frame is non-empty, zero-free, within the limit and decoded to that frame |
| `Hmpy.FrameRoundTrip` | dristy/firmware/k210/tools/hmpy_protocol.py:266-315 | the wire form exists exactly for valid frames, fits the wire limit, has one zero as its last byte, and is decoded to the frame |
| `Hmpy.FrameInverse` | dristy/firmware/k210/tools/hmpy_protocol.py:309-315 | an accepted wire frame is the encoding of its frame, up to the final 1 of a full last block |
| `StreamDecoder.StreamDecoder.FeedChunk` | dristy/firmware/k210/tools/hmpy_protocol.py:339-378 | for any chunk after any history, the events are what the chunk adds to the events of splitting the whole stream at zeros and decoding each non-empty segment; storage stays within one packet; error count and last error follow the events |
| `StreamDecoder.StreamDecoder.FeedByte` | dristy/firmware/k210/tools/hmpy_protocol.py:345-377 | one byte causes at most one event and keeps that refinement, also while an over-long segment is being discarded |
| `StreamDecoder.StreamDecoder.Reset` | dristy/firmware/k210/tools/hmpy_protocol.py:329-332 | forgets the stream and the last error and keeps the error count |
| `StreamDecoder.FeedAll` | dristy/firmware/k210/tools/hmpy_protocol.py:339-378 | the events do not depend on how the stream is cut into chunks |
| `StreamDecoder.SplitAtZero` | dristy/firmware/k210/tools/hmpy_protocol.py:345-377 | a delimiter separates what is before it from what is after it |
| `StreamDecoder.PacketsAreAnswered` | dristy/firmware/k210/tools/hmpy_protocol.py:339-378 | cutting a stream at its zeros loses nothing, and every non-empty packet that a zero ends has exactly one event, in order: the frame it decodes to, or an error with the status of its failure |
| `StreamDecoder.FramesAreDelivered` | dristy/firmware/k210/tools/hmpy_protocol.py:266-378 | the wire forms of any list of valid frames are delivered as that list |
| `StreamDecoder.Resynchronises` | dristy/firmware/k210/tools/hmpy_protocol.py:318-378 | after any bytes that end in a delimiter, every following valid frame is delivered, in order, and nothing is left over |
| `EventTrace.EventTrace.Handle` | dristy/firmware/k210/tools/hmpy_acceptance.py:251-328 | the dictionaries after an event are the step of the replay on (base, bytes) of each stream, pending drops and errors, which the laws below characterise; the bytes of each stream number next - base |
| `EventTrace.EventTrace.Absorbs` | dristy/firmware/k210/tools/hmpy_acceptance.py:278-328 | bytes before the base are dropped, known ones compared with the outcome recorded, new ones appended |
| `EventTrace.EventTrace.Compare` | dristy/firmware/k210/tools/hmpy_acceptance.py:291-328 | after the first overlap test nothing is left to overlap, so the second test cannot fire |
| `EventTrace.EventTrace.AccountForGap` | dristy/firmware/k210/tools/hmpy_acceptance.py:305-312 | a gap uses up reported drops and is an error exactly when it exceeds them |
| `EventTrace.EventTrace.NewBoot` | dristy/firmware/k210/tools/hmpy_acceptance.py:336-348 | everything but the list of events starts again |
| `EventTrace.EventTrace.AssertCleanOutput` | dristy/firmware/k210/tools/hmpy_acceptance.py:358-365 | passes exactly when the run has neither sequence errors nor reported drops |
| `EventTrace.EventTrace.StdoutBytes` | dristy/firmware/k210/tools/hmpy_acceptance.py:330-331 | the bytes reassembled for the STDOUT of a run, none if it was never opened |
| `EventTrace.Trace` | dristy/firmware/k210/tools/hmpy_acceptance.py:228-331 | a whole sequence of events leaves the object in the replayed state |
| `EventTrace.StepKeepsBytes` | dristy/firmware/k210/tools/hmpy_acceptance.py:251-328 | no event removes a stream, moves its base, changes a stored byte or lowers its next offset |
| `EventTrace.RunKeepsBytes` | dristy/firmware/k210/tools/hmpy_acceptance.py:251-328 | the same over whole runs: what a stream held at any time is a prefix of what it holds later |
| `EventTrace.GapsWithinDrops` | dristy/firmware/k210/tools/hmpy_acceptance.py:305-312 | while no gap of a stream is reported as an error, its gaps plus what is still pending never exceed the drops reported for it |
| `EventTrace.GapsAreMissingBytes` | dristy/firmware/k210/tools/hmpy_acceptance.py:278-328 | the gaps the trace counts on a stream are zero if and only if no event of it starts past what is known before it |
| `EventTrace.GaplessStreamIsOutput` | dristy/firmware/k210/tools/hmpy_acceptance.py:251-331 | if the events of a stream are pieces of one output at their absolute offsets and none starts past what is known before it, then under any replay and overlap the stream is that output from where it was opened, offset 0 for the STDOUT of a run and the first offset seen for the diagnostics of a boot, as far as its events reach, with no error |
| `EventTrace.CleanTraceIsOutput` | dristy/firmware/k210/tools/hmpy_acceptance.py:358-365 | a trace whose STDOUT events are such pieces and that passes the clean-output assertion shows the output of the run itself, from its first byte, and no event of it left bytes out |
| `EventTrace.ErrorsMeanMissingBytes` | dristy/firmware/k210/tools/hmpy_acceptance.py:251-331 | for a stream of such pieces without reported drops, there are no sequence errors on it if and only if no event starts past what is known before it |
| `EventTrace.ProblemsExactly` | dristy/firmware/k210/tools/hmpy_acceptance.py:251-328 | with nothing assumed about the events, a sequence error is recorded if and only if some event carries, at an offset stored before it, a byte different from the stored one, or leaves out more bytes than the drops reported before it pay for; the error names run, stream and offset, or the size of the gap |
| `EventTrace.CleanExactly` | dristy/firmware/k210/tools/hmpy_acceptance.py:358-365 | the clean-output assertion passes for a run if and only if no event of the run reports drops, contradicts a stored byte or leaves such a gap |
| `EventTrace.ConflictIsRefused` | dristy/firmware/k210/tools/hmpy_acceptance.py:291-303 | a run in which a replayed byte differs from the stored one never passes the assertion |
| `EventTrace.FirstEventDecides` | dristy/firmware/k210/tools/hmpy_acceptance.py:313-328 | every stored byte is what the first event that reaches its offset says, or zero where that event left it out |
| `EventTrace.PendingIsCredit` | dristy/firmware/k210/tools/hmpy_acceptance.py:236-312 | the pending drops of a stream are its drops less its gaps, never below zero, and none are left when its first diagnostic event comes |
| `EventTrace.StreamsShareKey` | dristy/firmware/k210/tools/hmpy_acceptance.py:241-246 | the diagnostics of all runs are one stream, the output of every run is its own |
| `DlpFrames.IterFrames` | dristy/src/dlp_proto/frames.py:54-85 | the index loop yields the hits of the recursive scan, with their offsets |
| `DlpFrames.DecodeOne` | dristy/src/dlp_proto/frames.py:88-92 | the first hit and the offset behind it, or an error when there is none |
| `DlpFrames.EncodeThenParse` | dristy/src/dlp_proto/frames.py:36-42 | an encoded frame carries a right checksum, over its header bytes too, and is parsed to the same frame |
| `DlpFrames.FrameLayout` | dristy/src/dlp_proto/frames.py:36-42 | a frame of up to 255 data bytes is 0x55, 0xAA, address, length, command, data, and a byte that differs from the sum of all those by a multiple of 256; longer data has no frame |
| `DlpFrames.SumConcat` | dristy/src/dlp_proto/frames.py:19-20 | the checksum sum of a concatenation is the sum of the sums |
| `DlpFrames.HitsAreFrames` | dristy/src/dlp_proto/frames.py:54-85 | what is yielded are checksum-valid frames of the buffer, increasing and disjoint |
| `DlpFrames.ScanIsComplete` | dristy/src/dlp_proto/frames.py:54-85 | every complete valid frame before the stopping point is yielded, or starts inside one that is |
| `DlpFrames.StopsAtIncomplete` | dristy/src/dlp_proto/frames.py:64-70 | the scan stops before the end of the buffer only at a header whose frame is not all there yet |
| `DlpFrames.ScanOfPrefix` | dristy/src/dlp_proto/frames.py:54-85 | bytes that arrive later never change or withdraw a frame already found |
| `DlpFrames.ScanShifted` | dristy/src/dlp_proto/frames.py:54-85 | scanning from an offset finds the frames that scanning the rest of the buffer finds |
| `DlpFrames.FirstHit` | dristy/src/dlp_proto/frames.py:88-92 | behind noise that holds no valid frame and no header still waiting for bytes, though perhaps headers and candidates with a wrong checksum, and whatever follows, the first hit is the frame that was sent, at its place |
| `DlpFrames.HeaderFreeIsHarmless` | dristy/src/dlp_proto/frames.py:54-85 | noise without a header is such noise |
| `DlpFrames.PastNoise` | dristy/src/dlp_proto/frames.py:71-74 | from anywhere in such noise the scan comes to the frame behind it without a hit, one byte at a time |
| `DlpFrames.LineIsRead` | dristy/src/dlp_proto/frames.py:36-85 | any list of encoded frames with such noise before and between them, and bytes without a valid frame behind them, is read back as exactly that list |
| `SerialTransport.SerialTransport.NextFrame` | dristy/src/dlp_proto/transport.py:128-142 | the frames of all bytes held and to come are the frame returned and the frames of what is then left; none is returned only when none is left |
| `SerialTransport.SerialTransport.ReadFrames` | dristy/src/dlp_proto/transport.py:128-142 | for every way of cutting the bytes into reads, the frames are those the scanner finds in the whole stream |
| `SerialTransport.SerialTransport.Collect` | dristy/src/dlp_proto/transport.py:160-165 | the collection is the shortest non-empty start of those frames that the predicate accepts, or all of them, and the frames not collected are still to be had |
| `SerialTransport.SerialTransport.Exchange` | dristy/src/dlp_proto/transport.py:144-165 | over-long data sends and reads nothing; otherwise the encoded command goes out and the collection follows |
| `SerialTransport.FirstTaken` | dristy/src/dlp_proto/transport.py:131-134 | taking the first frame off the buffer loses none of the others |
| `SerialTransport.CollectionIsUnique` | dristy/src/dlp_proto/transport.py:160-165 | what is collected is determined by the frames of the stream and the predicate alone |
| `CheckArch.CycleSearch.Visit` | dristy/firmware/k210/tools/check_arch.py:705-719 | the recursive visit ends on every finite graph, restores stack and visiting set, and leaves its file finished or reported as closing a cycle |
| `CheckArch.IncludeCycleFailures` | dristy/firmware/k210/tools/check_arch.py:693-722 | every reported path is a cycle of the graph without repetitions, every cycle of the graph uses the closing include of some reported one, and something is reported if and only if there is a cycle |
| `CheckArch.StackCloses` | dristy/firmware/k210/tools/check_arch.py:706-709 | the stack from the first occurrence of a file being visited, and that file, is a cycle |
| `CheckArch.WalkDescends` | dristy/firmware/k210/tools/check_arch.py:710-719 | along a walk without closing includes, files finish ever earlier |
| `CheckArch.SettledCutsCycles` | dristy/firmware/k210/tools/check_arch.py:693-722 | so every cycle crosses a closing include |
| `CheckArch.ReportsExactlyCycles` | dristy/firmware/k210/tools/check_arch.py:693-722 | reports are non-empty exactly when the graph has a cycle |
| `LayerPolicy.RepositoryLayerViolation` | dristy/firmware/k210/tools/check_arch.py:310-320 | the loop over the forbidden edges finds the violation of the policy function |
| `LayerPolicy.FirstEdgeDecides` | dristy/firmware/k210/tools/check_arch.py:310-320 | there is none exactly when no edge forbids the dependency, and else the reason is that of the first edge that does |
| `LayerPolicy.LayerEdgeViolation` | dristy/firmware/k210/tools/check_arch.py:298-307 | a violation is found if and only if both files are in layers and some forbidden edge leads from the one layer to the other; its reason is the policy function's |
| `LayerPolicy.SearchFrom` | dristy/firmware/k210/tools/check_arch.py:395-408 | the worklist ends on cyclic graphs with duplicate entries, and reports exactly the files that violate and are reached through files that do not |
| `LayerPolicy.TransitiveLayerFailures` | dristy/firmware/k210/tools/check_arch.py:386-409 | exactly those reports, for exactly the origins in the app and adapter layers |
| `LayerPolicy.PruningHidesNoOrigin` | dristy/firmware/k210/tools/check_arch.py:400-407 | an origin is reported if and only if something it includes, by one or more includes along any path, violates the policy |
| `BoardRoutes.ValidateRoutes` | dristy/firmware/k210/tools/board_contract.py:502-646 | accepts exactly the descriptors that keep the declarative contract of routes, names, wires, runtime muxes and selections |
| `BoardRoutes.CheckNames` | dristy/firmware/k210/tools/board_contract.py:535-547 | comparing a route with the latest one of its macro is enough |
| `BoardRoutes.LatestIsEnough` | dristy/firmware/k210/tools/board_contract.py:537-547 | a route in the exclusive group of the latest route of its macro is in the group of all of them |
| `BoardRoutes.CheckPairs` | dristy/firmware/k210/tools/board_contract.py:567-587 | the nested loops accept exactly when shared pins and functions are covered by a common group |
| `BoardRoutes.CheckMux` | dristy/firmware/k210/tools/board_contract.py:589-622 | a mux group is accepted exactly when it is a runtime board's group of several routes with a shared pin and several peripherals that equals the registered exception |
| `BoardRoutes.PinsCount` | dristy/firmware/k210/tools/board_contract.py:596-600 | counting distinct pins detects exactly the groups in which two routes share one |
| `BoardRoutes.CheckSelected` | dristy/firmware/k210/tools/board_contract.py:624-637 | every selection names a compiled route of an existing group |
| `BoardRoutes.CheckOmitted` | dristy/firmware/k210/tools/board_contract.py:638-646 | a group without selection is accepted only off runtime boards and with nothing compiled |
| `BoardRoutes.SelectedRoutes` | dristy/firmware/k210/tools/board_contract.py:266-276 | the result holds exactly the compiled routes that have no exclusive group, or an empty name for one, or are the selection of their group |
| `BoardRoutes.OrdinaryRouteIsSelected` | dristy/firmware/k210/tools/board_contract.py:266-276 | on an accepted descriptor every compiled route without an exclusive group is selected |
| `BoardRoutes.LeftOutForAnother` | dristy/firmware/k210/tools/board_contract.py:266-276 | on an accepted descriptor a compiled route is missing if and only if the selection of its group names another route, and if and only if another route of its group is selected |
| `BoardRoutes.SelectedPlaces` | dristy/firmware/k210/tools/board_contract.py:266-276 | the selected routes keep the order of the descriptor, each place taken once |
| `BoardRoutes.SelectedIsRegistered` | dristy/firmware/k210/tools/board_contract.py:502-566 | on an accepted descriptor every selected route has a pin from 0 to 47, the peripheral of its function, and the function and peripheral of its macro's role |
| `BoardRoutes.SelectedAreCompatible` | dristy/firmware/k210/tools/board_contract.py:266-276 | on an accepted descriptor the selected routes have pairwise different macros and functions, and share a pin only inside one runtime mux group |
| `BoardRoutes.OneRoutePerGroup` | dristy/firmware/k210/tools/board_contract.py:624-646 | every exclusive group has exactly one selected route, or, off runtime boards only, none |
| `BoardRoutes.SelectionNamesRoute` | dristy/firmware/k210/tools/board_contract.py:624-637 | every selection of an accepted descriptor is the identifier of a selected route of its group |
| `BoardRoutes.MuxRoutesSwitch` | dristy/firmware/k210/tools/board_contract.py:589-622 | every route in a mux group of an accepted descriptor is compiled, on a runtime board, and registered for that mux, and its group holds two routes on one pin and two peripherals |
| `BoardRoutes.MuxStaysWhole` | dristy/firmware/k210/tools/board_contract.py:589-622 | every wiring the registry preserves for a mux of the board is among the selected routes |

## Left out

- UART, SPI register, FPIOA, LCD, DTR and RTS code: the link is a list of bytes and the chip an object with busy answers.
- Timeouts and sleeps: a chip that stays busy for ever, a lost byte or a host deadline in mid-frame do not occur; a host waits until the stub has answered.
- HkFlash.Install: starts without an active erase, as the tools do after loading the stub; so do HkFlash.FlashImage and HlDump.Dump.
- The status-register write when the flash is initialised, which the source does not follow with a wait.
- NorFlash.NorChip.Read: only the quad read mode, the one the stub uses; the standard modes of flash_read do nothing.
- The effect of a change of baud rate, the headless variant of the UI, and what follows a reboot: a run of the stub ends there.
- SHA-256, an unspecified function with 32-byte results.
- hl_dump.py and hkflash.py from reset to the running stub: greeting, boot ROM upload, sidecar checks, final reboot.
- JSON, TOML and regular expressions, unknown fields and error messages: descriptors arrive as typed values, failures as constructors.
- BoardRoutes.ValidateRoutes: which of several problems is reported first is not specified, only whether there is one; identifiers need only be non-empty.
- CheckArch.IncludeCycleFailures: the recursion limit of Python is not modelled, and how an include is resolved to a file is part of the given graph.
- LayerPolicy.TransitiveLayerFailures: reports are a set, so their sorted order is not modelled; the layer of each file is given, not found by pattern matching.
- EventTrace.EventTrace.Handle: payload decoding is done before; file and status events are all one kind of other event.
- FLASH_ERROR answers of the stub, which the flash driver of the source never causes.
- hmpy_client.py, the dristy-py parsers, the viewer, the ROS node, the Arduino library and the examples: their claims are about field layouts or user interfaces, or need a firmware session that the repository does not show here.
- Evidence, documentation, branding, attestation and capability checkers: field-by-field validation around files and subprocesses.
