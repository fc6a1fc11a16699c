# Verification of the boot loader's image pipeline

A Dafny model of the AT91RM9200 boot loader that takes u-boot from the serial
line to its start address: bytes arrive over XMODEM, are checked by a CRC, are
stored in the DataFlash with a header, are read back, checked again and
unpacked into RAM. Around that pipeline the model has the menu loop, the memory
tests, the timer and the calendar conversion.

`dafny verify dfyconfig.toml` checks the whole project.

## How the model is built

Each stage has two halves. One is a specification by functions: what a stream
of LZF instructions, a framed image, an XMODEM transfer, a write to the flash
or a run of the menu loop means. The other is the program as it runs, methods
with loops and branches like the source's that change arrays and objects in
place, proved to compute those functions. Lemmas then state what the functions
amount to, in both directions wherever the source decides something.

| files | what they model |
|---|---|
| `Bytes`, `Arith`, `Copying` | bytes, words, updates of byte strings, `memcpy` |
| `Lzf`, `LzfDecoder` | the LZF format and `lzf_decompress` |
| `Image`, `ImageDecoder` | the "ZV" block format and `decompress_image` |
| `Crc`, `CrcTheory`, `CrcLoop` | the table-driven CRC, and what it computes |
| `CrcErrors`, `CrcOrder`, `CrcFewBits` | the errors it detects: bursts and odd numbers of bits, the order of x, errors of a few bits |
| `Xmodem`, `XmodemLayout`, `XmodemReceiver` | the transfer format, where its packets are on the line, and `rxmodem` |
| `Geometry`, `Parts`, `FlashChip`, `FlashTheory` | the device table and address coding, the chips themselves, what a chip does, the discipline of its commands |
| `FlashRuns`, `FlashWrites` | runs of chip commands, and what the runs of a write store |
| `FlashFaults`, `FlashBusy` | what failing commands, and commands that come too early, may do |
| `DataFlash` | the DataFlash driver |
| `Boot`, `Board`, `Pipeline` | the u-boot record, the commands of the board, upload followed by start |
| `Confirm`, `Menu`, `Uploads`, `Runs` | the question before an erase, the menu loop, which lines an upload accepts, and what whole runs of the loop keep |
| `Sdram`, `Timer`, `Calendar` | the memory tests, the timer, `localtime_r` |

In the methods, `mem` and similar ghost parameters name the bytes that an array
holds when a method starts, `Memory(a, mem)`; `Patch(mem, at, data)` is `mem`
with `data` stored at `at`, so a contract `Memory(a, Patch(mem, at, data))`
says what was written and that nothing else was.

A chip has its own geometry by its density code (`Parts.PartOf`), its own opcodes
and command sizes, apart from the driver's table and constants; the driver is
proved to agree with them.

The chip is *reliable*, *flaky* or *worn*. On a reliable chip nothing fails. On
a flaky one any transfer may time out, any poll may go unanswered, and a
command that failed may leave anything in its page. On a worn one, besides, an
erased or programmed page may hold anything. A program command without erase
clears bits only, a buffer write that runs over the end of the buffer wraps, a
command that arrives while the chip is busy is lost, and the bytes that come
back over SPI overwrite the memory that is being sent.

What the driver sends for a write is a *plan*, a sequence of chip commands
(`FlashRuns.WritePlan`), and `FlashRuns.Ran` says what a chip may do with a
plan: carry it out, or stop at a command that fails. The methods of the driver
are proved to be such runs, and the lemmas about writes are about all such
runs, or exhibit one.

The CRC polynomial x^16 + x^12 + x^5 + 1 is the one of section 2 of ITU-T
V.41; the packet format is that of sections 7 and 8 of Forsberg's XMODEM/YMODEM
Protocol Reference; the closed expression for the calendar is that of section
4.16 of the Base Definitions of POSIX.1-2017.

## What the proofs brought to light

- `lzf_decompress` fetches a control byte before it looks at the length
  (src/lzf_d.c:65-67). For an empty input that byte lies behind the input. The
  model lets it be any byte; the result is 0 for all of them, and a ghost result
  of `LzfDecoder.Decompress` says that this happens for no other input. So
  `decompress_image` reads a byte behind the image exactly when the image is a
  sequence of valid blocks that fit, with the header of a packed block of
  compressed size 0 at its very end, whose content would fit, too
  (`ImageDecoder.DecompressImage`, `Image.EndsEmptyDecides`).
- A packed block that declares 0 bytes is accepted with any payload, because
  the decoder's failure value 0 equals the declared size (src/decompress.c:84).
  `Image.ValidBlock` has it so, and `Image.UnpackDecides` shows it.
- An upload accepts images of more than 256 bytes, a start only those of at
  least 8192 (src/board.c:57-58). By `Boot.BootOfRecord` the images in between
  are stored and verified, and never boot.
- The boundary between the loader and u-boot, 43 * 264, lies inside a page of
  the 528- and 1056-byte chips. While all commands succeed no upload touches
  the other region. When a command fails in the page that both regions share,
  the neighbour's bytes in it may be lost: `FlashFaults.FaultsBefore` and
  `FlashFaults.FaultsBehind` state exactly when, with a run of the chip for the
  cases where they are, and `Runs.BoundaryInPage` for which chips.
- A write sends its first command without waiting. If the chip is still busy
  then, the command is lost, and on a chip that works perfectly the write can
  report success with wrong data in the flash. That depends on where it starts.
  Inside a page, the fetch is lost, and stale bytes of the buffer are put before
  the range (`FlashBusy.BusyInside`). At a page, as the loader at 0 on every
  device and u-boot on those with pages of 264 bytes, a first whole page loses
  its buffer write: the page is erased and programmed with the stale buffer, so
  that the data in the range is wrong (`FlashBusy.BusyWhole`); less than a page
  loses the fetch, and stale bytes are put behind the range
  (`FlashBusy.BusyTail`). Success means that the data is stored if and only if
  the chip was at rest, or nothing is sent at all: an empty write that starts at
  a page (`FlashBusy.StoresOnlyAtRest`).
- A write keeps the discipline of the chip exactly when the chip is at rest, or
  nothing is sent (`DataFlash.DataFlash.WriteDataflash`). On a reliable chip
  every command of the menu leaves the chip at rest. On a flaky one a write
  that timed out may leave it busy, and then the next write comes too early
  (`FlashBusy.LaterWriteIsEarly`).
- `size_dataflash` masks the address, and what comes after it does not. Besides
  the ranges inside the device, exactly those are accepted that start at 2^31 or
  above and whose masked part looks right (`FlashRuns.AcceptedRanges`,
  `DataFlash.DataFlash.ReadDataflash`). They are read and written at the address
  that is left when whole rounds of what a command reaches are taken off
  (`FlashRuns.Alias`, `FlashRuns.WritePlanSame`, `FlashRuns.ReadSame`); on an
  AT45DB161, for 0x8000_0000 that is 0x20_0000
  (`FlashRuns.HighAddressIsAnother`).
- Two wrong bits escape the CRC exactly when they are a multiple of 32767 bits
  apart (`CrcFewBits.TwoErrorsChecks`), so one to three wrong bits are found in
  any body of up to 4095 bytes (`CrcFewBits.FewErrorsAreFound`); a packet has
  130.
- The question before an erase is timed by the same timer that loses ticks when
  it is not read for 65536 of them. An answer that counts came within five
  seconds if no two looks were that far apart (`Confirm.InTimeIsTime`).
- A packet whose first byte is changed to EOT on the line ends a transfer as
  complete; every other damage of the kinds considered ends it as refused
  (`Xmodem.DamagedPacketEndsTransfer`).
- `udelay_masked` counts 29 ticks for a microsecond of 29.952
  (src/interrupts.c:237), in 32 bits. A delay of usec is never cut below
  usec * 29 ticks if and only if that number is below 2^32
  (`Timer.DelayIsLongEnough`); the first that is cut, 148102321 microseconds,
  can end after 13 ticks (`Timer.DelayOverflows`). It is sure to last usec
  microseconds only if usec is 0 (`Timer.DelayIsTooShort`).
- `memory_test` alone finds every aliased address, but not every stuck bit
  (`Sdram.MissedStuckBit`; `Sdram.Sdram.MemoryTest` states which it finds).
  `memory_test_full` finds all stuck bits, and all shorts between data lines
  except those between lines of the same parity that the word index does not
  reach (`Sdram.Sdram.MemoryTestFull`).

## Model

| member | source | states |
|---|---|---|
| Lzf.RunOfEncoded | src/lzf_d.c:65-184 | decoding the encoding of any well-formed instructions (literals of 1 to 32 bytes, back references of distance 1 to 8192 and length 3 to 264 into the output so far) yields the bytes they denote |
| Lzf.RunIsEncoded | src/lzf_d.c:65-184 | every stream that is accepted is, to its last byte, the encoding of such instructions, and the result is what they denote |
| Lzf.RunDecides | src/lzf_d.c:65-184 | a stream is accepted with a given result if and only if it means that result and the result fits |
| Lzf.FirstOfEncoded | src/lzf_d.c:67-128 | reading the first instruction gives back what was encoded, whatever follows it |
| Lzf.ExtendIsPeriodic | src/lzf_d.c:146-178 | byte i of a back reference of distance D is the byte D - (i mod D) before the end of the output, overlapping or not |
| Lzf.ExtendIsBlock | src/lzf_d.c:151-156 | a back reference no longer than its distance moves one block |
| Lzf.RunExpansion | src/lzf_d.c:65-182 | the output grows with every accepted stream that is not empty, by at most 88 bytes for each byte of input |
| LzfDecoder.CopyUnrolled | src/lzf_d.c:167-177 | the unrolled copy, entered at any label, continues the output periodically by two bytes more than its label, and changes nothing else |
| LzfDecoder.CopyBlock | src/lzf_d.c:151-156 | for disjoint areas memcpy does the same |
| LzfDecoder.CopyBytewise | src/lzf_d.c:157-163 | and so does the byte loop, also for areas that overlap |
| LzfDecoder.CopyReference | src/lzf_d.c:146-178 | whichever of the three the switch takes, the output is continued periodically by len + 2 bytes |
| LzfDecoder.CopyLiteral | src/lzf_d.c:90-100 | the fall-through switch copies exactly the literal run |
| LzfDecoder.FetchReference | src/lzf_d.c:105-128 | the two or three bytes of a back reference are read only while there is input, and give its length and offset |
| LzfDecoder.DecodeLiteral | src/lzf_d.c:69-102 | one literal run: refused exactly when it does not fit the output or the input, else the output is extended by it |
| LzfDecoder.DecodeReference | src/lzf_d.c:103-180 | one back reference: refused exactly when it is cut off, does not fit or reaches before the output, else the output is extended by it |
| LzfDecoder.Decompress | src/lzf_d.c:56-185 | returns the number of bytes and stores them when the stream is accepted, else returns 0; writes nothing outside the out_len bytes, on any path; reads a byte behind the input exactly when the input is empty |
| Image.RunOfFrames | src/decompress.c:42-95 | valid blocks with an admissible tail decode to the concatenation of their contents |
| Image.RunIsFrames | src/decompress.c:42-95 | whatever is accepted is a sequence of valid blocks with an admissible tail |
| Image.RunDecides | src/decompress.c:42-95 | an image is accepted with a content if and only if it stands for that content and the content fits |
| Image.MeaningIsUnique | src/decompress.c:42-95 | an image stands for one content only |
| Image.PaddingDecides | src/decompress.c:50-57 | bytes appended to an image, which may have a tail already, keep its content if and only if tail and padding together add nothing: at most 127 bytes, unless they start with "ZV" |
| Image.ReadBlockOfEncoded | src/decompress.c:58-91 | an encoded block is read back as its size and content, whatever follows it |
| Image.ReadBlockIsEncoded | src/decompress.c:58-91 | every block that is read is the encoding of a valid block |
| Image.UnpackDecides | src/decompress.c:84 | a packed block is accepted exactly when its payload means the declared number of bytes, or when it declares none |
| ImageDecoder.ParseHeader | src/decompress.c:49-69 | the header tests classify the bytes at a position as no block, a bad one, or a block with its sizes |
| ImageDecoder.DecodePacked | src/decompress.c:84-91 | a packed block's content is appended to the output, or the result differs from the declared size; a byte behind the image is read exactly when there is no payload and the image is over |
| Image.EndsEmptyDecides | src/decompress.c:63-84 | the parse reaches a packed block of compressed size 0 at the end of the image if and only if the image is valid blocks that fit and the header of such a block |
| ImageDecoder.DecompressImage | src/decompress.c:42-95 | returns the size of the content and stores it, or returns 0; nothing at or past outmax is written on any path; a byte behind the image is read exactly when the image ends in the header of a packed block of compressed size 0 |
| Crc.Table | src/xmodem.c:101-134 | each of the 256 entries is its index, eight places up, times x^8 modulo the polynomial |
| CrcLoop.Crc16Ccitt | src/xmodem.c:136-143 | the loop returns the remainder, bit by bit, of the bytes of the buffer and 16 zeros by the polynomial |
| CrcLoop.Crc16IsRemainder | src/xmodem.c:85-88 | the CRC that the checks compare is that remainder |
| Bytes.BitsAreNumber | src/xmodem.c:141 | the bits of a byte that enter the CRC are those of its number |
| CrcTheory.StepIsDivision | src/xmodem.c:141 | one table step adds a byte at the top of the register and divides by the polynomial |
| CrcTheory.CrcIsRemainder | src/xmodem.c:136-143 | the table-driven CRC of a buffer of any length is the remainder, bit by bit, of the message times x^16 |
| CrcTheory.CrcLinear | src/xmodem.c:136-143 | the CRC of the XOR of two buffers of equal length is the XOR of their CRCs |
| CrcErrors.ChecksIffZero | src/xmodem.c:85-88 | a packet body passes the check if and only if the CRC over data and CRC bytes together is 0 |
| CrcErrors.ChecksIffDifference | src/xmodem.c:85-88 | against a body that passes, another one passes if and only if their difference has the CRC 0 |
| CrcErrors.SentChecks | src/xmodem.c:85-88 | data followed by its CRC, most significant byte first, passes the check |
| CrcErrors.AcceptedCrcBytes | src/xmodem.c:85-88 | only the CRC's own two bytes are accepted behind the data |
| CrcErrors.BurstIsFound | src/xmodem.c:82-88 | an error burst of at most 16 bits fails the check, wherever it falls |
| CrcErrors.AdjacentBytesAreFound | src/xmodem.c:82-88 | any change confined to two adjacent bytes fails the check |
| CrcErrors.OddErrorsAreFound | src/xmodem.c:82-88 | any change of an odd number of bits fails the check |
| CrcOrder.PowersMultiply | src/xmodem.c:136-143 | a power of x modulo the polynomial is the product of those whose exponents add up to its own |
| CrcOrder.OrderOfX | src/xmodem.c:136-143 | a power of x is 1 modulo the polynomial if and only if its exponent is a multiple of 32767 |
| CrcFewBits.TwoErrorsChecks | src/xmodem.c:82-88 | a body with two wrong bits passes the check if and only if they are a multiple of 32767 bits apart |
| CrcFewBits.FewErrorsAreFound | src/xmodem.c:82-88 | one to three wrong bits fail the check, wherever they are in a body of up to 4095 bytes |
| Xmodem.TransferIsReceived | src/xmodem.c:54-96 | numbered packets and EOT are received as their payloads in order, if they fit |
| XmodemLayout.TransferDecides | src/xmodem.c:54-96 | a line is such a transfer if and only if, for each k, the bytes from 133 * k on are 0x01, the number (first + k) mod 256 and its complement, the payload k and its CRC, and after the last there is 0x04 |
| XmodemLayout.ReceiveIsLayout | src/xmodem.c:54-96 | data is received if and only if the line has it at these places, numbered from 1, and it fits |
| XmodemLayout.SendingIsTransfer | src/xmodem.c:54-96 | the number of a packet counts the packets before it, modulo 256 |
| Xmodem.ReceivedIsTransfer | src/xmodem.c:54-96 | whatever is received is such a transfer |
| Xmodem.ReceiveDecides | src/xmodem.c:54-96 | data is received if and only if the line carries it and it fits |
| Xmodem.AcceptedOfComplete | src/xmodem.c:89-95 | a complete transfer of n bytes took n / 128 packets |
| Xmodem.DamagedPacketEndsTransfer | src/xmodem.c:58-88 | a packet anywhere in a transfer that has an error in its first three bytes, or in its body a burst of at most 16 bits, an odd number of wrong bits or two, ends it as refused; but as complete, with the packets before it, if its first byte became EOT |
| XmodemReceiver.ReceiveHeader | src/xmodem.c:58-80 | the tests before a packet body take their characters from the line and classify its start |
| XmodemReceiver.ReceiveBody | src/xmodem.c:82-83 | the 130 characters of a body go to the buffer in order |
| XmodemReceiver.CheckBody | src/xmodem.c:85-87 | the comparison of the two CRCs is the check of the body |
| XmodemReceiver.ReceivePacket | src/xmodem.c:56-90 | one round accepts a packet exactly when it is good, and stores its body |
| XmodemReceiver.AcksOfTransfer | src/xmodem.c:61-94 | a sender of n packets gets n + 1 ACKs |
| XmodemReceiver.AcksOfDamaged | src/xmodem.c:58-94 | one whose packet behind n others is damaged gets n, or one more if it was taken for EOT |
| XmodemReceiver.Rxmodem | src/xmodem.c:54-97 | the result, the bytes in the buffer, the rest of the line and the ACKs sent are those of the received transfer; nothing is written past maxlen + 2 |
| Parts.TableIsRight | src/dataflash.c:605-644 | the device table has exactly the chips of the family, each with its size of so many megabits and spare bytes, its pages, its byte addresses and its mask, and five command bytes go exactly to those whose addresses need more than 24 bits |
| Geometry.TableIsAddressable | src/dataflash.c:606-643 | every device of the table meets the conditions of the address coding and holds all regions |
| Geometry.AddressInCommand | src/dataflash.c:125-143 | the address bytes of a command for any address give back the byte in its page, and its page modulo the pages that a command reaches |
| Geometry.AddressIsLossless | src/dataflash.c:125-143 | page and byte are given back if and only if the command reaches the page, as it does for all of the device |
| FlashRuns.AcceptedRanges | src/dataflash.c:714-724 | the size test and the test of the sum accept exactly the ranges inside the device, and those at addresses of 2^31 and more that pass the size test |
| FlashRuns.WritePlanSame | src/dataflash.c:481-541 | a write to any address sends the commands of one to the address that it names, whole rounds of what a command reaches away |
| FlashRuns.ReadSame | src/dataflash.c:215-234 | a read at any address is one at the address that it names, as far as that is inside the device |
| FlashRuns.HighAddressIsAnother | src/dataflash.c:714-744 | one of these: on an AT45DB161 the address 0x8000_0000 passes the size test and names 0x20_0000 |
| Geometry.BufferAddressIsLossless | src/dataflash.c:324-335 | the address bytes of a buffer command, made with the byte mask, give back the buffer offset |
| DataFlash.PageCommandDecodes | src/dataflash.c:125-143 | the chip takes a page command, with any command size the driver uses and for any address, for the operation on the page that the address reaches; in the device that is the page meant |
| DataFlash.BufferCommandDecodes | src/dataflash.c:321-337 | the same for a buffer write |
| FlashTheory.MergeErased | src/dataflash.c:520-526 | programming an erased page stores the data, although it only clears bits |
| FlashTheory.MergeKeepsClearBits | src/dataflash.c:524-526 | without the erase the data is stored exactly when no bit is set in it that is clear in the cells |
| FlashTheory.ReadModifyWrite | src/dataflash.c:447-470 | writing back a page of which a part was changed is an update of that part of the flash |
| FlashTheory.WrapStoreInside | src/dataflash.c:454-457 | a buffer write inside the page does not wrap |
| FlashTheory.ReadOutInside | src/dataflash.c:223-233 | a read inside the memory yields that slice of it |
| FlashWrites.WritePlanFits | src/dataflash.c:496-540 | the commands of a write go through its pages only, no buffer write wraps, and each program without erase directly follows an erase of its page |
| FlashWrites.PartDone | src/dataflash.c:447-470 | on a chip at rest that is not worn, a complete run of the commands for a part of a page stores it and changes nothing else |
| FlashWrites.WholeDone | src/dataflash.c:513-526 | the same for a whole page: erase, and program what only clears bits |
| FlashWrites.WriteEnds | src/dataflash.c:481-541 | on such a chip a complete run of a write is the flat update of the flash; one that stops leaves the pages before some page of the write new and those behind it old |
| FlashWrites.WriteIsConfined | src/dataflash.c:481-541 | whatever the chip does, busy or worn, a write changes nothing outside the pages it goes through |
| FlashWrites.RunDiscipline | src/dataflash.c:190-203 | a run of a write keeps the discipline of the chip if and only if its first command does not come while the chip is busy |
| FlashFaults.FaultsBefore | src/dataflash.c:497-541 | all bytes before the range of a write survive all its runs on a flaky chip if and only if it starts at a page |
| FlashFaults.FaultsBehind | src/dataflash.c:497-541 | all bytes behind the range survive if and only if it ends where a page ends |
| FlashBusy.BusyInside | src/dataflash.c:451-469 | a write that starts inside a page of a reliable chip that is still busy has a complete run that puts a stale byte before its range |
| FlashBusy.BusyWhole | src/dataflash.c:513-526 | one that starts at a page with a whole page has one that stores a stale byte in place of its first |
| FlashBusy.BusyTail | src/dataflash.c:534-538 | one of less than a page that starts at a page has one that puts a stale byte behind its range |
| FlashBusy.StoresOnlyAtRest | src/dataflash.c:481-541 | on a reliable chip every complete run of a write stores the data and changes nothing else, whatever its buffer holds, if and only if the chip was at rest or the write is empty and starts at a page |
| FlashBusy.LaterWriteIsEarly | src/dataflash.c:190-203 | on a flaky chip a write may time out and leave the chip busy, so that the next one breaks the discipline that the first one kept |
| FlashChip.FlashChip.Exchange | src/dataflash.c:66-107 | what any memory command may do to the chip, in each of its conditions, and the record of it in the trace |
| DataFlash.DataFlash.SpiWrite | src/dataflash.c:66-107 | command and data reach the chip, and what comes back overwrites the data sent |
| DataFlash.DataFlash.SendCommand | src/dataflash.c:114-153 | the chip carries out the operation that it takes the command, its size and the address for, for any address |
| DataFlash.DataFlash.GetStatus | src/dataflash.c:160-183 | one poll, with the opcode that the chip answers; the status has bit 7 set only if the chip is ready |
| DataFlash.DataFlash.WaitReady | src/dataflash.c:190-203 | success means that the chip is ready; a sound chip that needs no more polls than allowed succeeds |
| DataFlash.DataFlash.FetchPage | src/dataflash.c:451-453 | a run of one command, the fetch of the page, and the wait |
| DataFlash.DataFlash.WriteBuffer | src/dataflash.c:303-348 | a buffer address outside the page is refused with nothing sent; else the buffer write is carried out and the source overwritten |
| DataFlash.DataFlash.ErasePage | src/dataflash.c:358-371 | a run of one command, the erase of the page, and the wait |
| DataFlash.DataFlash.ProgramPage | src/dataflash.c:404-425 | a run of one command, the programming of the page with or without erase, and the wait |
| DataFlash.DataFlash.PartialPageWrite | src/dataflash.c:438-471 | a run of fetch, buffer write, on large devices erase, and rewrite, complete exactly when it succeeds; the source is overwritten |
| DataFlash.DataFlash.WritePage | src/dataflash.c:513-526 | a run of buffer write, erase and program, complete exactly when it succeeds; the source is overwritten |
| DataFlash.DataFlash.WriteChunk | src/dataflash.c:497-538 | a chunk inside one page continues the run of the write by its commands |
| DataFlash.DataFlash.WriteHead | src/dataflash.c:496-510 | the commands for the unaligned head, up to the page boundary or the end of the data |
| DataFlash.DataFlash.WriteRest | src/dataflash.c:512-540 | the commands for whole pages and the tail |
| DataFlash.DataFlash.Write | src/dataflash.c:481-541 | every execution, from any state of the chip and for any address, is a run of the plan of the write, complete exactly when it returns OK; inside the device, OK from a chip at rest that is not worn means that the flash is the old flash with the data at dest, or, from 2^31 on, at the address that dest names, an error leaves pages before some page of the write new and those behind it old, nothing outside its pages changes ever, a reliable chip gets to the end, and the trace stays disciplined if and only if the chip was at rest or nothing was sent |
| DataFlash.DataFlash.ContinuousRead | src/dataflash.c:215-234 | a read that runs over the end, as an int, is refused; else it yields what a chip at rest reads out from the byte that the address names, for any address, and a reliable chip always answers |
| DataFlash.DataFlash.Read | src/dataflash.c:550-578 | all commands that are sent are reads of at most 0x8000 bytes; together they yield the slice of the flash at the address, or at the one that it names, and leaves the flash alone; a reliable chip gets to the end of every range in the device, and of those from 2^31 on |
| DataFlash.DataFlash.ReadDataflash | src/dataflash.c:730-744 | OK means that the buffer holds the bytes at addr, or, when addr is outside the device, those at the address that it names; a reliable chip answers OK, if size is not 0, exactly for the ranges inside it and those that start at 2^31 or above and pass the size test |
| DataFlash.DataFlash.WriteDataflash | src/dataflash.c:751-769 | a range is refused with nothing sent, unless it is inside the device, or starts at 2^31 or above and passes the size test; else as Write, at the address or at the one that it names |
| DataFlash.DataFlash.Init | src/dataflash.c:586-648 | success means that the descriptor holds the geometry that the chip has by itself; a reliable chip is always found |
| Boot.BootOfRecord | src/board.c:376-395 | a stored record passes the magic and CRC checks, whatever lies behind it; its length and content decide |
| Boot.RecordBoots | src/board.c:376-402 | a record boots with given bytes if and only if its image has at least 8192 bytes and stands for those bytes, 1 to UBOOT_MAX_SIZE of them |
| Boot.BootOfHeader | src/board.c:376-395 | a header with bytes behind it that need not be those it was made for: a wrong CRC is refused, else the bytes decide |
| Boot.RecordLayout | src/board.c:359-361 | the bytes of a record: length, CRC and magic with their lowest bytes first, then the image |
| Boot.BootsDecides | src/board.c:376-402 | a region with any bytes boots with given content if and only if it starts with the record of an image of at least 8192 bytes that stands for that content, of 1 to 0x10_0000 bytes |
| Boot.DamagedIsRefused | src/board.c:389-390 | a stored image with a burst of wrong bits or an odd number of them is refused for its CRC, and one with two wrong bits if and only if they are not a multiple of 32767 bits apart |
| Board.Board.Compare | src/board.c:278-280 | the loop decides whether the two areas are equal |
| Board.Board.FlashVerify | src/board.c:271-282 | success means that the flash holds the saved copy |
| Board.Board.SaveAndWrite | src/board.c:294-295 | the copy survives the write, which overwrites its source |
| Board.Board.FlashStore | src/board.c:285-305 | success is only reported when the flash holds the image, and only its pages may change, whatever the chip is like and does; on a chip at rest that is not worn nothing else changed; a reliable one succeeds; a failure stops at some page of the image |
| Board.Board.CheckVectors | src/board.c:243-254 | the tests on masked 32-bit words accept exactly a branch followed by seven loads of the program counter, byte for byte |
| Board.Board.PutHeader | src/board.c:359-361 | the two words before the image are its length, and magic and CRC |
| Board.Board.UploadUboot | src/board.c:349-366 | an image received complete, of the right size and starting with "ZV" is stored with its header; in every other case the flash is left alone |
| Board.Board.UploadLoader | src/board.c:331-346 | an image received complete, of the right size and with a vector table is stored with the geometry in the slot of vector 6; in every other case the flash is left alone |
| Board.Board.EraseFlash | src/board.c:406-431 | all ones are stored over all regions, only when the answer to the question was yes |
| Board.Board.CheckAndUnpack | src/board.c:382-402 | the checks on the region, in their order, decide the outcome: only the record of a bootable image is started; the unpacked bytes are at the start address |
| Board.Board.BootUboot | src/board.c:370-403 | u-boot is started exactly when the u-boot region of the flash starts with the record of a bootable image, whatever else it holds; the flash is left alone, and what is started is in place |
| Pipeline.SentBlocksBoot | src/board.c:349-403 | blocks padded to whole packets and sent as a transfer are carried by the line as an image that boots with their content |
| Pipeline.BootableIsAccepted | src/board.c:355-358 | an image that can boot passes the tests of the upload |
| Pipeline.BootOfHeld | src/board.c:370-403 | what a start does is decided by the record at the start of the region alone |
| Pipeline.UploadThenBoot | src/board.c:349-403 | once an upload reports the image as stored and the region can be read, on any chip, a start boots exactly the bootable images, with their content at the start address; a reliable chip at rest always gets that far |
| Pipeline.SendAndBoot | src/board.c:349-403 | end to end: on a reliable chip at rest, blocks that decode to 1 to UBOOT_MAX_SIZE bytes, padded to packets with a total length from 8192 to the size of the region, and sent over the line, are started with their content at the start address |
| Uploads.AcceptedUboot | src/board.c:355-358 | the test of the first two letters accepts exactly the images, of 257 to 123280 bytes, that start like a block |
| Uploads.LoaderFromDecides | src/board.c:331-339 | a loader is taken from a line if and only if the line carries it, it has more than 256 and fewer than 11352 bytes, and it starts with a vector table |
| Uploads.UbootFromDecides | src/board.c:349-358 | a u-boot image is taken from a line if and only if the line carries it, it has 257 to 123280 bytes and it starts like a block |
| Uploads.LoaderRecordLayout | src/board.c:340 | the stored loader is the received one except for the four bytes from 0x14 on, which are the geometry |
| Menu.Menu.DoUploadLoader | src/board.c:483-486 | what the command may make of the flash, and that it hangs exactly on a line that fell silent |
| Menu.Menu.DoUploadUboot | src/board.c:487-490 | the same for u-boot |
| Menu.Menu.DoStart | src/board.c:491-495 | u-boot takes over exactly when the region boots, on a reliable chip at rest; on any other only when it does |
| Confirm.DrainUart | src/board.c:227-239 | the loop takes the looks at the line that `Drain` takes, with the timer restarted by every character |
| Confirm.DrainedIsQuiet | src/board.c:225-239 | the line counts as drained when no character came for a second of the hardware counter, or 32768 were thrown away, and never more |
| Confirm.ConfirmYes | src/board.c:257-266 | the question is answered as the looks at the line say |
| Confirm.ConfirmDecides | src/board.c:256-266 | the answer is yes if and only if, after the first look at which the line is drained, the first character that is found is a 'y' and no look so far found the five seconds over |
| Confirm.InTimeIsTime | src/board.c:262-263 | if no two looks are 65536 ticks apart, the looks find the five seconds not over exactly when less than that has passed |
| Confirm.AnswerComes | src/board.c:227-266 | if the timer advances between looks, by less than 65536 ticks, the question is settled after a bounded number of looks, whatever the line does |
| Menu.Menu.DoErase | src/board.c:496-499 | the flash is erased exactly when the looks at the line give a yes |
| Menu.Menu.Execute | src/board.c:479-523 | the effect of the command that a key stands for, on a chip in any state; a start that returns clears the autoboot flag; from a chip at rest, a reliable one is at rest again and the discipline is kept |
| Menu.Menu.ShowMenu | src/board.c:461-466 | showing the menu restarts the timer, and otherwise it runs on |
| Menu.Menu.ReadKey | src/board.c:467-477 | the key, or the start that the timer leads to; the timer is looked at only without a key and with autoboot on |
| Menu.Menu.Round | src/board.c:467-523 | one round of the loop is a step of the state machine |
| Menu.Menu.StartArmboot | src/board.c:446-525 | the loop is a run of the state machine over its input; on a reliable chip that is at rest at its start, no command of the run comes while the chip is busy |
| Runs.StepSpares | src/board.c:479-523 | one round leaves every range alone that lies outside the region it stores to |
| Runs.RunSpares | src/board.c:331-432 | region isolation over runs: between any two moments a region is unchanged unless an upload to it was accepted or an erase was confirmed, on a reliable chip of any page size that is at rest, and on any chip, however it fails, whose pages make up the regions |
| Runs.BoundaryInPage | include/config-bf200.h:42-46 | of the supported devices only those with 264-byte pages have all region boundaries between pages |
| Runs.KeysDecide | src/board.c:467-523 | which key leads to which command, and that no key and the escape key lead to none unless the delay is over |
| Runs.RegionsNeedKeys | src/board.c:479-523 | between two moments of a run without '1' and '5' the loader is unchanged, and without '2' and '5' u-boot is, wherever stores keep to their region |
| Runs.AutobootStays | src/board.c:470-495 | while the loop runs, autoboot is on if and only if it was at the start and there was neither the escape key nor a start |
| Runs.AutomaticStartOnce | src/board.c:467-495 | u-boot is not started by itself after any other start or after the escape key, in any run; only by '4' |
| Runs.CountdownIsTime | src/board.c:461-476 | a round that looks at the timer finds the times between all rounds since the start of the run or the last command |
| Runs.AutomaticStartWaits | src/board.c:461-477 | a round that looks at the timer starts u-boot only if at least the autoboot delay has passed on the hardware counter since the start of the run or the last command; if no two looks were 65536 ticks apart it does so exactly then |
| Runs.AutobootDecides | src/board.c:459-495 | the same from the input alone: every round without a key is such a round, as long as the escape key was not pressed and nothing was started |
| Runs.StaysAtRest | src/board.c:459-523 | a reliable chip that is at rest once is at rest before every round |
| Runs.BootsLastUpload | src/board.c:459-523 | in any run on a reliable chip, at rest at its start, a start boots the content of the last accepted u-boot image, and only if that can boot, whatever came in between |
| Sdram.BinaryIsInjective | src/board.c:125 | different word indices have different patterns |
| Sdram.EqualBitsAreHigh | src/board.c:125-126 | two bits are equal in all indices below n exactly when neither is reached |
| Sdram.Faults.ComplementsFindStuckBits | src/board.c:117-118 | a word and its complement together show every stuck bit |
| Sdram.Faults.PassesDecide | src/board.c:115-120 | all four patterns come back everywhere exactly when no bit is stuck and all shorts are hidden |
| Sdram.Sdram.IndexFindsAliases | src/board.c:117 | if every word gives back its index then no two words share a cell, whatever is stuck or shorted |
| Sdram.Sdram.Pass | src/board.c:137-155 | a pass over distinct cells succeeds exactly when every cell can give back its pattern |
| Sdram.Faults.IndexDecides | src/board.c:99-111 | a pass with the index goes through exactly when every stuck bit agrees with the index of its word, and no line is pulled away from it by a shorted one |
| Sdram.MissedStuckBit | src/board.c:89-113 | in a memory of any size a stuck bit that this does not show |
| Sdram.Sdram.MemoryTest | src/board.c:89-113 | returns 0 if and only if no two words share a cell, and stuck bits and shorts all agree with the indices |
| Sdram.Sdram.MemoryTestFull | src/board.c:132-161 | returns 0 if and only if no two words share a cell, no bit is stuck, and shorts are at most between lines of equal parity that the index does not reach |
| Timer.CountedTicks | src/interrupts.c:211-230 | the differences of the counter never add up to more than the time that passed, agree with it modulo 65536, and are equal to it exactly when all gaps are below 65536 |
| Timer.StampIsElapsed | src/interrupts.c:211-230 | the same for the 32-bit timestamp, as long as the time fits it |
| Timer.Timer.ResetTimerMasked | src/interrupts.c:203-209 | a reset starts a new count |
| Timer.Timer.GetTimerMasked | src/interrupts.c:211-230 | a poll adds the difference of the counter, over its wrap-around too |
| Timer.Timer.UdelayMasked | src/interrupts.c:231-243 | the delay ends at the first poll that finds enough ticks, and at no other |
| Timer.TicksHavePassed | src/interrupts.c:231-243 | when a delay ends, the ticks it computed, modulo 2^32, have passed |
| Timer.DelayIsLongEnough | src/interrupts.c:231-243 | a delay cannot end before usec * 29 ticks have passed if and only if that number is below 2^32 |
| Timer.DelayOverflows | src/interrupts.c:237 | the delay of 148102321 microseconds can end after 13 ticks, and it is the first that overflows |
| Timer.DelayIsTooShort | src/interrupts.c:236-237 | a delay is sure to last usec microseconds if and only if usec is 0 |
| Calendar.NextYear | include/linux/time.h:24 | the closed expression counts the days of each year by the leap rule, also before 1970 |
| Calendar.SplitTime | include/linux/time.h:89-100 | day and second of the day, also for negative times, in spite of truncating division |
| Calendar.YearAndDay | include/linux/time.h:112-133 | the year loops, forwards and backwards, end with the year and the day in it |
| Calendar.MonthsAreSpread | include/linux/time.h:74-77 | the days before each month are those of a closed expression |
| Calendar.MonthAndDay | include/linux/time.h:137-140 | the month loop ends inside the table, with the month and the day of the month |
| Calendar.LocaltimeR | include/linux/time.h:69-146 | for every time the fields are in range and consistent, and the closed expression of POSIX gives the time back |
| Calendar.FieldsAreUnique | include/linux/time.h:69-146 | no other consistent fields stand for that time |

## Left out

- Hardware set-up: clocks, SDRAM controller, SPI and UART registers, exception handlers, `reset_cpu`, the jump to u-boot.
- XmodemReceiver.Rxmodem: begins with the first character. Clearing the RAM, emptying the UART and sending 'C' until a character arrives are left out. So is the draining of the line after an upload that is not accepted.
- Confirm.DrainUart: what each look at the line finds, and the ticks before it, are an input. That a character which was not fetched is still there at the next look is not demanded of it.
- A line that stays silent: `getc` would wait for ever, and the model ends there with its own result (`None`, `Hung`, `Stuck`).
- Menu texts, printing of device names and errors. The ticks of the hardware counter between two rounds of the menu loop are an input. What the uploads do with the timer is not modelled; the menu restarts it after every command.
- Menu.Menu.Execute: between two commands time passes, in which the chip may or may not come to rest. For a chip that was left busy only the pages of a store are known to be all that changes.
- Board.Board.FlashStore: is stated for destinations below 2^31 and lengths up to the distance of the two buffers, 8 MB, which hold all regions.
- The memory test as a menu command leaves the last pattern in the RAM of the model; the faults it looks for are modelled in `Sdram` only.
- `AT91F_DataFlashPagePgmBuf`, `AT91F_BlockErase`, `addr_dataflash`, the second buffer of the chip, and the checks for illegal buffer commands, which no caller can trigger.
- The DRYRUN_FLASH and TEST_HOOKS builds, and `decompress_image` without LZF.
- DataFlash.DataFlash.WriteDataflash: of the ranges that start at 2^31 or above, those for which the address they name is outside the device, or which run from there over its end, are said to send the commands of their plan, but not what becomes of the flash.
- DataFlash.DataFlash.ReadDataflash: of the same ranges it is said which are accepted, but not which bytes are read.
- DataFlash.DataFlash.Write: adds address and count exactly, where the source adds two ints. Behind `size_dataflash` the sum cannot overflow; the method alone takes any of them.
- DataFlash.DataFlash.Read: does not cover ranges that run over 2^32, which the size test before it excludes.
- The transmit and the receive pointers of a transfer are always equal in the source, so the model has one of each. The PDC is one exchange of command and data, which succeeds or times out.
- LzfDecoder.Decompress: the fall-through switches of the decoder are recursive methods that copy one byte for each label. Its input is a sequence that does not overlap the output, as in all callers; its pointers are offsets, so a pointer past the end of the address space is not modelled.
- Bit masks on addresses are division and remainder, and a mask in `AT91F_DataFlashWriteBuffer` is a bitwise "and" of numbers; bytes become bit vectors where the CRC and the cells of the chip need their bits.
- Calendar.LocaltimeR: times are integers without bounds; the width of `long` is not modelled. For times before 1970 the closed expression is read with division that rounds down.
- Timer.Timer.UdelayMasked: the hardware counter is an input: the ticks that pass before each poll. A delay for which the polls run out is reported as not done.
- The two loops of `memory_test` and those of `memory_test_full` are the same two loops with different patterns, and are one method of the model. The printed address of the first failing word is left out.
- Shorts are modelled between data lines with one dominant level; shorts between address lines are covered by the address map, which is any function.
