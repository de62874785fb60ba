# flashmem — a Dafny model of an M25P16 programming script

`flashmem.py` writes a binary image into an M25P16 SPI NOR flash through an
FTDI adapter, then reads it back to check it. It runs these steps in order:

1. It checks that the device answers Read Identification (0x9F) with 0x2020.
2. It sends Write Enable (0x06) and checks that the write-enable latch
   (status bit 0x2) reads back set.
3. It splits the image into 256-byte pages.
4. It programs each page with Page Program (0x02) at a running address,
   waiting before each page until the busy bit (0x1) of a polled byte
   clears.
5. It reads each page back with Fast Read (0x0B) at the same address and of
   the same length, compares the bytes, and keeps an `equal` flag.

The model has five modules:

- `Wire` holds the opcodes, the status bits, the three-byte big-endian
  address and the page-program frame. It proves round trips for the address
  and the frame.
- `Paging` holds the partition of the image into pages and the running
  address (`Offset`, the sum of the lengths of the earlier pages).
- `Device` holds the transport, a class `Bus`. Its `Exchange` method stands
  for `slave.exchange` and records every exchange, with its reply, in a
  `log`. Behind it sits a mock device (`Chip`) that stands in for the
  M25P16 but is simpler than it (see Left out). Its parts are:
  - the identification reply;
  - a scripted stream of answers to the one-byte polls;
  - the status register;
  - a memory array, where a missing key reads as erased (0xFF) and
    programming ANDs the data into the cell.
- `FlashSpec` describes what each part of the script sends and leaves
  behind as functions of the device state: `PollTrace`/`PollsLeft`,
  `ProgramPage`, `Programming`, `ReadBackTrace` and `GateTrace`. The
  properties the script relies on are proved about these functions.
- `Flasher` models the script itself. It is imperative, like the source:
  - the busy-wait is a `while` loop;
  - the program loop and the read-back loop are `for` loops that update
    `address` and `equal`;
  - the inner comparison is its own loop.

  Each method is proved against the matching `FlashSpec` function, over the
  bus's state and log.

How the source is read:

- Replies are taken as integers decoded most significant byte first. The
  script compares, masks and tests the replies of lines 22, 30 and 40 as
  integers. In Python 3 `exchange` returns a byte string, so line 22 as
  written never matches (see Findings), and lines 30 and 40 would raise.
- `get_status` (line 7) sends Read Identification (0x9F), not Read Status
  (0x05). The model keeps this: the byte it polls comes from the mock's
  poll stream, an input of the model. When the stream runs out, the mock
  answers 0x00 (ready).
- Line 60 is indented differently from lines 55-59, so Python would reject
  the file. The model advances `address` once per page, after the
  comparison, which is the plain intent.
- Write Enable is sent once, before all pages (line 27). Nothing is erased
  anywhere, so programming ANDs each image byte into the cell it lands on.
  The read-back succeeds exactly when every image byte survives that AND,
  which a blank region guarantees (`ProgrammedImageVerifies`,
  `ProgrammingUnerasedFails`). On the mock a single Write Enable suffices;
  on a real M25P16 it does not (see Left out).
- The read-back loop never stops early. Every page is read, whatever the
  earlier pages gave (`ReadBackTrace` has one exchange per page).
- The mismatch message on line 58 prints the byte index `i`. Messages are
  not modelled.

## Model

| member | source | states |
|---|---|---|
| `Wire.Busy` | flashmem.py:40 | the device is busy if and only if bit 0x1 of the polled byte is set |
| `Wire.WriteEnabled` | flashmem.py:30 | the latch counts as set if and only if bit 0x2 of the status byte is set |
| `Wire.AddressBytes` | flashmem.py:44 | the address goes out as three bytes that denote the address modulo 2^24, and exactly the address below 2^24 |
| `Wire.AddressBytesOfBigEndian` | flashmem.py:55 | any three bytes are the address bytes of the number they denote, and that number is below 2^24 |
| `Wire.AddressBytesInjective` | flashmem.py:44 | two addresses below 2^24 with equal address bytes are equal |
| `Wire.PageProgram` | flashmem.py:43-45 | the frame is 0x02, the address bytes, then the page: length 4 + page length, and the device decodes the address (mod 2^24) and the page unchanged |
| `Wire.FastRead` | flashmem.py:55 | the read command is 0x0B followed by three bytes that denote the address modulo 2^24, four bytes in all |
| `Wire.ParsePageProgramInverse` | flashmem.py:43-46 | every command the device takes as a page program is a frame the script could have built |
| `Wire.IdMatches` | flashmem.py:21-22 | a two-byte identification reply is accepted if and only if it is 0x20 0x20 |
| `Wire.IdCheckAsWrittenRejectsM25P16` | flashmem.py:21-24 | the check as written rejects every reply, including 0x20 0x20, which the decoded check accepts |
| `Paging.PageCount` | flashmem.py:34 | the number of pages is the ceiling of the image length over 256 |
| `Paging.Pages` | flashmem.py:34 | there are that many pages, each of 1 to 256 bytes, and every page but the last has 256 |
| `Paging.PageStartsInImage` | flashmem.py:34 | page k exists if and only if 256·k is inside the image |
| `Paging.PagesShape` | flashmem.py:34 | page k is the image's bytes from 256·k; every page but the last has 256 bytes; the last has 1 to 256 and ends the image |
| `Paging.ConcatPages` | flashmem.py:34 | joining the pages gives back exactly the image |
| `Paging.PageOffsets` | flashmem.py:37-49 | the address for page k (the sum of the earlier pages' lengths) is 256·k, and after the last page it is the image length |
| `Paging.PageOffsetsIncrease` | flashmem.py:37-49 | page addresses strictly increase |
| `Paging.ConcatAt` | flashmem.py:45-49 | byte i of page k sits at its page's address plus i in the joined pages |
| `Paging.OffsetStep` | flashmem.py:49 | each page advances the address by the page's length, never past the end of the joined pages |
| `Paging.SixHundredBytes` | flashmem.py:34-49 | a 600-byte image is sent as pages of 256, 256 and 88 bytes at addresses 0, 256 and 512, ending at 600 |
| `Device.Bus.Exchange` | flashmem.py:46 | one exchange: the reply has the requested length, the device steps once, and the exchange is appended to the log |
| `FlashSpec.PollTraceShape` | flashmem.py:40-41 | the busy-wait polls at least once; the last poll found the device ready and every earlier one found it busy; none is a page program |
| `FlashSpec.PollsUntilReady` | flashmem.py:40-41 | against a stream busy for K polls and then ready, the busy-wait makes exactly K + 1 polls and leaves the rest of the stream unread |
| `FlashSpec.ProgrammingWrites` | flashmem.py:37-49 | the program loop sends exactly one page-program frame per page, in order, page k at the sum of the earlier pages' lengths |
| `FlashSpec.ProgrammingWaitsForReady` | flashmem.py:40-46 | every page-program frame comes right after a poll that found the device ready |
| `FlashSpec.ProgrammedCells` | flashmem.py:37-49 | after the program loop, each cell under the image holds the old cell ANDed with the image byte, and every other cell is unchanged |
| `FlashSpec.ReadOfPage` | flashmem.py:55 | page k is read from address 256·k and compared with the image's bytes from there |
| `FlashSpec.StoredImageReadsBack` | flashmem.py:52-62 | if the device holds the image from address 0, every page reads back equal |
| `FlashSpec.MismatchDetected` | flashmem.py:56-59 | an image byte the device does not hold makes its page compare unequal |
| `FlashSpec.ReadBackMatchesIffStored` | flashmem.py:52-62 | every page reads back equal if and only if the device holds the image byte for byte |
| `FlashSpec.ProgrammedImageVerifies` | flashmem.py:37-62 | after programming, every page reads back equal if and only if each image byte ANDed into its old cell comes out unchanged; in particular whenever the device was blank under the image |
| `FlashSpec.ProgrammingUnerasedFails` | flashmem.py:37-62 | with no erase, a cell that has a bit cleared that the image needs set makes the read-back fail |
| `FlashSpec.ImageFrames` | flashmem.py:43-45 | frame k of an image is 0x02, the bytes of address 256·k, then the image's bytes from 256·k: at most 260 bytes |
| `FlashSpec.ReadsFollowWrites` | flashmem.py:55 | page k is read at the same three address bytes it was written at, and for as many bytes as were written |
| `FlashSpec.GatesWriteNothing` | flashmem.py:21-32 | the identification, write-enable and status exchanges send no page program |
| `Flasher.GetStatus` | flashmem.py:6-7 | a one-byte Read Identification that takes the next byte of the poll stream and logs it |
| `Flasher.WaitReady` | flashmem.py:40-41 | the loop logs exactly the busy-wait's polls and consumes exactly the polls it reads |
| `Flasher.WritePage` | flashmem.py:40-46 | one pass of the program loop: polls until ready, then sends the frame the device stores |
| `Flasher.ProgramImage` | flashmem.py:37-49 | the loop leaves the device and log as `Programming` says, and ends with `address` equal to the total length of the pages |
| `Flasher.ComparePage` | flashmem.py:56-59 | `equal` stays true if and only if it was true and every byte of the page equals the byte read back |
| `Flasher.VerifyImage` | flashmem.py:52-60 | the loop reads every page at its address, changes nothing on the device, and ends with `equal` true if and only if every page read back equal |
| `Flasher.Flash` | flashmem.py:21-60 | the script stops after the identification read if and only if the ID is not 0x2020, and after the status read if and only if the latch is clear, with no other exchange; otherwise it programs and reads back as specified |

## Left out

- The pyftdi transport and the adapter setup (lines 2, 17-19) are foreign code and hardware. They are replaced by `Bus` and the mock device.
- Argument checking and file reading (lines 9-15) are process and file-system I/O. The image is a parameter.
- `sleep(0.01)` and the 1e4 clock frequency (lines 19, 41) are timing. Each poll is one step.
- The `print` messages and `exit` calls (lines 10-11, 23-24, 31-32, 58, 63) are presentation. The ways a run ends are the values of `Outcome`.
- A device that stays busy forever is not modelled, because the poll stream is finite. Once the stream runs out, the device reads ready.
- The mock's status register is a fixed value of the device state. Write Enable does not set the latch in the mock, and a page program neither needs it nor clears it. The script reads the register only once, right after Write Enable. A real M25P16 ignores a Page Program sent while the latch is clear and clears the latch after each one, so with the single Write Enable of line 27 it would store only the first page.
- The one-byte 0x9F poll of lines 7 and 40 is answered from a stream that is an input of the model. A real M25P16 answers it with its manufacturer byte 0x20, whose bit 0x1 is clear, so on the chip the busy-wait would end after one poll, never waiting for a write to finish.
- The mock decodes all 24 address bits. A real M25P16 holds 2 MiB and ignores the address bits above the 21st.
- The mock stores a page program at consecutive addresses. It does not model the M25P16's wrap-around inside a 256-byte page, which the script never triggers: its page addresses are multiples of 256 and its pages are at most 256 bytes.
- The mock's Fast Read answers without the dummy byte that the real device expects after the address. The script sends none, and the model keeps the script's frame. On a real M25P16 the reply would lag one byte behind the address, so every page would read back shifted.
- Erase, protection bits and timeouts do not occur in the script and are not modelled.
- `FlashSpec.ProgrammedCells`: holds for the mock, not for a real M25P16. On the chip, the single Write Enable lets only the first page be stored, so the cells under every later page would stay unchanged.
- `FlashSpec.ProgrammedImageVerifies`: holds for the mock, not for a real M25P16. On the chip, only the first page would be stored (single Write Enable), every page would read back shifted by one byte (no dummy byte), and the busy-wait would not wait (0x9F poll). So the read-back of an image written into a blank chip would in general fail.
- `FlashSpec.ProgrammingUnerasedFails`: holds for the mock; on a real M25P16 the read-back fails in more cases than this, for the reasons given for `FlashSpec.ProgrammedImageVerifies`.
- `FlashSpec.StoredImageReadsBack`: holds for the mock, not for a real M25P16, whose Fast Read without the dummy byte returns each page shifted by one byte.
- `FlashSpec.ReadBackMatchesIffStored`: holds for the mock, not for a real M25P16, for the same reason as `FlashSpec.StoredImageReadsBack`.
- `FlashSpec.MismatchDetected`: holds for the mock, not for a real M25P16, for the same reason as `FlashSpec.StoredImageReadsBack`.
- `FlashSpec.ReadOfPage`: holds for the mock, not for a real M25P16, whose reply to the script's Fast Read starts one byte late.
- `FlashSpec.PollsUntilReady`: holds for a device that answers the poll with the given stream; a real M25P16 answers 0x20 to every poll, so the busy-wait would stop at once.
- `FlashSpec.ProgrammedCells`: stated only for images of at most 2^24 bytes. Past that, the three address bytes wrap and later pages overwrite earlier ones.
- `FlashSpec.ReadOfPage`: stated only for images of at most 2^24 bytes, for the same reason.
- `FlashSpec.StoredImageReadsBack`: stated only for images of at most 2^24 bytes, for the same reason.
- `FlashSpec.MismatchDetected`: stated only for images of at most 2^24 bytes, for the same reason.
- `FlashSpec.ReadBackMatchesIffStored`: stated only for images of at most 2^24 bytes, for the same reason.
- `FlashSpec.ProgrammedImageVerifies`: stated only for images of at most 2^24 bytes, for the same reason.
- `FlashSpec.ProgrammingUnerasedFails`: stated only for images of at most 2^24 bytes, for the same reason.

## Findings

| source | as written | input that shows it | evidently intended | confidence | as-written member | corrected member |
|---|---|---|---|---|---|---|
| flashmem.py:21-22 | `jedec_id != 0x2020` compares the byte string returned by `exchange` with an int, which in Python 3 is never equal, so every device is reported as not detected | the reply 0x20 0x20 of an M25P16 | the two reply bytes decoded most significant first and compared with 0x2020 | not executed | `Wire.IdCheckAsWrittenRejectsM25P16` | `Wire.IdMatches` |
