# saturn-loader and the N25Q128A driver, modelled in Dafny

This project models the command-line loader that writes an FPGA configuration
image into the Micron N25Q128A SPI NOR flash of the Saturn Spartan 6 module,
through an FTDI MPSSE bridge. It has two layers.

- **The flash driver** (`n25q128a.c`, `n25q128a.h`). Every call is one or
  more Start…Stop transactions of command bytes and reads: identify, read,
  read status, read flag status, write enable, write disable, bulk erase,
  sector erase and page program. Erase and program poll the status register
  until "write in progress" clears, then test the flag-status register with a
  mask.
- **The loader** (`saturn-loader.c`). It has three flashing steps:
  - `erase_flash` is a blank-check-then-erase scan over the sectors;
  - `program_flash` programs the image page by page;
  - `validate_flash` reads the image back and compares it.

  Around them sit:
  - the identity gate of `initialize_mpsse`;
  - the PROGRAM_B pin of the FPGA (`set_spartan_program_b`);
  - the goto-style cleanup of `erase_chip` and `flash`;
  - the option parsing and dispatch of `main`.

The bridge is a script of replies (`Transport.Reply`). Every Write, Read and
pin operation takes the next reply: an acknowledgement, with the bytes a Read
returns, or a refusal. An exhausted script refuses everything. Every operation
is therefore a pure function from a script to a `Run`: a result, the trace of
bus events it produced, and the rest of the script. The trace events are
Start, Stop, Write, Read, PinHigh, PinLow and Close, and each records what the
bridge answered. The properties are statements about these traces. These
helpers read them:

- `Commands` lists the transactions;
- `Summarise` sorts the commands into reads, sector erases, page programs and
  chip-changing opcodes;
- `Assess` lists, in order, whether each chip-changing command was accepted
  and the byte each flag-status read brought back;
- `Pins` and `Closes` count the pin operations and closes.

The source's surprising behaviour is kept as written:

- Only when the flag register came back without an erase-fail bit do the
  erases fall through into their `error:` label and send a second Stop; the OK
  returned after a failed flag read sends none.
- A failed flag-status read returns the OK code of the last status read.
- `n25q128a_read` tests the wrong pointer, so a failed payload read returns
  OK with a NULL buffer.
- Where the loader then dereferences that NULL buffer (in `erase_flash`), or
  an uninitialised pointer (in `validate_flash`, after a refused read
  command), the step ends in `Undefined` and the session ends in `Crash`.
- `erase_flash` erases sectors while they are *not* blank and stops at the
  first blank one. It never scans sector 255, and never compares the last
  byte of a sector.

Files:

| file | module | contents |
|---|---|---|
| transport.dfy | Transport | the scripted bridge, trace events, transactions and trace helpers |
| n25q128a.dfy | N25Q128A | constants, command encodings, identity decoding, the nine driver calls |
| n25q128a_proofs.dfy | N25Q128AProofs | encodings, masks and the protocol of every driver call |
| saturn_loader.dfy | SaturnLoader | `erase_flash`, `program_flash`, `validate_flash` |
| saturn_loader_proofs.dfy | SaturnLoaderProofs | erase scan, page split, program discipline, readback |
| saturn_loader_outcomes.dfy | SaturnLoaderOutcomes | acknowledgements and flag answers; the codes the loops return, in both directions |
| session.dfy | Session | identity gate, PROGRAM_B, `erase_chip`, `flash`, `main` |
| session_proofs.dfy | SessionProofs | gate, cleanup paths, the usage grammar, `main` end to end |

## Model

| member | source | states |
|---|---|---|
| N25Q128AProofs.Geometry | n25q128a.h:25-35 | 16 MiB is 65536 pages of 256 bytes and 256 sectors of 65536 bytes. A sector holds 256 pages. The chip is exactly the 24-bit address space. Sector 255 fits an `unsigned char` and page 65535 an `unsigned short`. The identity is 1 + 2 + 17 = 20 bytes. |
| N25Q128AProofs.OpcodesDistinct | n25q128a.h:11-19 | the nine command opcodes are pairwise different |
| N25Q128AProofs.MessagesDistinct | n25q128a.c:158-239 | the bulk erase, sector erase and program failures carry three different error strings |
| N25Q128AProofs.AddressRoundTrip | n25q128a.c:36-39 | the three address bytes decode big-endian to the address modulo 2^24, so the encoding is lossless exactly for addresses on the chip |
| N25Q128AProofs.AddressBytesRoundTrip | n25q128a.c:36-39 | every 3-byte address field is the encoding of the address it decodes to |
| N25Q128AProofs.ReadCommandRoundTrip | n25q128a.c:36-43 | the read command starts with 0x03 and its address field decodes back to the address |
| N25Q128AProofs.SectorEraseCommandBytes | n25q128a.c:173-181 | the sector erase command is exactly `[0xd8, sector, 0x00, 0x00]`, and its address field decodes to sector × 65536 |
| N25Q128AProofs.PageProgramCommandBytes | n25q128a.c:212-220 | the page program command is exactly `[0x02, page / 256, page % 256, 0x00]`, and its address field decodes to page × 256 |
| N25Q128AProofs.IdRoundTrip | n25q128a.c:21-23 | decoding the 20 encoded bytes of an identity gives it back: manufacturer from byte 0, device id `byte2 << 8 \| byte1`, unique id from bytes 3..19 |
| N25Q128AProofs.IdBytesRoundTrip | n25q128a.c:21-23 | the identity decoding loses nothing: re-encoding gives the 20 bytes read |
| N25Q128AProofs.WritingIsBit0 | n25q128a.h:21 | "write in progress" is bit 0 of the status register |
| N25Q128AProofs.EraseFailMask | n25q128a.c:156-159 | an erase is reported failed iff bit 1 or bit 2 of the flag register is set (a mask test, not an equality) |
| N25Q128AProofs.ProgramFailMask | n25q128a.c:237-240 | a page program is reported failed iff bit 0 or bit 2 of the flag register is set |
| N25Q128AProofs.IdentifyProtocol | n25q128a.c:3-29 | identify is one balanced transaction: 0x9f, then a read of 20 bytes only when the write was accepted. It returns an identity iff those bytes came, and that identity encodes them. |
| N25Q128AProofs.ReadDataProtocol | n25q128a.c:31-54 | a read is one balanced transaction of the read command. The code is OK iff the command was accepted; a refused command leaves the buffer unassigned. After an accepted command, a failed payload still returns OK, with a NULL buffer. |
| N25Q128AProofs.RegisterProtocol | n25q128a.c:56-106 | a status or flag-status read is one balanced transaction of its opcode and a 1-byte read, and returns the byte iff it came |
| N25Q128AProofs.LatchProtocol | n25q128a.c:108-132 | write enable and write disable are exactly `Start, Write([opcode]), Stop`, returning OK iff the write was accepted |
| N25Q128AProofs.PollStatusProtocol | n25q128a.c:148-152 | the poll is a run of status reads, one transaction each, repeated while "write in progress" is set. A failed status read ends it with that failure; OK means the last status read came back idle. |
| N25Q128AProofs.AwaitProtocol | n25q128a.c:148-160 | after the poll, the flag register is read only once a status read found the chip idle. The outcome (poll failed, flag unread, flag set, flag clear) is read off the commands. |
| N25Q128AProofs.EraseProtocol | n25q128a.c:134-204 | an erase sends its command, polls and reads the flag register in that order. It fails with its own message iff the flag has an erase-fail bit, with a transport error iff the flag was never read, and returns OK when the flag read itself fails. Start/Stop are balanced except for one extra Stop, sent exactly when the flag register came back without an erase-fail bit; the OK returned after a failed flag read sends none. |
| N25Q128AProofs.BulkEraseProtocol | n25q128a.c:134-166 | the erase protocol for the command `[0xc7]` and the bulk-erase message |
| N25Q128AProofs.SectorEraseProtocol | n25q128a.c:168-204 | the erase protocol for the command `[0xd8, sector, 0, 0]` and the sector-erase message |
| N25Q128AProofs.PageProgramProtocol | n25q128a.c:206-249 | the command and the data are two writes of one transaction with no Stop between, then the poll and one flag read. It fails iff the flag has a program-fail bit, with a transport error iff the flag was never read, and OK when the flag read fails. Start/Stop are balanced on every path. |
| SaturnLoader.CompareSector | saturn-loader.c:28-35 | `matched` is set iff bytes 0..65534 of the sector are all 0xff (the last byte is never compared) |
| SaturnLoaderProofs.EraseSectorProtocol | saturn-loader.c:39-59 | A refused write enable is the only command, and its transport error is returned. Otherwise the body sends write enable, the erase of this sector, and one write disable even when the erase failed. When the erase failed, its code is the one returned, whatever the write disable did. |
| SaturnLoaderOutcomes.EraseSectorWent | saturn-loader.c:39-59 | The same body, by acknowledgements and flag-status answers. OK iff write enable, sector erase and write disable were all accepted, and a flag-status read was attempted and its answer carried no erase-fail bit (a flag read that failed counts, since the driver then returns OK). The sector-erase message iff the flag register came back with an erase-fail bit. A transport error otherwise. |
| SaturnLoaderOutcomes.EraseFromWent | saturn-loader.c:19-59 | The loop from sector k reads sectors k, k+1, … in order. It erases exactly the leading run that is not blank, each erase bracketed by write enable and write disable. Undefined behaviour iff an accepted read brought no payload. Every pass before the last had its three commands accepted and no erase-fail flag, so a failure always ends the loop. OK iff the last read was blank or sector 254 was erased, and every command was accepted, and every erase made a flag-status read whose answer carried no erase-fail bit (a flag read that failed counts, since the driver then returns OK). The sector-erase message iff the last flag read came back with an erase failure. Any other code is a transport error. |
| SaturnLoaderOutcomes.EraseFlashWent | saturn-loader.c:16-60 | `erase_flash` is that loop from sector 0, with the same verdicts; no read is ever of sector 255 |
| SaturnLoaderProofs.PagesRoundTrip | saturn-loader.c:66-89 | the pages concatenate back to the image. There are ceil(L/256) of them, and all but the last are full. |
| SaturnLoaderProofs.PagesFit | saturn-loader.c:66-86 | an image no larger than the chip has at most 65536 pages, so every page number fits the driver's `unsigned short` |
| SaturnLoaderProofs.ProgramPageProtocol | saturn-loader.c:69-96 | Each page gets its own write enable. A refused write enable is followed by a write disable and a transport error. After an accepted write enable, the page program is sent, its payload is the page, a write disable follows only when it failed, and the code returned is the page program's own. |
| SaturnLoaderOutcomes.ProgramPageWent | saturn-loader.c:69-96 | The same page, by acknowledgements and flag-status answers. A refused write enable reads no flag register. After an accepted one: OK iff the page program was accepted and a flag-status read was attempted and its answer carried no program-fail bit (a flag read that failed counts, since the driver then returns OK); the program-failure message iff the flag register came back with one; a transport error otherwise. |
| SaturnLoaderOutcomes.ProgramFromWent | saturn-loader.c:69-96 | The loop sends page programs for pages first, first+1, … modulo 65536, in order, and every page before the last delivered its chunk. Every page before the last had its write enable and page program accepted and no program-fail flag, so a failing page is always the last one and is followed by one write disable. OK iff every chunk was sent, every command was accepted, and no flag-status answer carried a program-fail bit (a flag read that failed counts, since the driver then returns OK). The program-failure message iff the last flag read came back with a program failure. Any other code is a transport error. |
| SaturnLoaderOutcomes.ProgramFlashWent | saturn-loader.c:62-99 | `program_flash` is the page loop over the pages of the image from page 0, then, only after the last page, one write disable. It has the loop's verdicts, with that write disable counted among the commands that must be accepted for OK. |
| SaturnLoaderProofs.ProgramFlashImage | saturn-loader.c:62-99 | when `program_flash` returns OK, the i-th page program is for page i and the payloads concatenate to the image |
| SaturnLoaderProofs.ValidateSemantics | saturn-loader.c:101-118 | One read command for address 0, and when it was accepted one read of exactly L bytes; no chip-changing command. A refused read is undefined behaviour, and a missing payload fails with `matched` cleared. Otherwise OK is returned, with `matched` set iff the bytes read are the image. |
| SessionProofs.InitializeGate | saturn-loader.c:200-220 | a handle is returned iff the device is connected and its identity read back with manufacturer 0x20 and device 0x18ba. The gate sends no chip-changing command and never touches PROGRAM_B; on refusal the device is closed once. |
| Session.SetProgramB | saturn-loader.c:223-232 | value 0 drives the pin high and any other value drives it low, in exactly one pin event, returning OK iff the bridge accepted it |
| SessionProofs.BulkEraseStepsSummary | saturn-loader.c:243-250 | The `erase_chip` work is write enable, bulk erase, write disable, stopping at the first failure. OK iff exactly those three were sent, all were accepted, and a flag-status read was attempted and its answer carried no erase-fail bit (a flag read that failed counts, since the driver then returns OK). The bulk-erase message iff the flag read came back with an erase failure. A transport error otherwise. |
| SessionProofs.EraseChipCleanup | saturn-loader.c:234-272 | With no device it exits 1 without bus traffic. Otherwise the device is closed exactly once, last. PROGRAM_B is either held and then released exactly once, or its hold failed and nothing else happened. Exit 0 iff both pin operations succeeded and the chip got exactly write enable, bulk erase and write disable, all accepted, and one flag-status read attempted whose answer carried no erase-fail bit (a flag read that failed counts, since the driver then returns OK). |
| SessionProofs.EraseChipHealthy | saturn-loader.c:234-272 | The exit-0 side of `EraseChipCleanup` is reachable: on a bridge that identifies a genuine N25Q128A, accepts every write and reports an idle chip, `erase_chip` exits 0, whatever the bridge would answer afterwards. |
| SessionProofs.FlashStepsSummary | saturn-loader.c:338-357 | Success iff the image was flashed. That means the erase scan ended on a blank sector or after sector 254, and every chip-changing command was accepted. Every erase and every page program made a flag-status read whose answer carried no failure bit (a flag read that failed counts, since the driver then returns OK). There is one page program per page, from page 0, carrying the image. Unless skipped, the last read from address 0 brought the image back. Success implies that `erase_flash` returned OK, and after an erase that did not, no page is programmed. |
| SessionProofs.ProgramAndCheckSummary | saturn-loader.c:342-357 | After the erase: success iff every page program was accepted, its flag-status answer carried no program-fail bit (a flag read that failed counts, since the driver then returns OK), and the programs carried the image from page 0, and, unless skipped, the one validation read brought the image back. Validation reads only after a program that went through. |
| SessionProofs.FlashCleanup | saturn-loader.c:274-383 | An empty or oversized or unreadable image, or no device, exits 1 without bus traffic. A failed hold of PROGRAM_B exits 1 having sent nothing that reads the array or changes the chip. Once PROGRAM_B is held, every exit releases it exactly once and closes once, last. Only undefined behaviour leaves it held. Exit 0 iff both pin operations succeeded and the image was flashed, as for `FlashStepsSummary`. |
| SessionProofs.FlashHealthy | saturn-loader.c:274-383 | The exit-0 side of `FlashCleanup` is reachable: for any image of one page, a bridge that identifies the chip, finds sector 0 blank, accepts every write, reports an idle chip and reads the image back makes `flash` exit 0. |
| Session.Dispatch | saturn-loader.c:446-469 | for an options value that is 0 or a single flag, past the two checks the default case of the switch always has a file name to flash |
| SessionProofs.DispatchMatches | saturn-loader.c:446-469 | the checks after the argument loop and the switch on the options agree with the usage grammar |
| SessionProofs.ParseMatchesReference | saturn-loader.c:385-449 | the argument loop accepts exactly the usage grammar. There is at most one file and at most one option; options are exactly two characters and one of `-s -l -e -h -v`. `-s` needs a file, and a file allows no other option. `-h` and an empty command line show the usage. |
| SessionProofs.MainOutcomes | saturn-loader.c:404-472 | A usage error exits 1 and the version banner exits 0, both without bus traffic. Listing exits 0 iff an FTDI context exists. Only `-e` and flashing use the bridge. `-e` exits 0 iff the pins went high then low and the chip was erased as above. Flashing exits 0 iff the pins went high then low, the named file could be read, and its contents were flashed as above. |

## Left out

- `list_devices` (saturn-loader.c:120-173): FTDI enumeration and printing are
  foreign code. The model keeps only whether an FTDI context can be created,
  which decides its exit status.
- The two `OpenIndex` probes and `Close` of the failed probe in
  `initialize_mpsse` (saturn-loader.c:182-198) are foreign code. They become
  the input `connected`: exactly one device is attached and it opened.
- The file loading in `flash` (saturn-loader.c:280-326) is I/O. It becomes a
  map from names to contents. A file that cannot be opened, allocated or read
  in full is absent. The length checks on the contents are modelled.
- The libmpsse calls are not modelled beyond the trace: their internals, the
  ignored results of Start and Stop, `ErrorString`, and the `error_str`
  assignments. The error strings are kept as the message of `ChipError`.
- `sigint_handler`, all printf/stderr text, `fflush`, `free`, and `exit`
  beyond the exit status are not modelled.
- The physical behaviour of the chip (that an erase yields 0xff, that a program
  persists) and poll timing are not modelled. Validation only compares what was
  read back.
- N25Q128AProofs.PollStatusProtocol: the poll loop is unbounded in the
  source. In the model every status read takes a reply from the script, so a
  script that answers "busy" forever is not representable.
