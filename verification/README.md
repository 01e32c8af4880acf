# Boot loaders, host loader and queues: a verified model

This project models the parts of the Adelino firmware tree that move bytes into
flash memory and between interrupt handlers and main programs, and proves what
they are for, over every input, every sequence of requests and every
interleaving.

| file | models |
|---|---|
| Bytes.dfy | eight- and sixteen-bit numbers, AND and OR, remainders |
| Flash.dfy | the self-programmable flash: page erase, page buffer, page write |
| UsbEndpoint.dfy | OUT packets as a stream of bytes |
| UsbTransfer.dfy | the IN bank of the CDC interfaces, waits that are given up, and bulk transfers |
| DfuSpec.dfy | the DFU class boot loader: the effect of one control request |
| DfuMemory.dfy | chip erase, blank check, download, upload, read-back |
| DfuPageOps.dfy | the order of page erases, fills and writes |
| DfuStream.dfy | the discard loop, and what a read depends on |
| DfuUnaligned.dfy | for which ranges the programming loop is right |
| DfuEeprom.dfy | EEPROM download, upload and read-back |
| DfuHost.dfy | the requests of a host in packets of the endpoint size, and for which of them the device stores what is meant |
| DfuRuns.dfy | whole runs: reachable states, two-step exit, secure mode |
| DfuStatus.dfy | the states and statuses the DFU boot loader reports, as numbers |
| DfuQueries.dfy | what the host learns, and what it can cause, over a few requests |
| DfuFirmware.dfy | the DFU boot loader as a class with the loops of its source |
| RingBuffer.dfy, RingInterleaving.dfy | the LUFA ring buffer: as a class, and step by step between two threads |
| UartBridge.dfy | the 256-byte UART ring of Adelino and the way to USB, shared with the program's own bytes, with interrupts, host and timer anywhere |
| Avr109.dfy, AdelinoFirmware.dfy | the AVR109 programmer of Adelino: meaning, session refinement, and the class with its loops |
| CdcLoader.dfy, CdcFirmware.dfy | the CDC class boot loader: its own commands, loops and packets, and its agreement with the former |
| CdcCommands.dfy | the other commands of the CDC boot loader: answers, chip erase, exit, single bytes, lock bits |
| AdelinoBoot.dfy | when the Adelino boot loader starts the sketch |
| IntelHex.dfy, HidPipeline.dfy, HidPrograms.dfy | Intel HEX text to image, image to page reports, reports to device flash |
| Scheduler.dfy | the wrapping delay test of the LUFA scheduler |

How it is built. A program that changes variables step by step is a class, and
each of its methods is proved to have the effect of a function on the value of
those variables; runs, two-run properties and round trips are lemmas about the
functions. Code that interrupts interleave with is a step function over an
explicit state, and the lemmas quantify over every schedule.

Hardware conventions. Address bits above the end of a memory are ignored.
Programming ANDs the page buffer into the page and empties the buffer, and so
does enabling the RWW section. Reading an empty OUT bank gives 0. A device is
detached when the packets of a data stage, or the turns of its IN bank, run out.
On the IN side of the CDC interfaces the parameter `waits` says for each wait
whether the bank became free in time or the wait was given up, and a byte
written to a bank that is not free is lost. For the AVR109 programmer the turns
say when the timer fires and which bytes of a command are late. boot_lock_bits_set clears the lock
bits that are set in its argument.
The bytes that lie beside the two three-byte tables of the DFU READ command are
the parameter `stray`. Page size, boot section, endpoint size and signature are
parameters.

Where code and documentation differ, the model follows the code:

- CLRSTATUS only clears the status; section 6.1.3 of the USB DFU class
  specification 1.1 also returns the device to idle.
- RingBuffer_IsFull compares with an eight-bit size, so it is right for buffers
  of up to 255 bytes only (`FullTestExact`).
- The receive interrupt of USBtoSerial inserts without a test for a free place
  (`UncheckedInsertExact` gives the exact condition, `OverrunReplacesOldest` what
  is lost).
- Chip erase in the DFU boot loader writes the page buffer to page 0. After a
  download that was cut off the buffer is not empty and page 0 is not blank
  (`EraseThenBlankCheck`, `EraseAfterCutOff`).
- DiscardFillerBytes spends a turn on every packet it fetches, and so drops one
  byte too few for each (`DiscardExact`). With packets of 32 bytes the first one
  ends with the filler, and the alignment bytes of any start that is no multiple
  of 32 are in the next: the data of such a download, to flash or to EEPROM, are
  stored shifted by one byte (`EepromStoredShifted`, `FlashStoredShifted`; for
  instance `EepromFailingInput`, `FlashFailingInput`).
- A DFU download to flash counts the words of a page from the start of the range.
  It is right for every payload if and only if the range starts a page or stays
  in one and everything before the firmware fits the first packet
  (`DownloadRightExactly`); a download to EEPROM if and only if the latter holds
  (`EepromRightExactly`).
- In dfuERROR, UPLOAD takes a READ of the signature for a failed blank check and
  returns the start address (`ReadThenUpload`).
- A DFU packet that is odd or empty is read as if it were filled up with zeros
  (`TakePadded`).
- The DFU start-application command loads the jump address only if the host
  announces other than the bytes of the command (`StartThenExit`).
- The AVR109 protocol has 'C' load the high byte of a word; in the CDC boot loader
  both 'C' and 'c' load the low byte and clear the high one (`ByteFills`).
- CDC_Task of the CDC boot loader drops what follows a command in its packet
  (`RestKeptExactly`, `SharedPacketDropsCommand`); the Adelino boot loader does
  not.
- usb_write_byte and usb_flush of Adelino do not wait for a free bank once Timeout
  is 0, and then lose bytes (`LossExactly`); starting the ESP8266 bridge or
  resetting the ESP8266 throws away the bytes in the ring.
- A DFU download of a full 64 KB range programs nothing (`EmptyDownload`).
- The 'A' command of AVR109 shifts in a sixteen-bit int; it is right for word
  addresses below 0x4000 exactly (`AddressExact`).
- The HID host sends shifted page addresses for 64 KB parts, whose boot loader
  reads plain ones (`HeaderExact`), so that nothing arrives there from address
  0x100 on (`SixtyFourKUntouched`); and it sends the last block of a 64 KB image
  blank (`MaskedByteArrives`).
- An Intel HEX base of 0xFFFF0000 makes the 32-bit range test wrap
  (`StrayExact`).
- RingBuffer_Insert and RingBuffer_Remove do not test for a full or an empty
  buffer; their contracts say what then happens.

## Model

| member | source | states |
|---|---|---|
| FlashMemory.PageProgramExact | Firmware/lufa-LUFA-111009/Bootloaders/HID/BootloaderHID.c:133-153 | erase, fill and write of a page from an empty buffer: the page holds the data and then erased bytes, nothing else changed, the buffer is empty |
| FlashMemory.RwwDiscards | Firmware/adelino/Adelino.c:912-926 | enabling the RWW section discards what was filled: a page write after it programs nothing |
| UsbEndpoint.TakeExact | Firmware/lufa-LUFA-111009/Bootloaders/DFU/BootloaderDFU.c:272-287 | reading does not depend on how the bytes were cut into non-empty packets of whole units |
| UsbEndpoint.TakePadded | Firmware/lufa-LUFA-111009/Bootloaders/DFU/BootloaderDFU.c:272-287 | reading in units, for every packetisation: the bytes of the host with each odd packet filled up with zeros and an empty one read as zeros, as far as they go |
| DfuSpec.FirstDirty | Firmware/lufa-LUFA-111009/Bootloaders/DFU/BootloaderDFU.c:641-664 | the least address below the limit that is not erased |
| DfuMemory.EraseFromExact | Firmware/lufa-LUFA-111009/Bootloaders/DFU/BootloaderDFU.c:709-723 | byte by byte, what the erase loop leaves: the first page gets the page buffer, the other pages are erased, the rest is untouched |
| DfuMemory.BlankCheckExact | Firmware/lufa-LUFA-111009/Bootloaders/DFU/BootloaderDFU.c:639-665 | an error if and only if the application section is not blank, with the first such address in Flash64KBPage:StartAddr; otherwise no change at all |
| DfuMemory.EraseThenBlankCheck | Firmware/lufa-LUFA-111009/Bootloaders/DFU/BootloaderDFU.c:707-727 | chip erase blanks the application section if and only if the page buffer was empty for the first page; it empties the buffer, lifts secure mode and spares an aligned boot section |
| DfuMemory.DownloadExact | Firmware/lufa-LUFA-111009/Bootloaders/DFU/BootloaderDFU.c:241-318 | a download to a range that starts a page or stays in one, in any packets: the range holds the bytes the device reads as firmware, the rest of the pages it touches is erased, all other pages and all other variables are as stated |
| DfuMemory.ProgramWordsExact | Firmware/lufa-LUFA-111009/Bootloaders/DFU/BootloaderDFU.c:269-311 | the programming loop from any point inside a page, over any number of pages |
| DfuMemory.ProgramWithinPage | Firmware/lufa-LUFA-111009/Bootloaders/DFU/BootloaderDFU.c:269-311 | the programming loop for words that stay in the page they start in |
| DfuUnaligned.LoopRightExactly | Firmware/lufa-LUFA-111009/Bootloaders/DFU/BootloaderDFU.c:263-311 | the programming loop, given n bytes, is right for all of them if and only if they start a page, or start at an even address and do not leave the page |
| DfuStream.DiscardExact | Firmware/lufa-LUFA-111009/Bootloaders/DFU/BootloaderDFU.c:506-526 | n turns discard n bytes if and only if the current packet holds them |
| DfuStream.TakeAlike | Firmware/lufa-LUFA-111009/Bootloaders/DFU/BootloaderDFU.c:272-287 | bytes that are read do not depend on later ones, and on one fewer when a packet cuts a word |
| DfuHost.ReadAsMeant | Firmware/lufa-LUFA-111009/Bootloaders/DFU/BootloaderDFU.c:249-287 | for every packetisation, what the device reads as firmware is what the host means if and only if the first packet holds command, filler and alignment and no later packet is empty or cuts a unit |
| DfuHost.DownloadRightExactly | Firmware/lufa-LUFA-111009/Bootloaders/DFU/BootloaderDFU.c:241-318 | a download of a host, in packets of the endpoint size, is right for every payload if and only if the range starts a page or stays in one and command, filler and alignment fit the first packet; for 32 bytes, if the start is a multiple of 32 |
| DfuHost.FlashStoredShifted | Firmware/lufa-LUFA-111009/Bootloaders/DFU/BootloaderDFU.c:249-311 | with packets of 32 bytes and another start the flash gets a filler byte and the payload one byte too far |
| DfuHost.FlashFailingInput | Firmware/lufa-LUFA-111009/Bootloaders/DFU/BootloaderDFU.c:249-311 | for instance bytes 2 to 5, which stay in their page |
| DfuPageOps.DownloadErasesBeforeWrite | Firmware/lufa-LUFA-111009/Bootloaders/DFU/BootloaderDFU.c:263-311 | every download, whatever its range, packets and end, is a sequence of page operations in which every page write comes after an erase of that page with nothing but fills between |
| DfuMemory.EmptyDownload | Firmware/lufa-LUFA-111009/Bootloaders/DFU/BootloaderDFU.c:256-261 | a range whose sixteen-bit length has no whole word programs nothing and only erases its first page |
| DfuMemory.EmptyRanges | Firmware/lufa-LUFA-111009/Bootloaders/DFU/BootloaderDFU.c:256-261 | these ranges are exactly the single byte and the 64 KB ones |
| DfuMemory.CutOffDownloadStays | Firmware/lufa-LUFA-111009/Bootloaders/DFU/BootloaderDFU.c:279-283 | a download given up anywhere leaves the words since the last committed page in the page buffer |
| DfuQueries.EraseAfterCutOff | Firmware/lufa-LUFA-111009/Bootloaders/DFU/BootloaderDFU.c:707-727 | a download given up anywhere, ABORT and chip erase leave the application section blank if and only if every byte since the last committed page is 0xFF |
| DfuMemory.SendExact | Firmware/lufa-LUFA-111009/Bootloaders/DFU/BootloaderDFU.c:392-415 | whatever was uploaded so far has left in full packets or is in the bank, in order |
| DfuMemory.UploadExact | Firmware/lufa-LUFA-111009/Bootloaders/DFU/BootloaderDFU.c:376-450 | an upload sends exactly the bytes of the range, all packets but the last full, and returns to dfuIDLE |
| DfuMemory.RoundTrip | Firmware/lufa-LUFA-111009/Bootloaders/DFU/BootloaderDFU.c:376-450 | download, DISP_DATA and UPLOAD of a range return the bytes the device read as firmware |
| DfuHost.EveryPayloadDownloads | Firmware/lufa-LUFA-111009/Bootloaders/DFU/BootloaderDFU.c:241-318 | for every range that starts a page or stays in one and whose alignment fits the first packet, and for every payload, the request of the host is one to which DownloadExact and RoundTrip apply, and they speak of that payload |
| DfuEeprom.EepromDownloadExact | Firmware/lufa-LUFA-111009/Bootloaders/DFU/BootloaderDFU.c:319-341 | a download to EEPROM stores exactly the bytes the device reads as data, cell after cell, for every packetisation, and changes nothing else but the variables of the transfer |
| DfuEeprom.EepromUploadExact | Firmware/lufa-LUFA-111009/Bootloaders/DFU/BootloaderDFU.c:418-446 | an upload of EEPROM sends exactly the bytes of the range and returns to dfuIDLE |
| DfuEeprom.EepromRoundTrip | Firmware/lufa-LUFA-111009/Bootloaders/DFU/BootloaderDFU.c:319-446 | download, DISP_DATA and UPLOAD of an EEPROM range return the bytes the device read, and no other cell changes |
| DfuHost.EepromRightExactly | Firmware/lufa-LUFA-111009/Bootloaders/DFU/BootloaderDFU.c:249-341 | a download of a host to EEPROM is right for every payload if and only if command, filler and alignment fit the first packet; for 32 bytes, if the start is a multiple of 32 |
| DfuHost.EepromStoredShifted | Firmware/lufa-LUFA-111009/Bootloaders/DFU/BootloaderDFU.c:249-341 | with packets of 32 bytes and another start the EEPROM gets a filler byte and the data one cell too far |
| DfuHost.EepromFailingInput | Firmware/lufa-LUFA-111009/Bootloaders/DFU/BootloaderDFU.c:249-341 | for instance cells 1 to 4 |
| DfuRuns.RunsKeepInv | Firmware/lufa-LUFA-111009/Bootloaders/DFU/BootloaderDFU.c:183-499 | in every run only four DFU states occur, and while secure the device is idle or in error, running, not waiting, with flash and EEPROM untouched |
| DfuRuns.SecureNeverReturns | Firmware/lufa-LUFA-111009/Bootloaders/DFU/BootloaderDFU.c:725-726 | secure mode, once lifted, stays lifted |
| DfuRuns.StepKeepsBufferEmpty | Firmware/lufa-LUFA-111009/Bootloaders/DFU/BootloaderDFU.c:297-317 | every request but a download that is cut off leaves the page buffer empty |
| DfuRuns.UninterruptedRunsKeepBufferEmpty | Firmware/lufa-LUFA-111009/Bootloaders/DFU/BootloaderDFU.c:297-317 | so the buffer is empty after every run without such a download |
| DfuRuns.ExitStep | Firmware/lufa-LUFA-111009/Bootloaders/DFU/BootloaderDFU.c:200-211 | only a DNLOAD while waiting to exit ends the main loop |
| DfuRuns.TwoStepExit | Firmware/lufa-LUFA-111009/Bootloaders/DFU/BootloaderDFU.c:128-130 | in every run that ends, a start-application DNLOAD was followed by a further DNLOAD, which ended it |
| DfuRuns.SecureModeNonInterference | Firmware/lufa-LUFA-111009/Bootloaders/DFU/BootloaderDFU.c:535-575 | two secured devices that differ only in their application answer every sequence of requests alike, and no variable differs but the application until an erase has made that equal too |
| DfuRuns.EraseEquates | Firmware/lufa-LUFA-111009/Bootloaders/DFU/BootloaderDFU.c:712-720 | after a chip erase the two flashes are equal |
| DfuQueries.ReadThenUpload | Firmware/lufa-LUFA-111009/Bootloaders/DFU/BootloaderDFU.c:733-744 | READ and UPLOAD return the byte asked for, of the boot loader information or of the signature, also in secure mode; in dfuERROR a signature byte is not returned but the start address |
| DfuQueries.RefusalIsReported | Firmware/lufa-LUFA-111009/Bootloaders/DFU/BootloaderDFU.c:535-552 | a refused command is stalled and the next GETSTATUS reports errWRITE and dfuERROR; CLRSTATUS leaves dfuERROR, ABORT ends it |
| DfuQueries.BlankCheckThenUpload | Firmware/lufa-LUFA-111009/Bootloaders/DFU/BootloaderDFU.c:364-369 | after a failed blank check UPLOAD returns the first non-blank address, little-endian |
| DfuQueries.StartThenExit | Firmware/lufa-LUFA-111009/Bootloaders/DFU/BootloaderDFU.c:673-706 | start-application and an empty DNLOAD end the main loop if and only if a jump was asked for, otherwise the watchdog runs; the jump address is loaded if and only if a jump was asked for and wLength is not the length of the command |
| DfuQueries.SelectedPageIsProgrammed | Firmware/lufa-LUFA-111009/Bootloaders/DFU/BootloaderDFU.c:569-573 | the 64 KB page selected by CHANGE_BASE_ADDR is where the next download goes |
| DfuStatus.StateAndStatus | Firmware/lufa-LUFA-111009/Bootloaders/DFU/BootloaderDFU.c:452-485 | GETSTATE answers 2, 5, 9 or 10 in the four states that occur, GETSTATUS the same in its fifth byte and 0, 3 or 5 in its first; neither changes state or status |
| DfuStatus.StateAfterEveryRun | Firmware/lufa-LUFA-111009/Bootloaders/DFU/BootloaderDFU.c:452-485 | so after every run |
| DfuStatus.FreshDevice | Firmware/lufa-LUFA-111009/Bootloaders/DFU/BootloaderDFU.c:43-93 | a device out of reset reports [0,0,0,0,2,0] |
| DfuStatus.SecureFromReset | Firmware/lufa-LUFA-111009/Bootloaders/DFU/BootloaderDFU.c:535-552 | started secure it refuses DISP_DATA and reports it, started without it serves it |
| DfuStatus.StatusAfterDisplay | Firmware/lufa-LUFA-111009/Bootloaders/DFU/BootloaderDFU.c:628-637 | after DISP_DATA GETSTATUS reports [0,0,0,0,9,0] |
| DfuStatus.StatusDuringDownload | Firmware/lufa-LUFA-111009/Bootloaders/DFU/BootloaderDFU.c:597-622 | while a download is open, complete or not, [0,0,0,0,5,0] |
| DfuStatus.StatusAfterBareCommand | Firmware/lufa-LUFA-111009/Bootloaders/DFU/BootloaderDFU.c:239-244 | after PROG_START without data [0,0,0,0,2,0], with the page erased |
| DfuStatus.EmptyDnloadCloses | Firmware/lufa-LUFA-111009/Bootloaders/DFU/BootloaderDFU.c:237-244 | a DNLOAD without data ends an open download: [0,0,0,0,2,0], with the memories untouched |
| DfuStatus.StatusAfterFailedBlankCheck | Firmware/lufa-LUFA-111009/Bootloaders/DFU/BootloaderDFU.c:639-665 | after a failed blank check [5,0,0,0,10,0] |
| DfuStatus.UploadOfNothing | Firmware/lufa-LUFA-111009/Bootloaders/DFU/BootloaderDFU.c:353-450 | an UPLOAD of a block that a later command has made neither flash nor EEPROM is empty and ends in idle |
| DfuStatus.OtherRequests | Firmware/lufa-LUFA-111009/Bootloaders/DFU/BootloaderDFU.c:183-194 | requests to another recipient are ignored, and unknown ones only leave their length behind |
| DfuFirmware.Bootloader.constructor | Firmware/lufa-LUFA-111009/Bootloaders/DFU/BootloaderDFU.c:43-93 | the state out of reset |
| DfuFirmware.Bootloader.MemProg | Firmware/lufa-LUFA-111009/Bootloaders/DFU/BootloaderDFU.c:597-622 | has the effect of ProcessMemProgCommand on the state and changes nothing else |
| DfuFirmware.Bootloader.MemRead | Firmware/lufa-LUFA-111009/Bootloaders/DFU/BootloaderDFU.c:628-666 | the blank check loop finds the first byte that is not erased |
| DfuFirmware.Bootloader.EraseApplication | Firmware/lufa-LUFA-111009/Bootloaders/DFU/BootloaderDFU.c:709-723 | the erase loop |
| DfuFirmware.Bootloader.WriteCommand | Firmware/lufa-LUFA-111009/Bootloaders/DFU/BootloaderDFU.c:671-728 | start application and chip erase |
| DfuFirmware.Bootloader.ProcessCommand | Firmware/lufa-LUFA-111009/Bootloaders/DFU/BootloaderDFU.c:532-575 | the secure-mode gate and the dispatch, and when the transaction is stalled |
| DfuFirmware.Bootloader.ReadCommandBytes | Firmware/lufa-LUFA-111009/Bootloaders/DFU/BootloaderDFU.c:222-234 | the loop that loads a command and its parameters, and what remains of the packet |
| DfuFirmware.Bootloader.DiscardFillerBytes | Firmware/lufa-LUFA-111009/Bootloaders/DFU/BootloaderDFU.c:506-526 | the discard loop, which drops one byte fewer for every packet it fetches |
| DfuFirmware.Bootloader.WriteFlash | Firmware/lufa-LUFA-111009/Bootloaders/DFU/BootloaderDFU.c:258-311 | the programming loop, also when it is cut off |
| DfuFirmware.Bootloader.WriteEeprom | Firmware/lufa-LUFA-111009/Bootloaders/DFU/BootloaderDFU.c:319-341 | the EEPROM loop, also when it is cut off |
| DfuFirmware.Bootloader.ReceiveFirmware | Firmware/lufa-LUFA-111009/Bootloaders/DFU/BootloaderDFU.c:249-344 | filler, alignment, firmware and suffix of a download |
| DfuFirmware.Bootloader.ReceiveDataStage | Firmware/lufa-LUFA-111009/Bootloaders/DFU/BootloaderDFU.c:213-346 | the data stage of DNLOAD |
| DfuFirmware.Bootloader.Put | Firmware/lufa-LUFA-111009/Bootloaders/DFU/BootloaderDFU.c:394-408 | one unit into the IN bank, sending a full bank first, or giving up when it does not become free |
| DfuFirmware.Bootloader.SendFlash | Firmware/lufa-LUFA-111009/Bootloaders/DFU/BootloaderDFU.c:381-415 | the flash upload loop, also when it is cut off |
| DfuFirmware.Bootloader.SendEeprom | Firmware/lufa-LUFA-111009/Bootloaders/DFU/BootloaderDFU.c:420-442 | the EEPROM upload loop, also when it is cut off |
| DfuFirmware.Bootloader.SendBlock | Firmware/lufa-LUFA-111009/Bootloaders/DFU/BootloaderDFU.c:376-446 | the block announced by DISP_DATA |
| DfuFirmware.Bootloader.HandleDnload | Firmware/lufa-LUFA-111009/Bootloaders/DFU/BootloaderDFU.c:200-352 | the DNLOAD request |
| DfuFirmware.Bootloader.HandleUpload | Firmware/lufa-LUFA-111009/Bootloaders/DFU/BootloaderDFU.c:353-451 | the UPLOAD request |
| DfuFirmware.Bootloader.ControlRequest | Firmware/lufa-LUFA-111009/Bootloaders/DFU/BootloaderDFU.c:183-499 | every request has the effect and the response that DfuSpec.Step gives it; what these are in numbers is stated by DfuStatus and DfuQueries |
| DfuFirmware.Bootloader.Run | Firmware/lufa-LUFA-111009/Bootloaders/DFU/BootloaderDFU.c:128-130 | the main loop reaches the state and gives the responses that the theorems about runs speak of |
| RingBuffer.RingBuffer.InitBuffer | Firmware/lufa-LUFA-111009/LUFA/Drivers/Misc/RingBuffer.h:131-146 | an empty buffer over the given storage, with the size cut to eight bits |
| RingBuffer.RingBuffer.GetCount | Firmware/lufa-LUFA-111009/LUFA/Drivers/Misc/RingBuffer.h:163-174 | the number of queued bytes |
| RingBuffer.RingBuffer.IsEmpty | Firmware/lufa-LUFA-111009/LUFA/Drivers/Misc/RingBuffer.h:207-210 | whether nothing is queued |
| RingBuffer.RingBuffer.Insert | Firmware/lufa-LUFA-111009/LUFA/Drivers/Misc/RingBuffer.h:236-251 | appends the byte to the contents; the buffer stays a queue if and only if a place was free, and on a full one the oldest byte is written over |
| RingBuffer.RingBuffer.Remove | Firmware/lufa-LUFA-111009/LUFA/Drivers/Misc/RingBuffer.h:264-281 | takes the oldest byte off the contents; the buffer stays a queue if and only if it held a byte |
| RingBuffer.RingBuffer.Peek | Firmware/lufa-LUFA-111009/LUFA/Drivers/Misc/RingBuffer.h:290-293 | the oldest byte, without a change; for an empty buffer the byte where the next one will be stored |
| RingBuffer.RingBuffer.GetFreeCount | Firmware/lufa-LUFA-111009/LUFA/Drivers/Misc/RingBuffer.h:189-192 | the free places, right if and only if there are at most 255 places, and what else it returns |
| RingBuffer.RingBuffer.IsFull | Firmware/lufa-LUFA-111009/LUFA/Drivers/Misc/RingBuffer.h:221-224 | whether there is no free place, for up to 255 of them |
| RingBuffer.FullTestExact | Firmware/lufa-LUFA-111009/LUFA/Drivers/Misc/RingBuffer.h:131-142 | the test is right at every fill level if and only if the capacity is at most 255 |
| RingInterleaving.RunsKeepInv | Firmware/lufa-LUFA-111009/LUFA/Drivers/Misc/RingBuffer.h:236-281 | the invariant of the shared ring holds after every schedule of micro-steps |
| RingInterleaving.StoreKeepsPending | Firmware/lufa-LUFA-111009/LUFA/Drivers/Misc/RingBuffer.h:240-240 | the producer never writes over a byte that is yet to be removed |
| RingInterleaving.Linearizable | Firmware/lufa-LUFA-111009/LUFA/Drivers/Misc/RingBuffer.h:245-276 | the queue changes only at the two counter updates, by one byte at its ends |
| RingInterleaving.QueueIsStored | Firmware/lufa-LUFA-111009/LUFA/Drivers/Misc/RingBuffer.h:110-118 | the storage array and pointers represent exactly that queue |
| RingInterleaving.FifoUnderEverySchedule | Firmware/lufa-LUFA-111009/Projects/USBtoSerial/USBtoSerial.c:101-121 | removed bytes are a prefix of inserted ones, the drain loop never looks at an empty ring, the byte sent is the byte removed, and giving up after a send error loses and repeats nothing |
| RingInterleaving.InsertedAreOffered | Firmware/lufa-LUFA-111009/LUFA/Drivers/Misc/RingBuffer.h:236-251 | under every schedule, what was inserted and the byte in the producer's hands are exactly the bytes offered to an idle producer with a free place, in order |
| RingInterleaving.InsertCompletes | Firmware/lufa-LUFA-111009/LUFA/Drivers/Misc/RingBuffer.h:236-251 | an Insert makes progress whatever the consumer does between its steps: the offered byte is the next to be counted in |
| RingInterleaving.InsertAppends | Firmware/lufa-LUFA-111009/LUFA/Drivers/Misc/RingBuffer.h:236-251 | alone, it appends the byte to the queue |
| RingInterleaving.RemoveCompletes | Firmware/lufa-LUFA-111009/Projects/USBtoSerial/USBtoSerial.c:101-121 | a turn of the drain loop sends and removes the oldest byte, whatever the producer does between its steps |
| RingInterleaving.UncheckedInsertExact | Firmware/lufa-LUFA-111009/Projects/USBtoSerial/USBtoSerial.c:181-187 | an insert without a test keeps the ring right if and only if there is a free place |
| RingInterleaving.OverrunReplacesOldest | Firmware/lufa-LUFA-111009/Projects/USBtoSerial/USBtoSerial.c:181-187 | on a full ring it replaces the oldest byte |
| UsbTransfer.Transfer | Firmware/adelino/Adelino.c:614-636 | full packets followed by exactly one shorter packet |
| UsbTransfer.TransferCarries | Firmware/adelino/Adelino.c:614-636 | a transfer carries its data |
| UsbTransfer.PutExact | Firmware/adelino/Adelino.c:644-660 | a byte is lost if and only if the bank is not writable and the wait for it is given up; any other byte follows everything sent before |
| UsbTransfer.PutAllExact | Firmware/adelino/Adelino.c:644-660 | nothing is lost if and only if the bytes, whole and in order, follow everything sent before; nothing is lost while the host takes every packet in time |
| UsbTransfer.FlushCarries | Firmware/adelino/Adelino.c:614-636 | a flush sends the whole bank and loses nothing |
| UsbTransfer.FlushedBytesAreOneTransfer | Firmware/adelino/Adelino.c:599-660 | with a host that takes every packet in time the bytes written between two flushes leave as one such transfer, and nothing stays in the bank |
| UsbTransfer.SixteenBytes | Firmware/adelino/Adelino.c:644-660 | a packet holds sixteen bytes |
| UsbTransfer.FlushWhileBusy | Firmware/adelino/Adelino.c:614-636 | a flush while the host has yet to take a packet waits for that and sends an empty packet |
| UsbTransfer.GivenUpWait | Firmware/adelino/Adelino.c:599-660 | after a wait that is given up nothing more is sent, and the bytes are lost |
| UartBridge.PendingSlotSafe | Firmware/adelino/Adelino.c:229-240 | no number of interrupts overwrites a byte whose index was stored before it was loaded |
| UartBridge.ReceiveExact | Firmware/adelino/Adelino.c:229-240 | a received byte is refused if and only if 255 are queued, and otherwise queued last |
| UartBridge.ConservationUnderEverySchedule | Firmware/adelino/Adelino.c:1130-1243 | at every point of every interleaving of interrupt, host, timer and main program: the accepted bytes are, in order, those with a fate and those under way, and exactly the delivered ones are, in order, the UART bytes among all that was written to the host; in the ESP8266 bridge no SLIP END stays in the bank |
| UartBridge.ConservedExactly | Firmware/adelino/Adelino.c:1198-1209 | accepted bytes = UART bytes in packets and bank, byte in flight, ring, in this order, if and only if none was lost or thrown away |
| UartBridge.UntaggedExactly | Firmware/adelino/Adelino.c:1230-1235 | the same for all bytes the host sees if and only if the program has written none of its own |
| UartBridge.LossExactly | Firmware/adelino/Adelino.c:574-612 | a byte is lost exactly by a write to a bank that is not free, which follows only a wait given up because Timeout was 0 |
| UartBridge.DeliveredWhileTimeoutRuns | Firmware/adelino/Adelino.c:599-660 | in every schedule in which Timeout does not run out nothing is lost, and if the ring is not cleared either, conservation holds |
| UartBridge.SlipEndLeavesNothing | Firmware/adelino/Adelino.c:1160-1172 | the flush after a SLIP END leaves nothing in the bank: everything kept so far is in packets |
| UartBridge.ReceiveStep | Firmware/adelino/Adelino.c:229-240 | the interrupt stores and accepts the received byte unless 255 are queued, and changes nothing else |
| UartBridge.AcceptedAreReceived | Firmware/adelino/Adelino.c:229-240 | under every schedule the accepted bytes are the received ones, in order, without those that arrived with 255 queued |
| UartBridge.TakeIsSteps | Firmware/adelino/Adelino.c:1203-1206 | both ways to compile the index increment take the oldest byte |
| UartBridge.WriteIsPut | Firmware/adelino/Adelino.c:599-660 | the test, wait and write of the step machine are usb_write_byte: the byte is put into the pipe and meets its fate |
| UartBridge.OwnIsSteps | Firmware/adelino/Adelino.c:1230-1235 | a byte of the program's own is seen by the host as it is, with its origin |
| UartBridge.WaitEnds | Firmware/adelino/Adelino.c:599-612 | a wait goes on exactly while the host has the bank and Timeout runs |
| UartBridge.FlushIsSteps | Firmware/adelino/Adelino.c:614-636 | the steps of a flush are usb_flush, with the empty packet after a full bank |
| UartBridge.ClearingEmpties | Firmware/adelino/Adelino.c:1134-1150 | starting the ESP8266 bridge and resetting the ESP8266 empty the ring |
| UartBridge.DrainedMeansDelivered | Firmware/adelino/Adelino.c:1203-1209 | once drained and flushed, the UART bytes the host has are the accepted ones that were not lost or thrown away |
| UartBridge.UartPort.ReceiveInterrupt | Firmware/adelino/Adelino.c:229-240 | the byte joins the ring and the accepted ones unless 255 are queued, as in ReceiveStep, and the accounts stay right |
| UartBridge.UartPort.DrainToUsb | Firmware/adelino/Adelino.c:1198-1209 | from any state of the endpoint the drain loop and flush empty ring and bank; the UART bytes of the host are the accepted ones that were not lost or thrown away, and none is lost now if it takes every packet in time |
| UartBridge.UartPort.AnswerStatus | Firmware/adelino/Adelino.c:1230-1235 | the answer to a Ctrl-D writes three bytes of the program's own and leaves the UART bytes as they are |
| UartBridge.UartPort.BridgeTurn | Firmware/adelino/Adelino.c:1155-1172 | a turn of the ESP8266 bridge moves one byte, and after a SLIP END everything kept so far is in packets |
| Avr109.AddressExact | Firmware/adelino/Adelino.c:951-959 | 'A' sets the word address meant if and only if it is below 0x4000 |
| Avr109.AddressSignExtends | Firmware/adelino/Adelino.c:951-959 | what it makes of any address: the low half is right, and the high half is all ones if bit 14 of the word address is set |
| Avr109.FlashBytesConsecutive | Firmware/adelino/Adelino.c:706-722 | from an even address the read loop, which ORs in the low bit, reads consecutive bytes |
| Avr109.CommandRefines | Firmware/adelino/Adelino.c:901-1120 | one command changes flash and address and replies as the plain memory does, whose replies are given byte by byte, and consumes exactly its own bytes |
| Avr109.PlainReply | Firmware/adelino/Adelino.c:934-1038 | the size answered to 'b' is the page size, high byte first, and the signature is answered last byte first |
| Avr109.RepliesExact | Firmware/adelino/Adelino.c:934-1038 | the reply table of the program is that of the protocol, byte by byte |
| Avr109.OtherMemoryRefused | Firmware/adelino/Adelino.c:690-697 | a block for another memory is answered '?' after its header and only sets Timeout and boot mode |
| Avr109.TimeoutAndMode | Firmware/adelino/Adelino.c:912-1048 | which commands set Timeout and boot_mode, and to what |
| Avr109.LeavesInTenTicks | Firmware/adelino/Adelino.c:912-926 | after 'E' the loop ends with the tenth tick and not before |
| Avr109.SessionRefines | Firmware/adelino/Adelino.c:896-1121 | so does every script that keeps to the protocol |
| Avr109.BlockReadsBack | Firmware/adelino/Adelino.c:724-759 | a block that was written is what a read of its address returns |
| Avr109.TimedIsPrefix | Firmware/adelino/Adelino.c:896-908 | whenever the timer fires and whichever bytes are late, the command loop does what some number of commands of an untimed session do and after those at most one command that is cut by Timeout, and stops short only because Timeout or its turns have run out |
| Avr109.CommandLocal | Firmware/adelino/Adelino.c:901-1120 | a command depends only on the bytes it reads |
| Avr109.PromptCommand | Firmware/adelino/Adelino.c:585-597 | a command whose bytes are all there in time is that of an untimed session |
| Avr109.CutHeaderIsRefused | Firmware/adelino/Adelino.c:676-697 | a block whose memory type is not there before Timeout is 0 changes nothing and is answered '?' |
| Avr109.ServedInTime | Firmware/adelino/Adelino.c:896-908 | with a host that is prompt and fewer ticks than Timeout has left and than an 'E' leaves, every command is served |
| AdelinoFirmware.Programmer.constructor | Firmware/adelino/Adelino.c:104-108 | the state at start |
| AdelinoFirmware.Programmer.UsbReadByte | Firmware/adelino/Adelino.c:554-597 | the next byte of the stream, whatever the packets, empty ones included; 0, and the stream untouched, when it is not there before Timeout is 0 |
| AdelinoFirmware.Programmer.UsbWriteByte | Firmware/adelino/Adelino.c:599-660 | one byte into the IN bank, after sending a full one and waiting; it follows everything sent before if and only if it is not lost |
| AdelinoFirmware.Programmer.UsbFlush | Firmware/adelino/Adelino.c:599-636 | flushes, with an empty packet after a full one; whatever the waits, the bank is empty and everything sent is in packets |
| AdelinoFirmware.Programmer.ReadBlock | Firmware/adelino/Adelino.c:706-722 | the read loop of 'g' |
| AdelinoFirmware.Programmer.WriteBlock | Firmware/adelino/Adelino.c:726-755 | the write loop of 'B' |
| AdelinoFirmware.Programmer.ReadWriteMemoryBlock | Firmware/adelino/Adelino.c:676-763 | the minimal block routine |
| AdelinoFirmware.Programmer.DoCommand | Firmware/adelino/Adelino.c:909-1119 | one turn of the command loop |
| AdelinoFirmware.Programmer.Avr109Programmer | Firmware/adelino/Adelino.c:896-1121 | the command loop runs the timed session that TimedIsPrefix speaks of until Timeout has run out, and the packets sent carry its replies if and only if no byte was lost |
| CdcLoader.ReadFlashTurns | Firmware/lufa-LUFA-111009/Bootloaders/CDC/BootloaderCDC.c:211-231 | the read loop with its type test on every turn: for flash it sends what the Adelino read loop sends |
| CdcLoader.ReadEepromTurns | Firmware/lufa-LUFA-111009/Bootloaders/CDC/BootloaderCDC.c:232-239 | for EEPROM it sends the bytes that the word addresses select |
| CdcLoader.WriteFlashTurns | Firmware/lufa-LUFA-111009/Bootloaders/CDC/BootloaderCDC.c:252-271 | the write loop with its type test on every turn: for flash it fills the words of the block and drops a last odd byte |
| CdcLoader.WriteEepromTurns | Firmware/lufa-LUFA-111009/Bootloaders/CDC/BootloaderCDC.c:272-279 | for EEPROM it stores byte after byte |
| CdcLoader.BlocksAgree | Firmware/lufa-LUFA-111009/Bootloaders/CDC/BootloaderCDC.c:188-295 | the block routines of the two programs agree on any input, in reply, address, flash and bytes consumed, if and only if the block is not for the EEPROM |
| CdcLoader.CommandsAgree | Firmware/lufa-LUFA-111009/Bootloaders/CDC/BootloaderCDC.c:353-549 | so do all commands that both programs have |
| CdcLoader.SessionsAgree | Firmware/lufa-LUFA-111009/Bootloaders/CDC/BootloaderCDC.c:353-584 | for every script of these commands, of any size, address and data, and every way of cutting each command into packets, the CDC boot loader gives the replies and leaves the flash and address of the Adelino boot loader |
| CdcLoader.LegalSessionsRefine | Firmware/lufa-LUFA-111009/Bootloaders/CDC/BootloaderCDC.c:353-584 | so a script that keeps to the protocol shows the host the plain memory |
| CdcLoader.RestKeptExactly | Firmware/lufa-LUFA-111009/Bootloaders/CDC/BootloaderCDC.c:577-583 | a task leaves the bytes after its command to the next one if and only if the bytes of the command end a packet |
| CdcLoader.SharedPacketDropsCommand | Firmware/lufa-LUFA-111009/Bootloaders/CDC/BootloaderCDC.c:577-583 | two commands in one packet: the second is dropped, while the Adelino boot loader serves it |
| CdcLoader.EepromReadsBack | Firmware/lufa-LUFA-111009/Bootloaders/CDC/BootloaderCDC.c:188-295 | address, EEPROM write, address and EEPROM read through CDC_Task return the data, for every packetisation of the four commands; the rest of the EEPROM and the flash are untouched |
| CdcLoader.ReplyIsOneTransfer | Firmware/lufa-LUFA-111009/Bootloaders/CDC/BootloaderCDC.c:551-575 | every task answers with one transfer, possibly empty |
| CdcLoader.ServedTasks | Firmware/lufa-LUFA-111009/Bootloaders/CDC/BootloaderCDC.c:353-584 | while the host takes every packet in time, tasks with both endpoints are the tasks SessionsAgree speaks of, and the packets carry their replies |
| CdcLoader.DetachedKeepsPacket | Firmware/lufa-LUFA-111009/Bootloaders/CDC/BootloaderCDC.c:551-583 | when the reply is not taken the packet is not acknowledged: what follows the command in it is there for the next task |
| CdcLoader.GivenUpReply | Firmware/lufa-LUFA-111009/Bootloaders/CDC/BootloaderCDC.c:555-568 | a full bank that is not taken is not followed by an empty packet |
| CdcCommands.AnswersExact | Firmware/lufa-LUFA-111009/Bootloaders/CDC/BootloaderCDC.c:379-465 | the answers of the commands that only answer, and of unknown ones, byte by byte |
| CdcCommands.PageSizeAnswer | Firmware/lufa-LUFA-111009/Bootloaders/CDC/BootloaderCDC.c:467-474 | 'b' answers with the page size, high byte first |
| CdcCommands.ExitEnds | Firmware/lufa-LUFA-111009/Bootloaders/CDC/BootloaderCDC.c:365-371 | 'E' is confirmed and ends the main loop |
| CdcCommands.EraseExact | Firmware/lufa-LUFA-111009/Bootloaders/CDC/BootloaderCDC.c:426-439 | 'e' empties the page buffer and leaves the application section blank if and only if the buffer was empty for the first page |
| CdcCommands.EepromByteCommands | Firmware/lufa-LUFA-111009/Bootloaders/CDC/BootloaderCDC.c:525-543 | 'D' and 'd' write and read the cell that the word address numbers, and move on by one |
| CdcCommands.EepromByteReadsBack | Firmware/lufa-LUFA-111009/Bootloaders/CDC/BootloaderCDC.c:525-543 | a byte written is what is read back at its address |
| CdcCommands.LockBits | Firmware/lufa-LUFA-111009/Bootloaders/CDC/BootloaderCDC.c:441-453 | 'l' clears exactly the lock bits set in its argument, and 'r' shows them |
| CdcCommands.ReadWordIsBlock | Firmware/lufa-LUFA-111009/Bootloaders/CDC/BootloaderCDC.c:512-523 | 'R' answers with the two bytes of a block read, high byte first |
| CdcCommands.ByteFills | Firmware/lufa-LUFA-111009/Bootloaders/CDC/BootloaderCDC.c:482-500 | 'C' and 'c' both fill the current word with their byte in its low half and zero in its high half; 'c' then moves on |
| CdcCommands.ByteProgrammed | Firmware/lufa-LUFA-111009/Bootloaders/CDC/BootloaderCDC.c:482-511 | programmed with 'm' such a word reads as the byte and zero |
| CdcCommands.OtherMemoryRefused | Firmware/lufa-LUFA-111009/Bootloaders/CDC/BootloaderCDC.c:201-207 | a block for another memory is answered '?' after its header |
| CdcFirmware.Bootloader.constructor | Firmware/lufa-LUFA-111009/Bootloaders/CDC/BootloaderCDC.c:50-63 | the state at start |
| CdcFirmware.Bootloader.FetchNextCommandByte | Firmware/lufa-LUFA-111009/Bootloaders/CDC/BootloaderCDC.c:303-322 | the next byte of the stream, whatever the packets |
| CdcFirmware.Bootloader.WriteNextResponseByte | Firmware/lufa-LUFA-111009/Bootloaders/CDC/BootloaderCDC.c:329-348 | one byte into the IN bank; it follows everything sent before if and only if it is not lost |
| CdcFirmware.Bootloader.ReadMemory | Firmware/lufa-LUFA-111009/Bootloaders/CDC/BootloaderCDC.c:215-240 | the read loop over both memories |
| CdcFirmware.Bootloader.WriteMemory | Firmware/lufa-LUFA-111009/Bootloaders/CDC/BootloaderCDC.c:252-280 | the write loop over both memories |
| CdcFirmware.Bootloader.ReadWriteMemoryBlock | Firmware/lufa-LUFA-111009/Bootloaders/CDC/BootloaderCDC.c:188-295 | the block routine |
| CdcFirmware.Bootloader.EraseApplication | Firmware/lufa-LUFA-111009/Bootloaders/CDC/BootloaderCDC.c:426-439 | the erase loop of 'e' |
| CdcFirmware.Bootloader.DoCommand | Firmware/lufa-LUFA-111009/Bootloaders/CDC/BootloaderCDC.c:363-549 | every command has the effect and the reply that CdcLoader.Command gives it, and fetches as many bytes |
| CdcFirmware.Bootloader.CdcTask | Firmware/lufa-LUFA-111009/Bootloaders/CDC/BootloaderCDC.c:353-584 | one task: command, reply as one transfer, rest of the packet dropped unless the device is detached before |
| CdcFirmware.Bootloader.MainLoop | Firmware/lufa-LUFA-111009/Bootloaders/CDC/BootloaderCDC.c:75-79 | the main loop runs FullTasks, whatever waits are given up; with a host that takes every packet in time, the tasks that SessionsAgree speaks of, and the packets carry the replies |
| AdelinoBoot.SketchOnlyIfPresent | Firmware/adelino/Adelino.c:384-459 | in every run the sketch is started only if there was one at reset or a block command was dispatched |
| AdelinoBoot.JumpExactly | Firmware/adelino/Adelino.c:450-459 | the final jump happens exactly from the final loop, in normal mode, with no task running and Timeout 0 |
| AdelinoBoot.BoundedExit | Firmware/adelino/Adelino.c:899-901 | after a block command completes in the final loop, served or answered '?', and the host stays silent, the sketch starts when the timeout has run out, within 60 ticks, and not before |
| AdelinoBoot.BlocksRunInNormalMode | Firmware/adelino/Adelino.c:1039-1048 | every block command runs in normal boot mode |
| AdelinoBoot.ResetExact | Firmware/adelino/Adelino.c:394-409 | an external reset never starts the sketch, power-on does exactly with one, a watchdog reset exactly with one and without the key |
| AdelinoBoot.HoldSelects | Firmware/adelino/Adelino.c:414-445 | how long the button is held selects the boot mode: 20, 80, 187 and 287 ticks |
| AdelinoBoot.HoldWaits | Firmware/adelino/Adelino.c:358-362 | while the button is held and the time of a check is not over, main stays in it |
| AdelinoBoot.ReleaseDecides | Firmware/adelino/Adelino.c:414-452 | where main goes from each check when the button is released |
| AdelinoBoot.OtherModesStay | Firmware/adelino/Adelino.c:454-457 | in any mode but normal main never leaves its final loop by itself |
| AdelinoBoot.ProgrammerEnds | Firmware/adelino/Adelino.c:899-901 | a silent host keeps the AVR109 programmer for 60 ticks, and after 'E' for ten |
| AdelinoBoot.BridgeEnds | Firmware/adelino/Adelino.c:1153-1181 | no silence ends the ESP8266 bridge; a pulse on RTS does, seven ticks later |
| AdelinoBoot.WaitIgnoresHost | Firmware/adelino/Adelino.c:299-312 | during the wait after a reset of the ESP8266, and while a task runs, no byte of the host enters a programmer |
| AdelinoBoot.BlockRestartsTimeout | Firmware/adelino/Adelino.c:1039-1048 | a block command gives 60 ticks again and selects the normal boot, and its data part stops the timer |
| IntelHex.ReadIntelHexExact | Firmware/lufa-LUFA-111009/Bootloaders/HID/HostLoaderApp/hid_bootloader_cli.c:778-883 | a file, with empty lines and with any text after the end record, is read if and only if its records up to the end record fit and its data records have valid checksums; then image and mask are their overlay in order, other bytes 0xFF, and the count is the sum of lengths; bytes are stored outside the image if and only if a record strays |
| IntelHex.LineIsRecord | Firmware/lufa-LUFA-111009/Bootloaders/HID/HostLoaderApp/hid_bootloader_cli.c:823-883 | a line that writes a record does what the record says |
| IntelHex.ReturnedCount | Firmware/lufa-LUFA-111009/Bootloaders/HID/HostLoaderApp/hid_bootloader_cli.c:869-869 | the returned count is at least the number of masked bytes, and equal to it if and only if no data records overlap |
| IntelHex.StrayExact | Firmware/lufa-LUFA-111009/Bootloaders/HID/HostLoaderApp/hid_bootloader_cli.c:841-841 | a data record is stored outside the image if and only if the base is 0xFFFF0000 and the record reaches its end |
| IntelHex.FormatThenRead | Firmware/lufa-LUFA-111009/Bootloaders/HID/HostLoaderApp/hid_bootloader_cli.c:823-883 | the text of every record reads back as that record |
| IntelHex.AcceptedBySum | Firmware/lufa-LUFA-111009/Bootloaders/HID/HostLoaderApp/hid_bootloader_cli.c:869-882 | a data line in range is accepted if and only if the bytes of its text add up to a multiple of 256 |
| IntelHex.OneChecksum | Firmware/lufa-LUFA-111009/Bootloaders/HID/HostLoaderApp/hid_bootloader_cli.c:880-882 | for every record exactly one checksum is right, the two's complement of the sum |
| IntelHex.CorruptLineIsRejected | Firmware/lufa-LUFA-111009/Bootloaders/HID/HostLoaderApp/hid_bootloader_cli.c:880-882 | a line that differs from an accepted one in one byte of address, data or checksum is not accepted |
| IntelHex.ChecksumExample | Firmware/lufa-LUFA-111009/Bootloaders/HID/HostLoaderApp/hid_bootloader_cli.c:880-882 | for instance the record that stores 0x12 at address 0 |
| IntelHex.DigitValues | Firmware/lufa-LUFA-111009/Bootloaders/HID/HostLoaderApp/hid_bootloader_cli.c:836-843 | the value of a digit in either case, and that nothing else is a digit |
| IntelHex.CaseIsIgnored | Firmware/lufa-LUFA-111009/Bootloaders/HID/HostLoaderApp/hid_bootloader_cli.c:836-843 | texts that differ in the case of digits write the same records |
| IntelHex.ExtendedStore | Firmware/lufa-LUFA-111009/Bootloaders/HID/HostLoaderApp/hid_bootloader_cli.c:844-882 | a data record after an extended address record is stored at sixteen or 65536 times its word plus its own address |
| IntelHex.MalformedIsRejected | Firmware/lufa-LUFA-111009/Bootloaders/HID/HostLoaderApp/hid_bootloader_cli.c:831-843 | lines that are too short, have no colon, or whose first fields are no digits are rejected |
| IntelHex.BadDigitIsRejected | Firmware/lufa-LUFA-111009/Bootloaders/HID/HostLoaderApp/hid_bootloader_cli.c:871-882 | so are data lines with other characters among their digits |
| HidPipeline.HeaderExact | Firmware/lufa-LUFA-111009/Bootloaders/HID/HostLoaderApp/hid_bootloader_cli.c:153-159 | host and device agree on a page address if and only if it is 0 or both use the same form |
| HidPipeline.HeaderIsNoCommand | Firmware/lufa-LUFA-111009/Bootloaders/HID/BootloaderHID.c:122-130 | no page report is taken for the start command |
| HidPipeline.HeaderBytes | Firmware/lufa-LUFA-111009/Bootloaders/HID/HostLoaderApp/hid_bootloader_cli.c:153-159 | a header is the page address, low byte first, or without its lowest byte |
| HidPipeline.StartExactly | Firmware/lufa-LUFA-111009/Bootloaders/HID/BootloaderHID.c:122-130 | a report ends the boot loader if and only if its first packet starts with 0xFF 0xFF, on both kinds of parts; the flash is then untouched |
| HidPipeline.ShortReport | Firmware/lufa-LUFA-111009/Bootloaders/HID/BootloaderHID.c:133-153 | a page report that stops short erases its page and programs nothing |
| HidPipeline.PageReport | Firmware/lufa-LUFA-111009/Bootloaders/HID/BootloaderHID.c:109-162 | a report programs its page with its data, however it is cut into packets |
| HidPipeline.LoopExact | Firmware/lufa-LUFA-111009/Bootloaders/HID/HostLoaderApp/hid_bootloader_cli.c:146-164 | the programming loop, served by the device: pages sent hold their part of the image, all other bytes are unchanged, the device stays in its boot loader |
| HidPipeline.HexFileToFlash | Firmware/lufa-LUFA-111009/Bootloaders/HID/HostLoaderApp/hid_bootloader_cli.c:91-177 | end to end, from the records of a file to the flash of a part on which host and device agree about addresses |
| HidPipeline.SixtyFourKUntouched | Firmware/lufa-LUFA-111009/Bootloaders/HID/HostLoaderApp/hid_bootloader_cli.c:153-159 | on a part of exactly 64 KB, where they do not agree, nothing arrives from address 0x100 on |
| HidPipeline.MaskedByteArrives | Firmware/lufa-LUFA-111009/Bootloaders/HID/HostLoaderApp/hid_bootloader_cli.c:899-917 | a byte of the image arrives if and only if it lies below the last 64 KB block; there 0xFF arrives |
| HidPrograms.HostLoader.Clear | Firmware/lufa-LUFA-111009/Bootloaders/HID/HostLoaderApp/hid_bootloader_cli.c:784-790 | image all 0xFF, mask empty, counters reset |
| HidPrograms.HostLoader.ParseDataBytes | Firmware/lufa-LUFA-111009/Bootloaders/HID/HostLoaderApp/hid_bootloader_cli.c:869-882 | the data loop over the image and mask arrays, up to a store outside them |
| HidPrograms.HostLoader.ParseExtensionBytes | Firmware/lufa-LUFA-111009/Bootloaders/HID/HostLoaderApp/hid_bootloader_cli.c:844-868 | extended address records; malformed ones change nothing |
| HidPrograms.HostLoader.ParseHexLine | Firmware/lufa-LUFA-111009/Bootloaders/HID/HostLoaderApp/hid_bootloader_cli.c:823-883 | the line parser |
| HidPrograms.HostLoader.ReadIntelHex | Firmware/lufa-LUFA-111009/Bootloaders/HID/HostLoaderApp/hid_bootloader_cli.c:778-812 | clears the arrays, reads up to the end record, passing over empty lines, and returns the count or a negative number; reports a store outside the arrays exactly when there is one |
| HidPrograms.HostLoader.BytesWithinRange | Firmware/lufa-LUFA-111009/Bootloaders/HID/HostLoaderApp/hid_bootloader_cli.c:885-897 | whether the mask has a byte in the range; false outside the image |
| HidPrograms.HostLoader.GetData | Firmware/lufa-LUFA-111009/Bootloaders/HID/HostLoaderApp/hid_bootloader_cli.c:899-917 | fills the buffer with masked image bytes and 0xFF |
| HidPrograms.HostLoader.Program | Firmware/lufa-LUFA-111009/Bootloaders/HID/HostLoaderApp/hid_bootloader_cli.c:146-164 | produces exactly the reports that LoopExact speaks of |
| HidPrograms.HidBootloader.ProgramPage | Firmware/lufa-LUFA-111009/Bootloaders/HID/BootloaderHID.c:133-149 | the page loop of the device |
| HidPrograms.HidBootloader.SetReport | Firmware/lufa-LUFA-111009/Bootloaders/HID/BootloaderHID.c:109-162 | the SetReport request |
| Scheduler.Timer.HasDelayElapsed | Firmware/lufa-LUFA-111009/LUFA/Scheduler/Scheduler.c:36-69 | the comparison, the update of the stored counter, and that it is never early |
| Scheduler.Timer.PollUntilElapsed | Firmware/lufa-LUFA-111009/LUFA/Scheduler/Scheduler.c:36-69 | reset and then polled on every tick, a delay takes its length, or one tick more when the counter wraps |
| Scheduler.ElapsedExact | Firmware/lufa-LUFA-111009/LUFA/Scheduler/Scheduler.c:51-66 | from which tick on a delay is reported, and that this is never early |
| Scheduler.FiresExactly | Firmware/lufa-LUFA-111009/LUFA/Scheduler/Scheduler.h:147-147 | up to TASK_MAX_DELAY every delay has a first firing tick within one turn of the counter |
| Scheduler.MaximumDelayIsTight | Firmware/lufa-LUFA-111009/LUFA/Scheduler/Scheduler.h:144-147 | a delay ever fires if and only if it is at most TASK_MAX_DELAY or the start is 0 |

## Left out

- Descriptors, the LUFA USB core and class drivers, LEDs, pins, baud rates and line coding requests are not modelled.
- The way from the host to the UART (putch), which copies single bytes, is not modelled.
- The address loaded by the DFU start-application command is stored and not used further.
- TimedIsPrefix: that Timeout does not count while a block is transferred is not part of the turns; they allow a late byte at any point of a command.
- The temporary page buffer of the part takes each word once between two erases; Fill takes the last one. This matters to the commands 'C' and 'c' of the CDC boot loader and to AVR109 blocks longer than a page.
- ReadIntelHex: what happens after a store outside the image arrays is not defined, and the method stops there.
- Leniencies of sscanf: a field is hexadecimal digits, or counts as not matched.
- The start report, the command line, file access and the USB drivers of the host loader.
- Scheduler_SetTaskMode and Scheduler_SetGroupTaskMode, which set the run flag of one task or of a group in the task list, and the loop that calls the flagged tasks are not modelled.
