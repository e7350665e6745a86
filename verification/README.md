# Verified model of the USB joystick project

The repository holds the firmware of a USB game pad on an Arduino Uno (an ATmega328P that reads the
buttons and an ATmega16u2 that reports them over USB), a snake game played with it, and the LUFA boot
loaders that put firmware on the USB chip. This project models the parts whose correctness is not obvious
from reading one function, and proves what they do for every input, every packet split and every run.

| component | modules |
|---|---|
| bytes, the self-programmable flash, USB endpoints | `Bytes`, `FlashMemory`, `Endpoints` |
| DFU boot loader | `DfuModel`, `DfuDownload`, `DfuUnaligned`, `DfuPartial`, `DfuEeprom`, `DfuErase`, `DfuSecure`, `DfuBootloader` |
| printer boot loader (streamed Intel HEX) | `PrinterModel`, `PrinterStream`, `PrinterSafety`, `PrinterBootloader` |
| mass storage boot loader (virtual FAT12 disk) | `Fat12`, `VirtualDisk`, `BlockStore`, `VirtualFat` |
| HID boot loader and its host loader | `HidModel`, `HidProgramming`, `HexFile`, `HexAgreement`, `HidLoader` |
| CDC boot loader (AVR109 protocol) | `CdcModel`, `CdcProtocol`, `CdcBlocks`, `CdcPages`, `CdcBootloader` |
| snake game | `SnakeModel`, `SnakeInvariants`, `SnakeRuns`, `SnakeLists`, `SnakeGame` |
| button pipeline | `Buttons` |

`dafny verify dfyconfig.toml` checks everything.

Every stateful component comes in two forms. The *model* is a set of functions on values. The *class*
has the fields, loops and branches of the source, and each of its methods is proved to compute the model
function of the same step. The theorems are proved about the model; the methods that run a whole session,
file or game (`Bootloader.Session`, `Bootloader.ReceiveFile`, `Drive.Session`, `Loader.LoadPrinted`,
`Bootloader.RoundTrip`, `SimpleSnake.Play`) carry them over to the class.

Conventions of the model:

- The packets handed to a handler are all that the host sends. Where the source waits for one more packet,
  the model takes the early return the source makes when the device is unplugged. An empty endpoint bank
  reads as zero. Replies are always collected by the host.
- A flash commit can only clear bits, and it blanks the page buffer. Address lines above the size of a
  memory are not decoded. `boot_rww_enable` and busy waits do nothing. A page fill
  loads a whole word; lock bits can only be programmed.
- Integers are unbounded; every 8-, 16- or 32-bit reduction that the C code relies on is written out.
- Random numbers, keys and interrupt timing are inputs, so a theorem over all inputs covers them all.
- `Overlay(mem, start, data, end)` stands for memory `mem` with `data` at `start`, blanks from the
  end of the data to `end`, and everything else as it was. `Splice(mem, a, data)` is `mem` with `data` at `a`.
- The ordinary block store that the virtual disk refines is a pair of sector arrays and a directory block.
  Like the firmware it takes block addresses modulo 65536; `RangeCheck` says when that matters.

What the proofs found out about the code:

- DFU: parameters that a command packet does not carry keep the values of the previous command. A flash
  download that is cut short leaves its last words in the page buffer, and a chip erase commits that buffer into
  page 0. Only blanks wait in the buffer if since the last chip erase or completed download of at least one word no
  download was cut short, and after exactly one if and only if the words of its unfinished page are blank. A chip
  erase in dfuDNLOAD-IDLE takes the bytes behind its command for data of the download before it and writes them into
  the flash it has just erased. The application section ends blank if and only if only blanks wait in the buffer and
  all words written in this way, to a range in the application section, are blank. A download that starts
  inside a page is laid out page by page from its start, so what reaches into the next page lands there only
  under an exact condition on the bytes. Fetching a packet counts as one discarded alignment byte. So an EEPROM
  download arrives if and only if it starts at a packet boundary or all its bytes equal the last alignment byte; a
  flash download from an even address inside a packet takes its words one byte early, and one from an odd address
  loses its last byte.
- Printer: the last page is written only if the end-of-file record addresses another page. With the usual
  address 0 an image arrives if and only if it fills a page or is blank. Checksums of data records never
  keep bytes from being stored. The address check does not protect the boot section: a record that ends there
  makes that page the current one, and the next word stored erases it. Texts whose records all start and end
  below the boot section are safe.
- Mass storage: writing an even FAT12 entry overwrites four bits of the entry behind it. The FAT is right
  unless EEPROM.BIN is moved so that it ends on the even cluster just before FLASH.BIN. The range check of
  READ(10) and WRITE(10) sees only 16 of the 32 address bits and not the number of blocks.
- HID: a block that reaches the end of the 64 KB host buffer is sent blank. On 64 KB parts the host sends
  page numbers and the device takes them for byte addresses: only the first page is written, and it ends as the
  last block sent, rotated by its number.
- CDC: on 128 KB parts an address command reaches the word it names only in the first and the last
  quarter of the word addresses. A block of odd length loses its last byte, a block is erased by the next one to
  its page, and a block that reaches the end of its page goes on at the beginning of that page. Each byte-wise fill
  loads a whole word, so the high byte of a word sent in two halves is lost.
- Snake: a bonus slot that was already eaten still feeds a snake, and a spawn with no free slot still counts;
  the gap between active slots and `nb_bonus` is exactly the difference of those two tallies. Both happen, and
  `nb_bonus` can fall below zero.

## Model

| member | source | states |
|---|---|---|
| FlashMemory.FillNext | AT16u2/Bootloaders/DFU/BootloaderDFU.c:353-358 | a word buffered behind the data in flight extends that data by exactly its two bytes, low byte first |
| FlashMemory.CommitOpen | AT16u2/Bootloaders/DFU/BootloaderDFU.c:360-366 | committing an erased page makes the buffered data permanent, leaves the rest of the page blank and changes no other page |
| FlashMemory.WriteNext | AT16u2/Bootloaders/MassStorage/Lib/VirtualFAT.c:336-353 | a write that erases at page starts and commits at page ends keeps the memory equal to the data written so far, word after word |
| DfuDownload.WriteWordsReads | AT16u2/Bootloaders/DFU/BootloaderDFU.c:339-378 | however the host cuts its data into packets, odd and empty ones included, the download loop takes exactly the words it wants and programs them |
| DfuDownload.ProgramLays | AT16u2/Bootloaders/DFU/BootloaderDFU.c:339-378 | entered anywhere in a page, and whatever page and buffer hold, the programming loop lays the given words out page by page from the start of the range, erasing every further page before it is filled |
| DfuDownload.LoadRange | AT16u2/Bootloaders/DFU/BootloaderDFU.c:659-671 | a range command recovers start address and byte count, with 16-bit wrap-around |
| DfuDownload.DownloadPrograms | AT16u2/Bootloaders/DFU/BootloaderDFU.c:267-419 | PROG_START from any address, with any packets that hold enough words and whatever the page buffer holds, lays the words taken out page by page, drops an odd last byte and changes nothing else |
| DfuDownload.OverBuffer | AT16u2/Bootloaders/DFU/BootloaderDFU.c:339-378 | what the page buffer held before shows in such a layout only if the words end on their first page and leave part of it |
| DfuPartial.WriteWordsCut | AT16u2/Bootloaders/DFU/BootloaderDFU.c:339-385 | a loop that runs out of packets, entered anywhere in a page, has programmed exactly the pages it has finished and erased the next one |
| DfuPartial.DownloadCutShort | AT16u2/Bootloaders/DFU/BootloaderDFU.c:267-419 | PROG_START from any address with too few words, whatever the page buffer holds: the memory is the layout of the pages finished and one erased page, and the device stays in the download |
| DfuDownload.DownloadLands | AT16u2/Bootloaders/DFU/BootloaderDFU.c:267-419 | after a download that gets all its words exactly which byte of the packets, of the old flash or, behind an odd start, of the page buffer every address of the range holds |
| DfuDownload.DownloadAligned | AT16u2/Bootloaders/DFU/BootloaderDFU.c:267-419 | from a page boundary the flash holds exactly the words sent and a blank rest of the last page; words that end on the first page are followed by what the page buffer held |
| DfuDownload.LayByte | AT16u2/Bootloaders/DFU/BootloaderDFU.c:339-378 | which byte of the range, or of the old flash, every address of a laid out range holds |
| DfuDownload.DownloadArrivesIff | AT16u2/Bootloaders/DFU/BootloaderDFU.c:339-378 | from a packet boundary and whatever the page buffer holds, the words sent are in flash if and only if every word that is laid out on the wrong page was in its place already; InsideArrivesIff is for the other starts |
| DfuDownload.TornRange | AT16u2/Bootloaders/DFU/BootloaderDFU.c:360-375 | a range that fails: 33 words from the middle of a page |
| DfuUnaligned.InsideArrivesIff | AT16u2/Bootloaders/DFU/BootloaderDFU.c:315-378 | from inside a packet, with packets of any size and whatever the page buffer holds, the data arrives if and only if it is what the words from the last alignment byte on, each packet padded by itself, leave in the range |
| DfuUnaligned.EvenTaken | AT16u2/Bootloaders/DFU/BootloaderDFU.c:315-378 | from an even address inside a packet, with packets of whole words, the words are taken one byte early, the last byte of the first packet is paired with a zero, and the rest follows two bytes early |
| DfuUnaligned.EvenArrivesIff | AT16u2/Bootloaders/DFU/BootloaderDFU.c:315-378 | then the data behind the alignment bytes arrives if and only if each of its bytes is the one that the shift and the page layout put in its place |
| DfuUnaligned.EvenArrivesInPage | AT16u2/Bootloaders/DFU/BootloaderDFU.c:315-378 | for a range inside one page: if and only if all bytes from the last alignment byte to the first byte of the second packet are equal, the next byte is zero, and every later byte repeats the one two places before |
| DfuUnaligned.OddArrivesIff | AT16u2/Bootloaders/DFU/BootloaderDFU.c:315-378 | from an odd address, with packets of whole words, the data arrives if and only if the bytes laid out on the wrong page and the last byte are what their places hold |
| DfuUnaligned.OddArrivesInPage | AT16u2/Bootloaders/DFU/BootloaderDFU.c:315-378 | for a range inside one page: if and only if the page buffer held its last byte in its place |
| DfuUnaligned.ReadsBackIff | AT16u2/Bootloaders/DFU/BootloaderDFU.c:267-518 | from any address an upload of the range gives back the data if and only if the data arrived |
| DfuUnaligned.WordShifted | AT16u2/Bootloaders/DFU/BootloaderDFU.c:315-378 | a download that fails: one word to address 2 stores an alignment byte and half the word |
| DfuDownload.UploadSends | AT16u2/Bootloaders/DFU/BootloaderDFU.c:445-486 | UPLOAD returns the whole words of the requested flash range in order, all packets full but the last |
| DfuDownload.UploadReturns | AT16u2/Bootloaders/DFU/BootloaderDFU.c:420-518 | DISP_DATA then UPLOAD return the whole words the flash holds in the range, for any start and count |
| DfuDownload.RoundTrip | AT16u2/Bootloaders/DFU/BootloaderDFU.c:267-518 | download from any address with any packets that hold enough words and any page buffer, DISP_DATA and UPLOAD return exactly the bytes that landed |
| DfuDownload.RoundTripIff | AT16u2/Bootloaders/DFU/BootloaderDFU.c:267-518 | from a packet boundary these are the words sent if and only if they land as DownloadArrivesIff says; ReadsBackIff is for any start |
| DfuEeprom.DiscardSkips | AT16u2/Bootloaders/DFU/BootloaderDFU.c:585-605 | discarding k alignment bytes at a packet boundary drops k - 1 bytes of the stream |
| DfuEeprom.EepromDownloadWrites | AT16u2/Bootloaders/DFU/BootloaderDFU.c:386-408 | an EEPROM download from any address writes its range from the last alignment byte on and leaves the flash alone |
| DfuEeprom.EepromArrivesIff | AT16u2/Bootloaders/DFU/BootloaderDFU.c:315-408 | the data arrives if and only if the start is a packet boundary or all bytes equal the last alignment byte |
| DfuEeprom.AlignmentByteWritten | AT16u2/Bootloaders/DFU/BootloaderDFU.c:315-408 | a download that fails: one byte to address 1 stores the alignment byte |
| DfuEeprom.EepromRoundTrip | AT16u2/Bootloaders/DFU/BootloaderDFU.c:386-518 | from a packet boundary, EEPROM download and upload of any length give back the bytes |
| DfuSecure.LockedStep | AT16u2/Bootloaders/DFU/BootloaderDFU.c:611-654 | in secure mode a request other than chip erase leaves dfuIDLE or dfuERROR, secure mode and both memories |
| DfuSecure.SecureSession | AT16u2/Bootloaders/DFU/BootloaderDFU.c:250-578 | the same over every session without chip erase |
| DfuSecure.SecureIsBlind | AT16u2/Bootloaders/DFU/BootloaderDFU.c:250-578 | two secure devices with different memories give identical replies to every session without chip erase |
| DfuSecure.UnlockedForever | AT16u2/Bootloaders/DFU/BootloaderDFU.c:790-810 | once cleared, IsSecure stays cleared over every session |
| DfuSecure.UnlockedExactlyByErase | AT16u2/Bootloaders/DFU/BootloaderDFU.c:611-654 | a session ends secure mode if and only if it contains a chip erase |
| DfuErase.ChipErase | AT16u2/Bootloaders/DFU/BootloaderDFU.c:790-810 | after the erase loop page 0 holds the old page buffer, the other application pages are blank, the boot section is unchanged |
| DfuErase.StepBuffer | AT16u2/Bootloaders/DFU/BootloaderDFU.c:339-385 | the page buffer after every request, whatever it held: blank after a chip erase or a completed download of at least one word, the words of the unfinished page over it after one cut short, unchanged otherwise |
| DfuErase.WaitingIs | AT16u2/Bootloaders/DFU/BootloaderDFU.c:250-578 | the page buffer after every session from every state is what its requests in turn leave in it |
| DfuErase.SettledBuffer | AT16u2/Bootloaders/DFU/BootloaderDFU.c:250-578 | it is blank if since the start, or since the last chip erase or completed download of at least one word, no flash download was cut short |
| DfuErase.SessionBuffer | AT16u2/Bootloaders/DFU/BootloaderDFU.c:339-385 | over every session from a blank page buffer the buffer stays blank unless a flash download is cut short |
| DfuErase.OneCutShort | AT16u2/Bootloaders/DFU/BootloaderDFU.c:339-385 | with one download cut short since the buffer was last blank, and any requests behind it that neither clear it nor are cut short, it is blank if and only if the words of the unfinished page are |
| DfuErase.EraseRunsOn | AT16u2/Bootloaders/DFU/BootloaderDFU.c:307-378 | a chip erase in dfuDNLOAD-IDLE with bytes behind its command runs on into the write loop of that download: what the loop then writes into the memory just erased, all words of its range or the pages it could finish |
| DfuErase.EraseTakesNothing | AT16u2/Bootloaders/DFU/BootloaderDFU.c:307-378 | it writes nothing if that download has no word left to take or the request holds none |
| DfuErase.EraseIsCompleteIff | AT16u2/Bootloaders/DFU/BootloaderDFU.c:307-378 | after every session from every state, chip erase blanks the application section and keeps the boot section if and only if only blanks wait in the page buffer and the words it runs on to write, to a range in the application section, are blank |
| DfuErase.ErasedThenWritten | AT16u2/Bootloaders/DFU/BootloaderDFU.c:307-378 | a session that fails with a blank buffer: a download of one word that gets none, then a chip erase with a word behind it leaves the word at address 0 |
| DfuErase.SessionErase | AT16u2/Bootloaders/DFU/BootloaderDFU.c:790-810 | after every session with no download cut short since the buffer was last cleared, a chip erase that does not run on blanks the application section, keeps the boot section and ends secure mode |
| DfuErase.EraseTwice | AT16u2/Bootloaders/DFU/BootloaderDFU.c:790-810 | a second chip erase is complete whatever the buffer held before the first, if the first does not run on into a download cut short and the second does not run on |
| DfuErase.InterruptedErase | AT16u2/Bootloaders/DFU/BootloaderDFU.c:339-385 | a session that fails: a download that stops after one word, abort and chip erase leave that word at address 0 |
| DfuErase.BlankCheck | AT16u2/Bootloaders/DFU/BootloaderDFU.c:718-744 | in every state blank check leaves dfuERROR if and only if an application byte is not blank or it was in dfuERROR; the next UPLOAD returns the low 16 bits of the least such address |
| DfuErase.EraseThenBlankCheck | AT16u2/Bootloaders/DFU/BootloaderDFU.c:718-810 | from a blank buffer in every state, a chip erase that does not run on blanks the whole application section and the blank check that follows raises no error |
| DfuErase.ReadThenUpload | AT16u2/Bootloaders/DFU/BootloaderDFU.c:816-859 | in every state a READ command enters dfuERROR exactly for an index that names nothing; if it does not run on into a download the memories stay, and from dfuIDLE or such a download the UPLOAD behind it returns the version or signature byte it names |
| DfuModel.FirstNonBlank | AT16u2/Bootloaders/DFU/BootloaderDFU.c:718-744 | the least address of the section whose byte is not blank, or its end |
| DfuBootloader.Bootloader.WriteFlash | AT16u2/Bootloaders/DFU/BootloaderDFU.c:325-385 | the word loop over packets and pages computes the model's flash, endpoint and early exit |
| DfuBootloader.Bootloader.WriteEeprom | AT16u2/Bootloaders/DFU/BootloaderDFU.c:386-408 | the byte loop computes the model's EEPROM, endpoint and advanced start address |
| DfuBootloader.Bootloader.Dnload | AT16u2/Bootloaders/DFU/BootloaderDFU.c:267-419 | DNLOAD as a whole: pending exit, command loading, processing and data stage |
| DfuBootloader.Bootloader.Upload | AT16u2/Bootloaders/DFU/BootloaderDFU.c:420-518 | UPLOAD as a whole: error address, response byte, flash or EEPROM range |
| DfuBootloader.Bootloader.DiscardFillerBytes | AT16u2/Bootloaders/DFU/BootloaderDFU.c:585-605 | the discard loop, where fetching a packet uses up one of the bytes |
| DfuBootloader.Bootloader.ProcessBootloaderCommand | AT16u2/Bootloaders/DFU/BootloaderDFU.c:611-654 | the secure-mode gate and the dispatch to the command handlers |
| DfuBootloader.Bootloader.ProcessMemProgCommand | AT16u2/Bootloaders/DFU/BootloaderDFU.c:676-701 | range set up, first page erased for flash, dfuDNLOAD-IDLE |
| DfuBootloader.Bootloader.ProcessMemReadCommand | AT16u2/Bootloaders/DFU/BootloaderDFU.c:707-745 | the blank check loop stops at the least non-blank address; reads set up the range |
| DfuBootloader.Bootloader.ProcessWriteCommand | AT16u2/Bootloaders/DFU/BootloaderDFU.c:750-811 | start application, exit and chip erase |
| DfuBootloader.Bootloader.ControlRequest | AT16u2/Bootloaders/DFU/BootloaderDFU.c:250-578 | every control request takes the device to the state and reply of the model's step |
| DfuBootloader.Bootloader.Session | AT16u2/Bootloaders/DFU/BootloaderDFU.c:250-578 | a whole session on the device: secure mode without chip erase keeps state and memories, secure mode is never entered, and the page buffer is what WaitingIs says |
| PrinterStream.NoiseIsIgnored | AT16u2/Bootloaders/Printer/BootloaderPrinter.c:239-258 | characters that are neither colons nor hex digits never influence what a text does |
| PrinterStream.TwoDigits | AT16u2/Bootloaders/Printer/BootloaderPrinter.c:255-272 | two hex digits deliver exactly their byte, whatever the shift register held |
| PrinterStream.ParseHeader | AT16u2/Bootloaders/Printer/BootloaderPrinter.c:242-294 | from any parser state a record header sets length, address, type and running checksum |
| PrinterStream.StoreNext | AT16u2/Bootloaders/Printer/BootloaderPrinter.c:320-336 | a data word extends the streamed image; its page is erased before its first word and flushed when it is left |
| PrinterStream.DataRecord | AT16u2/Bootloaders/Printer/BootloaderPrinter.c:239-371 | a contiguous data record, with any checksum byte, extends the image by its bytes |
| PrinterStream.EndRecord | AT16u2/Bootloaders/Printer/BootloaderPrinter.c:353-365 | a valid end-of-file record ends the boot loader; the last page is in flash exactly if the record's address lies in another page |
| PrinterStream.StreamedFile | AT16u2/Bootloaders/Printer/BootloaderPrinter.c:214-371 | for every text that spells a contiguous file with any noise: flash equals the image with everything else unchanged if and only if the last page is flushed or blank |
| PrinterStream.StreamedImage | AT16u2/Bootloaders/Printer/BootloaderPrinter.c:214-371 | with end-of-file address 0: the image arrives if and only if it fills a page or is blank, and RunBootloader ends false |
| PrinterStream.ShortFileLost | AT16u2/Bootloaders/Printer/BootloaderPrinter.c:214-371 | a file that fails: one word; its page is erased and the word is lost |
| PrinterSafety.BootSectionSpared | AT16u2/Bootloaders/Printer/BootloaderPrinter.c:296-336 | every text that stores no word while its current page is in the boot section leaves the boot section as it was |
| PrinterSafety.BootSectionSparedIff | AT16u2/Bootloaders/Printer/BootloaderPrinter.c:296-336 | a text leaves every boot section, whatever it holds, as it was if and only if it stores no word while its current page is there |
| PrinterSafety.HitRewrites | AT16u2/Bootloaders/Printer/BootloaderPrinter.c:320-336 | a word stored then replaces the whole page: by the buffer if the address moves to another page, by blanks if not |
| PrinterSafety.RecordsBelow | AT16u2/Bootloaders/Printer/BootloaderPrinter.c:296-336 | a text whose records all start and end below the boot section leaves the boot section as it was |
| PrinterSafety.BootSectionLost | AT16u2/Bootloaders/Printer/BootloaderPrinter.c:300-336 | a text that does not: an image that ends at the boot section and one more word, which lands at the start of the boot section on an otherwise erased page |
| PrinterBootloader.Bootloader.FlushPageIfRequired | AT16u2/Bootloaders/Printer/BootloaderPrinter.c:214-231 | a dirty page is committed when the address has left it |
| PrinterBootloader.Bootloader.ReadDataByte | AT16u2/Bootloaders/Printer/BootloaderPrinter.c:296-351 | the data state: pairing of bytes, erase, fill, flush, extended addresses |
| PrinterBootloader.Bootloader.ParseIntelHEXByte | AT16u2/Bootloaders/Printer/BootloaderPrinter.c:239-371 | one character takes the parser to the state of the model |
| PrinterBootloader.Bootloader.Receive | AT16u2/Bootloaders/Printer/BootloaderPrinter.c:391-397 | the receive loop runs the parser over all characters in order, and spares the boot section under the condition of BootSectionSpared |
| PrinterBootloader.Bootloader.ReceiveFile | AT16u2/Bootloaders/Printer/BootloaderPrinter.c:391-397 | the conclusion of StreamedFile for the device |
| Fat12.WriteOdd | AT16u2/Bootloaders/MassStorage/Lib/VirtualFAT.c:245-265 | writing an odd entry stores it and preserves every other entry |
| Fat12.WriteEven | AT16u2/Bootloaders/MassStorage/Lib/VirtualFAT.c:245-265 | writing an even entry stores it and disturbs only the entry behind it, in its low four bits |
| Fat12.ChainEntries | AT16u2/Bootloaders/MassStorage/Lib/VirtualFAT.c:277-292 | what a partly written chain does to any entry of the table |
| Fat12.FatDecodes | AT16u2/Bootloaders/MassStorage/Lib/VirtualFAT.c:451-465 | for disjoint files the reserved entries and the EEPROM chain decode, and the FLASH chain decodes if and only if the EEPROM chain does not end on the even entry before it |
| Fat12.FatBreaks | AT16u2/Bootloaders/MassStorage/Lib/VirtualFAT.c:451-465 | a layout that fails: EEPROM.BIN on cluster 2, FLASH.BIN on clusters 3 and 4 |
| BlockStore.WriteFlashBlockwise | AT16u2/Bootloaders/MassStorage/Lib/VirtualFAT.c:333-354 | a block write erases and programs exactly the pages of its block |
| BlockStore.ReadRefines | AT16u2/Bootloaders/MassStorage/Lib/VirtualFAT.c:435-482 | every block of the disk reads as in an ordinary store of two sector arrays and a directory block |
| BlockStore.FlashWriteRefines | AT16u2/Bootloaders/MassStorage/Lib/VirtualFAT.c:303-355 | a write to a FLASH.BIN block replaces exactly its sector, and flash beyond the file does not change |
| BlockStore.EepromWriteRefines | AT16u2/Bootloaders/MassStorage/Lib/VirtualFAT.c:366-392 | a write to an EEPROM.BIN block replaces exactly its sector |
| BlockStore.WriteRefines | AT16u2/Bootloaders/MassStorage/Lib/VirtualFAT.c:399-428 | a write to any block, the directory included, acts on the disk as on the store |
| BlockStore.ReadsLastWritten | AT16u2/Bootloaders/MassStorage/Lib/VirtualFAT.c:399-482 | after any further writes that do not reach the sector, any block that shows it reads what was last written, also when the directory has moved the file in between |
| BlockStore.MovedFileReadsSame | AT16u2/Bootloaders/MassStorage/Lib/VirtualFAT.c:399-482 | a directory write that moves a file moves its contents: each sector reads the same at its new block |
| BlockStore.SystemBlocksStay | AT16u2/Bootloaders/MassStorage/Lib/VirtualFAT.c:435-482 | whatever is written the boot block reads the same; unless a file is moved so do the FAT blocks, and data blocks outside both files read zeros |
| BlockStore.CommandRefines | AT16u2/Bootloaders/MassStorage/Lib/SCSI.c:238-274 | one READ(10) or WRITE(10) replies and acts as on that store |
| BlockStore.SessionRefines | AT16u2/Bootloaders/MassStorage/Lib/SCSI.c:238-274 | every session of READ(10) and WRITE(10), moves and overlapping files included, gets the replies of the store, and flash beyond the file never changes |
| BlockStore.RangeCheck | AT16u2/Bootloaders/MassStorage/Lib/SCSI.c:244-259 | the commands refused are exactly those with a block outside the medium if and only if the command ends on the medium, or the low 16 address bits are off it and it has a block at all |
| BlockStore.RangeCheckMisses | AT16u2/Bootloaders/MassStorage/Lib/SCSI.c:244-259 | two commands that run off the medium and are not refused, one by its length and one by its address |
| BlockStore.DefaultLayoutIsDisjoint | AT16u2/Bootloaders/MassStorage/Lib/VirtualFAT.h:44-75 | the default start clusters give the two files disjoint blocks |
| BlockStore.FatBlockDecodes | AT16u2/Bootloaders/MassStorage/Lib/VirtualFAT.c:451-465 | the FAT block read from the disk links exactly the clusters of each file, under the condition of FatDecodes |
| BlockStore.ChainCoversFile | AT16u2/Bootloaders/MassStorage/Lib/VirtualFAT.h:44-75 | every block of a file lies in a cluster of its chain |
| VirtualFat.UpdateClusterEntry | AT16u2/Bootloaders/MassStorage/Lib/VirtualFAT.c:245-265 | the in-place update of a 12-bit entry |
| VirtualFat.UpdateClusterChain | AT16u2/Bootloaders/MassStorage/Lib/VirtualFAT.c:277-292 | the in-place chain loop |
| VirtualFat.Drive.ReadFlashBlock | AT16u2/Bootloaders/MassStorage/Lib/VirtualFAT.c:303-332 | fills the buffer with the file's sector, or leaves it alone outside the file |
| VirtualFat.Drive.WriteFlashBlock | AT16u2/Bootloaders/MassStorage/Lib/VirtualFAT.c:303-355 | programs the file's sector from the buffer, or does nothing outside the file |
| VirtualFat.Drive.ReadEepromBlock | AT16u2/Bootloaders/MassStorage/Lib/VirtualFAT.c:366-392 | the EEPROM sector loop, reading |
| VirtualFat.Drive.WriteEepromBlock | AT16u2/Bootloaders/MassStorage/Lib/VirtualFAT.c:366-392 | the EEPROM sector loop, writing |
| VirtualFat.Drive.WriteBlock | AT16u2/Bootloaders/MassStorage/Lib/VirtualFAT.c:399-428 | writes to boot and FAT blocks are ignored, to the root block replace the directory, to others go to the files |
| VirtualFat.Drive.ReadBlock | AT16u2/Bootloaders/MassStorage/Lib/VirtualFAT.c:435-482 | boot sector, FAT, directory or file sector |
| VirtualFat.Drive.Read10 | AT16u2/Bootloaders/MassStorage/Lib/SCSI.c:238-274 | the block loop, reading, with the range check on the truncated address |
| VirtualFat.Drive.Write10 | AT16u2/Bootloaders/MassStorage/Lib/SCSI.c:238-274 | the block loop, writing |
| VirtualFat.Drive.Session | AT16u2/Bootloaders/MassStorage/Lib/SCSI.c:238-274 | the conclusion of SessionRefines for the drive |
| HidProgramming.ReportPrograms | AT16u2/Bootloaders/HID/BootloaderHID.c:142-195 | a page report below the boot section erases and programs exactly its page; above it nothing changes |
| HidProgramming.AddressesAgree | AT16u2/Bootloaders/HID/HostLoaderApp/hid_bootloader_cli.c:153-159 | on supported parts the device recovers the page address the host sent, and never takes it for the start command |
| HidProgramming.EveryByte | AT16u2/Bootloaders/HID/HostLoaderApp/hid_bootloader_cli.c:146-164 | what every flash byte is after the programming loop: boot section untouched, sent pages as in the file with blanks elsewhere, skipped pages untouched and free of file bytes |
| HidProgramming.EndToEnd | AT16u2/Bootloaders/HID/HostLoaderApp/hid_bootloader_cli.c:146-164 | all file bytes below the boot section arrive if and only if the file is blank in the last block of the 64 KB buffer |
| HidProgramming.ReportStaysInPage | AT16u2/Bootloaders/HID/BootloaderHID.c:142-195 | whatever its packets hold, a report changes at most the page it addresses |
| HidProgramming.BootSectionIsSafe | AT16u2/Bootloaders/HID/BootloaderHID.c:142-195 | no sequence of reports, whatever their packets hold, changes a byte of the boot section |
| HidProgramming.Part64KB | AT16u2/Bootloaders/HID/HostLoaderApp/hid_bootloader_cli.c:153-159 | on a 64 KB part the loop leaves the first page as the last block sent, rotated by its number, and changes no other page |
| HidProgramming.Part64KBArrivesIff | AT16u2/Bootloaders/HID/HostLoaderApp/hid_bootloader_cli.c:146-164 | there all file bytes below the boot section arrive if and only if those behind the first page were in flash before and those of the first page are in the rotated block |
| HexAgreement.ReadRecord | AT16u2/Bootloaders/HID/HostLoaderApp/hid_bootloader_cli.c:819-879 | the parser understands every printed record that fits: data, segment, linear and end records |
| HexAgreement.PrintThenRead | AT16u2/Bootloaders/HID/HostLoaderApp/hid_bootloader_cli.c:773-879 | reading a printed file gives the image and mask of folding its records in order, and the number of data bytes; text behind the end record is ignored |
| HexAgreement.DataRecordSums | AT16u2/Bootloaders/HID/HostLoaderApp/hid_bootloader_cli.c:865-878 | a data record in hex digits is accepted only if all its bytes add up to zero modulo 256 |
| HexAgreement.AcceptedCloses | AT16u2/Bootloaders/HID/HostLoaderApp/hid_bootloader_cli.c:792-808 | if the reader accepts a file, every data record up to the end record adds up to zero |
| HexAgreement.FileToFlash | AT16u2/Bootloaders/HID/HostLoaderApp/hid_bootloader_cli.c:107-164 | from text to flash: every byte the records define below the boot section and the last image block is in flash after reading and programming |
| HexAgreement.FileArrivesIff | AT16u2/Bootloaders/HID/HostLoaderApp/hid_bootloader_cli.c:107-164 | all bytes the records define below the boot section arrive if and only if they define only blanks in the last block of the 64 KB buffer |
| HexAgreement.LastBlockLost | AT16u2/Bootloaders/HID/HostLoaderApp/hid_bootloader_cli.c:895-913 | a file that fails on a 128 KB part: one byte at 0xFF00 is read, and a blank ends in its place |
| HexAgreement.SecondPageLost | AT16u2/Bootloaders/HID/HostLoaderApp/hid_bootloader_cli.c:153-159 | a file that fails on a 64 KB part: one new byte at 0x100 is read and never written |
| HidLoader.HidDevice.FillPage | AT16u2/Bootloaders/HID/BootloaderHID.c:171-182 | the word loop over packets computes the model's page buffer |
| HidLoader.HidDevice.SetReport | AT16u2/Bootloaders/HID/BootloaderHID.c:142-195 | start command, page write or rejection above the boot start |
| HidLoader.Loader.StoreData | AT16u2/Bootloaders/HID/HostLoaderApp/hid_bootloader_cli.c:866-875 | the data loop into the image and mask arrays, with the running sum |
| HidLoader.Loader.ParseHexLine | AT16u2/Bootloaders/HID/HostLoaderApp/hid_bootloader_cli.c:819-879 | one line: all rejections and all record types |
| HidLoader.Loader.ReadIntelHex | AT16u2/Bootloaders/HID/HostLoaderApp/hid_bootloader_cli.c:773-808 | clears image and mask, then reads lines to the end record; -1, -2 or the byte count |
| HidLoader.Loader.BytesWithinRange | AT16u2/Bootloaders/HID/HostLoaderApp/hid_bootloader_cli.c:881-893 | true if and only if the range lies in the image and holds a byte of the file |
| HidLoader.Loader.GetData | AT16u2/Bootloaders/HID/HostLoaderApp/hid_bootloader_cli.c:895-913 | the buffer receives the file bytes and blanks elsewhere, all blanks for a block that reaches the end of the image |
| HidLoader.Loader.ProgramFlash | AT16u2/Bootloaders/HID/HostLoaderApp/hid_bootloader_cli.c:146-164 | the programming loop takes the device to the state of the model |
| HidLoader.Loader.LoadFile | AT16u2/Bootloaders/HID/HostLoaderApp/hid_bootloader_cli.c:107-164 | reading and programming: a file that cannot be read leaves the device alone, an accepted one has only data records that add up to zero |
| HidLoader.Loader.LoadPrinted | AT16u2/Bootloaders/HID/HostLoaderApp/hid_bootloader_cli.c:107-164 | the conclusion of FileToFlash for the host and the device |
| CdcProtocol.FrameLaw | AT16u2/Bootloaders/CDC/BootloaderCDC.c:640-673 | a reply of any length goes out as full packets and exactly one shorter packet, possibly empty, that together hold the reply |
| CdcProtocol.ReceiveFrame | AT16u2/Bootloaders/CDC/BootloaderCDC.c:640-673 | a host that reads up to the first short packet gets exactly the reply, and the next transfer starts behind it |
| CdcProtocol.AddressReaches | AT16u2/Bootloaders/CDC/BootloaderCDC.c:484-492 | an address command reaches the word it names if and only if the part has at most 64 KB or the word is in the first or last quarter |
| CdcProtocol.AddressMisses | AT16u2/Bootloaders/CDC/BootloaderCDC.c:484-492 | a command that fails: word 0x4000 of a 128 KB part |
| CdcProtocol.OrHigh | AT16u2/Bootloaders/CDC/BootloaderCDC.c:307-318 | on the even current address, or-ing the high-byte flag is addition |
| CdcModel.Exec | AT16u2/Bootloaders/CDC/BootloaderCDC.c:441-638 | every command, block, byte-wise and lock bit commands included, keeps the current address even and below 2^32 and the memories well formed |
| CdcBlocks.WriteFlashBuffers | AT16u2/Bootloaders/CDC/BootloaderCDC.c:340-359 | the byte loop with its low/high toggle buffers exactly the whole words of the block and drops an odd last byte |
| CdcBlocks.WriteAll | AT16u2/Bootloaders/CDC/BootloaderCDC.c:330-382 | consecutive block writes lay their blocks end to end, one page each, and confirm every one |
| CdcBlocks.ReadFlashBytes | AT16u2/Bootloaders/CDC/BootloaderCDC.c:303-319 | a block read started at either byte of a word returns the flash from there on and rounds the address down to a word |
| CdcBlocks.MirrorRun | AT16u2/Bootloaders/CDC/BootloaderCDC.c:276-383 | flash block commands cannot tell two 32-bit addresses apart that the flash decodes alike, past the end of the address space included |
| CdcBlocks.FlashRoundTrip | AT16u2/Bootloaders/CDC/BootloaderCDC.c:276-383 | block writes of full pages and a last one of any size from an address that decodes to a page start, then any number of block reads, return the bytes written, but for an odd last one; nothing else changes; AnyRoundTrip is for all other blocks |
| CdcPages.BlockWrites | AT16u2/Bootloaders/CDC/BootloaderCDC.c:330-382 | a block write of any size to any address replaces exactly the page of its first byte, by the last words of the block that go round in it |
| CdcPages.WriteAny | AT16u2/Bootloaders/CDC/BootloaderCDC.c:330-382 | any number of block writes of any sizes from any address do this one after the other, and confirm every one |
| CdcPages.AnyRoundTrip | AT16u2/Bootloaders/CDC/BootloaderCDC.c:276-383 | block reads after any block writes return exactly what those left in flash |
| CdcPages.ShortBlockIff | AT16u2/Bootloaders/CDC/BootloaderCDC.c:330-382 | two blocks to one page: both arrive if and only if the first is blank |
| CdcPages.ByteWiseIff | AT16u2/Bootloaders/CDC/BootloaderCDC.c:570-592 | a word sent as high byte and low byte is buffered as sent if and only if its high byte is zero |
| CdcBlocks.EepromRoundTrip | AT16u2/Bootloaders/CDC/BootloaderCDC.c:276-383 | the same for EEPROM with blocks of any sizes, the flash untouched |
| CdcBootloader.Bootloader.FetchNextCommandByte | AT16u2/Bootloaders/CDC/BootloaderCDC.c:391-410 | the next byte of the stream, however many packets, empty ones included, have to be fetched |
| CdcBootloader.Bootloader.WriteNextResponseByte | AT16u2/Bootloaders/CDC/BootloaderCDC.c:417-436 | one more byte of the reply, with a full bank sent first |
| CdcBootloader.Bootloader.ReadFlash | AT16u2/Bootloaders/CDC/BootloaderCDC.c:303-328 | the flash read loop |
| CdcBootloader.Bootloader.WriteFlash | AT16u2/Bootloaders/CDC/BootloaderCDC.c:340-368 | the flash write loop, as a function of the byte stream alone |
| CdcBootloader.Bootloader.ReadWriteMemoryBlock | AT16u2/Bootloaders/CDC/BootloaderCDC.c:276-383 | block commands for either memory, and the error reply for any other |
| CdcBootloader.Bootloader.Task | AT16u2/Bootloaders/CDC/BootloaderCDC.c:441-673 | state and reply packets depend only on the bytes of the command, however they were cut into packets |
| CdcBootloader.Bootloader.Session | AT16u2/Bootloaders/CDC/BootloaderCDC.c:441-673 | any number of commands: state and replies are those of the model, and the packets sent for each command hold exactly its reply |
| CdcBootloader.Bootloader.RoundTrip | AT16u2/Bootloaders/CDC/BootloaderCDC.c:276-383 | the conclusion of FlashRoundTrip for the device |
| SnakeInvariants.MoveThenGrow | SimpleSnake/game.c:214-248 | growing right after a move puts back the position the move removed: a bonus is a pure append |
| SnakeInvariants.MoveWellFormed | SimpleSnake/game.c:509-589 | a move keeps the chain of unit steps without reversals and the cached head |
| SnakeInvariants.CrashDistance | SimpleSnake/game.c:622-640 | two cells of a snake can coincide only an even distance of at least four apart |
| SnakeInvariants.BonusCheckKeepsLaw | SimpleSnake/game.c:250-269 | eating keeps the conservation law of bonuses, stale slots included |
| SnakeInvariants.CreateKeepsLaw | SimpleSnake/game.c:135-160 | spawning keeps it, with or without a free slot |
| SnakeInvariants.TickShape | SimpleSnake/game.c:704-762 | every tick, whatever its outcome, keeps chains, heads, lengths and conservation |
| SnakeInvariants.TickLegal | SimpleSnake/game.c:602-668 | a tick that does not end the game leaves every snake inside the walls, distinct but for the first cell, and off the other head |
| SnakeInvariants.EveryRun | SimpleSnake/game.c:672-762 | over every run: both snakes are chains of at least three cells ending at the cached head, length is 3 plus score, scores and bonuses add up to the spawns, nb_bonus <= active slots <= max_bonus with the exact gap |
| SnakeInvariants.EverySurvivor | SimpleSnake/game.c:672-762 | over every run still going on a large enough terminal the position is legal |
| SnakeRuns.StaleSlotFeeds | SimpleSnake/game.c:250-269 | a run of six ticks, still going, in which a slot feeds the snake twice and nb_bonus is -1 |
| SnakeRuns.SpawnLost | SimpleSnake/game.c:135-160 | two ticks later a spawn is counted although the only slot is taken |
| SnakeInvariants.LastKeyDecides | SimpleSnake/game.c:74-110 | over every run still going each player's direction is the one named by the last direction key that player pressed, whatever other keys came after it |
| SnakeLists.LinkedIsAcyclic | SimpleSnake/game.c:206-212 | a snake's heap list has no cycle |
| SnakeLists.LinkedAreDisjoint | SimpleSnake/game.c:206-212 | the two snakes share no cell |
| SnakeLists.SnakeList.HeadAdd | SimpleSnake/game.c:206-212 | links a fresh cell in front |
| SnakeLists.SnakeList.HeadDel | SimpleSnake/game.c:427-432 | unlinks the first cell |
| SnakeLists.SnakeList.TailAdd | SimpleSnake/game.c:434-454 | walks to the last cell, links a fresh one behind it and refreshes the cached head |
| SnakeLists.SnakeList.GetTail | SimpleSnake/game.c:456-465 | the walk returns the last position |
| SnakeLists.SnakeList.constructor | SimpleSnake/game.c:467-506 | three cells on the given row, heading right, with the cached head |
| SnakeLists.SnakeList.SnakeMove | SimpleSnake/game.c:509-589 | reversal is refused, the new head is linked and the first cell removed |
| SnakeLists.SnakeList.SnakeGrow | SimpleSnake/game.c:214-248 | a cell is put behind the first one, in its direction |
| SnakeLists.SnakeList.CrashCheck | SimpleSnake/game.c:622-640 | the pairwise loop reports a crash if and only if two cells coincide |
| SnakeLists.SnakeList.CrashSnakeCheck | SimpleSnake/game.c:648-668 | a crash if and only if the given head lies on the snake |
| SnakeGame.SimpleSnake.BonusCreate | SimpleSnake/game.c:135-160 | the first free slot takes the bonus; the count grows even without one |
| SnakeGame.SimpleSnake.BonusCheckA | SimpleSnake/game.c:250-269 | the first slot at the head, active or not, is eaten |
| SnakeGame.SimpleSnake.WallCheck | SimpleSnake/game.c:602-620 | whether the head is on a wall |
| SnakeGame.SimpleSnake.Tick | SimpleSnake/game.c:704-762 | one turn of the main loop computes the model's game and outcome |
| SnakeGame.SimpleSnake.Play | SimpleSnake/game.c:672-762 | the main loop on the heap, for every input: both lists are acyclic, share no cell and have at least three cells, and each cached head is the position of its last cell |
| Buttons.ReportsAreSnapshots | AT16u2/PolytechLille/PAD/pad.c:10-32 | under every interleaving of the interrupts and main loops the reports are messages of some snapshots, each at most once and in order, and none is 0x20 |
| Buttons.RunKeepsPlaces | AT328p/arduino.c:59-83 | the invariant behind it: where in the history each byte in flight was taken |
| Buttons.SnapshotIsPins | AT328p/arduino.c:59-62 | a snapshot is the five inverted pins D2 to D6, and its message adds bit 5 |
| Buttons.ButtonTurnsSnake | AT328p/arduino.c:6-9 | for every state of the pins: a button alone, sent as its message, turns the snake in its direction, and any other combination leaves it as it is |

## Left out

- DfuDownload.DownloadPrograms: ranges that run over the end of the flash are not covered.
- DfuUnaligned.EvenTaken: the data packets are of whole words, as hosts send them, because a packet of odd length shifts all bytes behind it once more; InsideArrivesIff is for packets of any size.
- DfuUnaligned.EvenArrivesIff: the same.
- DfuUnaligned.EvenArrivesInPage: the same.
- DfuUnaligned.OddArrivesIff: the same.
- DfuUnaligned.OddArrivesInPage: the same.
- DfuUnaligned.InsideArrivesIff: the first data packet holds all alignment bytes; DownloadLands is for any packets.
- DfuErase.EraseIsCompleteIff: an erase that runs on to write words outside the application section is covered by EraseRunsOn, which states the memory, and not by the if-and-only-if.
- PrinterStream.StreamedFile: files with gaps, out of order or with extended address records inside a page are not covered; the parser and the class handle them, the refinement theorem is for contiguous files from address 0.
- HexAgreement.DataRecordSums: the sum law is for lines in hex digits; other lines are parsed, but not summed.
- HidLoader.Loader.ParseHexLine: signs, blanks and 0x prefixes inside a field, which sscanf also takes, and 32-bit wrap-around of extended addresses are not modelled.
- CdcModel.Exec: that a page fill overwrites a word already in the buffer and that writing lock bits clears the bits named are assumptions about the hardware.
- CdcPages.ByteWiseIff: it rests on the assumption that a second page fill overwrites the word in the buffer.
- CdcBlocks.FlashRoundTrip: all blocks but the last fill whole pages, and all reads but the last are of whole words, because the next read starts at the word where the last one ended; CdcPages.AnyRoundTrip is for blocks of any size.
- CdcBootloader.Bootloader.Task: an IN endpoint whose host stops collecting replies is not modelled.
- Buttons.ReportsAreSnapshots: the LED path back to the Arduino is not modelled, because it depends on the second read of the USART data register.
- The LUFA USB stack, descriptors, board drivers, LEDs, timers, watchdog and the jump to the application: libraries, tables and hardware set-up.
- The mass storage commands other than READ(10) and WRITE(10): fixed replies.
- The HID host's command line, device discovery and the final reboot command: I/O.
- hid_bootloader_loader.py: a second host for the HID boot loader on top of libraries that are not part of this model.
- The game's menus, drawing and terminal resizing during play: no state that the rules depend on.
- The example projects under AT16u2/Projects: wrappers over class drivers.
