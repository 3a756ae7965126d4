# Verified models of the GreenVity firmware tools

Four parts of the repository, modelled in Dafny in the form the C code has (classes over
arrays and globals, loops with invariants) and proved against specifications whose own
properties are proved as lemmas.

**The Hi-Rel 8051 boot loader.** `SpiFlashDrv` is the SPI flash with its write-enable latch,
lock and AND-programming, and keeps a ghost log of every erase and program command.
`CodeMemory` is the banked code RAM and the serial port. `HexFile` is the Intel HEX state
machine, `HexText` what it makes of texts, `HexStreams` what any stream at all does to it, read
off the stream, `Crc` the checksum with its bit-serial reference, `FlashImage` the image with
its CRC table. `Bootloader` has download, backup, restore and boot, and `Firmware` the two
end-to-end theorems: eight good texts downloaded and booted leave in code RAM exactly what
their records denote; one altered byte in one record stops the download at that bank.
A power cut is any content at all in the stretch of flash an erase or program command was
working on: `AlwaysSafe` says that after a cut during any command the primary or the backup
image is still valid, and a download is always safe if and only if the backup was valid when
it began. After a cut during a safe command, and any number of further cuts while booting,
`PowerUp` runs a valid image (`CutThenBoots`).

**The dictionary and INI parser of gvhost.** `Dictionary` refines a map for any hash function.
`CStrings` has the string and sscanf routines (section 7.21.6.2 of ISO C11), `IniLine` one
line, `IniFile` whole texts, `IniRoundTrip` saving and loading, `IniErrors` when loading
returns NULL, `IniParser` the loops over slots and lines.

**The MAC-SAP frames of GHDD.** `MacSap` is the type-length-value codec on hosts of either byte
order, `MacPrimitives` what it does with each type number, `MacOutcomes` what the decoder makes
of any frame, `MacHosts` what a frame means to a host of the other byte order, `FrameChecksum`
the xor checksum behind it.

**The GHDD firmware bring-up.** `GhddDriver` has the state machine and its handlers, in the
builds with and without COMMISSIONING, with theorems over every interleaving of frames, timer
expiry and deferred work.

## What the proofs brought to light

- The loader hangs just when it begins a record of type 05, or one with a line feed among its
  eight header digits or, for type 04, among the four segment digits behind them (`SpinsIff`).
  It writes below 0x2000, where its own variables are, just when a data byte is read for such
  an address, be it by a low load address or by running past 0xFFFF (`EscapesIff`). It returns
  just at an end-of-file record, whose checksum it never looks at, or at an escape where it
  looks for a record or a header or segment byte (`ReturnsIff`); otherwise it waits for input.
  A length byte of 0 counts 256 data bytes. Inputs: `HalfByteSpins`, `SegmentLineFeedSpins`,
  `StartLinearAddressSpins`, `DataAtZeroEscapes`.
- A type 04 record does not move the load address, whatever its segment; an unmapped segment
  is only counted, and the download does not look at that counter.
- `ErrCnt` has six slots and the clearing loop eight; the model has eight.
- Nothing protects a download that begins without a valid backup: some power cut in its first
  erase leaves neither image valid (`UnsafeWithoutBackup`).
- Setting a dictionary entry to NULL does not delete it, though the comment at
  gvhost/dictionary.c:211-216 says so: the key stays, with a NULL value (`Dictionary.Set`).
- Saving and loading a dictionary loses entries whose section is missing, turns NULL entries
  into empty ones and section values into NULL. A section without a name is lost unless it
  comes first, and without any section every key comes back with a colon in front and NULL as
  the text (null). Of the
  dictionaries whose lines the parser takes one by one (`Dumpable`), `RoundTripIff` says
  exactly which survive.
- `iniparser_load` forgets syntax errors at the next line it can store: a text of lines that fit
  gives NULL just when some error comes after the last section or entry (`LoadIff`;
  `ErrorIsForgotten` and `ErrorIsSeen` are two texts). A NUL in a line hides what is behind it,
  and at its start makes the loader read in front of its buffer (`NulHidesLine`,
  `NulReadsBeforeLine`).
- Functions that take a section name overrun their key buffer when a section of that name, cut
  to 1024 characters and in lower case, is present and the name has 1024 characters or more
  (`OverrunsKeym`; `LongNameOverruns` is an input).
- The TLV decoder stops two bytes before the end, so a last field without a value is not seen.
- Its index is a u8 and wraps, so some frames keep it busy for ever: three bytes suffice
  (`EndlessFrame`). It happens just when the fields lead to a list or SDU field from which only
  such fields lead back (`LoopsIff`), and never where no field takes the index past 255
  (`NoWrapReturns`).
- It returns TRUE just when fields it can store lead to the end of the frame, FALSE just when
  they lead to one of no known type, and leaves the frame or params_t just when they lead to
  a field that does not fit one of them (`OutcomeIff`).
- Between hosts of different byte order numbers and 64-bit addresses arrive as they were, but
  the four security bytes arrive in reverse (`SecurityArrivesIff`), and so does the address
  union around a short address (`ShortAddressSurvivesIff`).
- A frame of odd length sealed on a host of one byte order is refused by a host of the other
  unless its last byte is zero (`OtherHostVerifiesIff`).
- A timer left armed by a bring-up, even a finished one, can drop an association indication;
  the queued work then asks the firmware to start over (`AnsweredIff`).
- A bring-up is announced on its four confirmations; its three commands have gone out, once each
  and in order, just when the work ran in each of its three states (`AllSentIff`), which nothing
  enforces: `BringUpFromIdle` has a run where none did.

## Model

| member | source | states |
|---|---|---|
| Crc.UpdateIsBitSerial | ASIC/Hi-Rel_Bootld_8051_4.0/src/spiflash.c:46-53 | the table-free byte step equals eight clocks of the reflected CRC with polynomial 0x8408 |
| Crc.FoldIsBitSerial | ASIC/Hi-Rel_Bootld_8051_4.0/src/spiflash.c:191-217 | over any message, the loaders' CRC loop is the bit-serial CRC of the message's bits |
| Crc.BurstChangesCrc | ASIC/Hi-Rel_Bootld_8051_4.0/src/spiflash.c:142-145 | messages of any length that differ only within two neighbouring bytes have different CRCs |
| SpiFlashDrv.NorFlash.Wren | ASIC/Hi-Rel_Bootld_8051_4.0/src/spiflash_drv.c:121-128 | sets or clears the write-enable latch and touches nothing else |
| SpiFlashDrv.NorFlash.WrsrUnlock | ASIC/Hi-Rel_Bootld_8051_4.0/src/spiflash_drv.c:136-145 | locks or unlocks all blocks whatever the state before, and drops the latch |
| SpiFlashDrv.NorFlash.EraseBlock | ASIC/Hi-Rel_Bootld_8051_4.0/src/spiflash_drv.c:241-251 | blanks one 64K or 32K block and no other cell, with one access to exactly that block |
| SpiFlashDrv.NorFlash.EraseSector | ASIC/Hi-Rel_Bootld_8051_4.0/src/spiflash_drv.c:341-348 | blanks one 4K sector and no other cell |
| SpiFlashDrv.NorFlash.EraseLower256k | ASIC/Hi-Rel_Bootld_8051_4.0/src/spiflash_drv.c:256-273 | blanks exactly 0-256K, every access inside it, and leaves the chip unlocked |
| SpiFlashDrv.NorFlash.EraseBackup256k | ASIC/Hi-Rel_Bootld_8051_4.0/src/spiflash_drv.c:278-295 | blanks exactly 256K-576K, which covers the backup image and is disjoint from the primary |
| SpiFlashDrv.NorFlash.WriteByte | ASIC/Hi-Rel_Bootld_8051_4.0/src/spiflash_drv.c:320-326 | clears bits of one cell if the chip is unlocked, and otherwise changes nothing |
| SpiFlashDrv.NorFlash.ReadByte | ASIC/Hi-Rel_Bootld_8051_4.0/src/spiflash_drv.c:332-336 | gives the cell's content |
| SpiFlashDrv.CellsChange | ASIC/Hi-Rel_Bootld_8051_4.0/src/spiflash_drv.c:121-326 | the chip the driver is written for: cells change only under an enabled command on an unlocked chip, programming clears bits, an erase sets its stretch, and only a write-enable leaves the latch set |
| HexFile.HexLoader.GetAscii | ASIC/Hi-Rel_Bootld_8051_4.0/src/hex_file_hdl.c:480-516 | classifies one character and counts colons and junk inside a record |
| HexFile.HexLoader.GetAsc2Hex | ASIC/Hi-Rel_Bootld_8051_4.0/src/hex_file_hdl.c:429-469 | reads two hex digits skipping junk; HexVal and ChkSume change only on success |
| HexFile.HexLoader.Wr2CRam | ASIC/Hi-Rel_Bootld_8051_4.0/src/hex_file_hdl.c:582-604 | stores one byte in the selected bank's view and nowhere else |
| HexFile.HexLoader.OnOffset | ASIC/Hi-Rel_Bootld_8051_4.0/src/hex_file_hdl.c:192-215 | reads the big-endian offset, with the error exits between its bytes |
| HexFile.HexLoader.OnRecData | ASIC/Hi-Rel_Bootld_8051_4.0/src/hex_file_hdl.c:241-271 | stores one data byte, raises the high-water mark, ignores the read's error |
| HexFile.HexLoader.OnExtLinAddr | ASIC/Hi-Rel_Bootld_8051_4.0/src/hex_file_hdl.c:292-333 | takes one segment byte and counts an unmapped segment |
| HexFile.HexLoader.OnChkSume | ASIC/Hi-Rel_Bootld_8051_4.0/src/hex_file_hdl.c:338-362 | counts a record whose bytes do not sum to zero or that was cut short |
| HexFile.HexLoader.OnError | ASIC/Hi-Rel_Bootld_8051_4.0/src/hex_file_hdl.c:364-379 | recovers from an escape, a colon or junk, and spins on a line feed |
| HexFile.HexLoader.ParseHexRecord | ASIC/Hi-Rel_Bootld_8051_4.0/src/hex_file_hdl.c:99-412 | for every input stream, counters, memory, high-water mark and position are the specification's, and only the selected bank's view changes |
| HexText.ParseOfText | ASIC/Hi-Rel_Bootld_8051_4.0/src/hex_file_hdl.c:146-410 | a text of well-formed records, with line ends or anything else but a colon or an escape before each, is consumed exactly: memory is the in-order fold of the records, the mark the highest address written, the junk counter the number of characters skipped that are no line feed, and no other counter sees them |
| HexText.TextRuns | ASIC/Hi-Rel_Bootld_8051_4.0/src/hex_file_hdl.c:146-410 | the same from any parser state at the start of a record, by induction on the text |
| HexText.ParseOfPrint | ASIC/Hi-Rel_Bootld_8051_4.0/src/hex_file_hdl.c:146-410 | parsing the printed form of any records with good checksums inverts printing and leaves every counter 0 |
| HexText.PrintIsText | ASIC/Hi-Rel_Bootld_8051_4.0/src/hex_file_hdl.c:429-469 | the printed form spells its records wherever it stands in a stream |
| HexText.DataRecordRuns | ASIC/Hi-Rel_Bootld_8051_4.0/src/hex_file_hdl.c:241-271 | a whole data record, checksum right or wrong, loads its bytes at its address |
| HexText.SegmentRecordRuns | ASIC/Hi-Rel_Bootld_8051_4.0/src/hex_file_hdl.c:292-333 | a type 04 record loads nothing and moves no address |
| HexText.EofRuns | ASIC/Hi-Rel_Bootld_8051_4.0/src/hex_file_hdl.c:272-282 | an end-of-file record with any checksum ends the text, nothing counted |
| HexText.CountersOf | ASIC/Hi-Rel_Bootld_8051_4.0/src/hex_file_hdl.c:338-362 | the checksum counter is the number of bad records modulo 2^16 |
| HexText.JunkIsCounted | ASIC/Hi-Rel_Bootld_8051_4.0/src/hex_file_hdl.c:480-516 | for any stream and parser state, the junk counter rises by the number of characters read that are no digit, colon, line feed or escape, modulo 2^16 |
| HexText.AlteredRecordIsCounted | ASIC/Hi-Rel_Bootld_8051_4.0/src/hex_file_hdl.c:338-362 | altering one offset, data, segment or checksum byte of one record makes the counter exactly 1 |
| HexText.LineFeedInHeaderSpins | ASIC/Hi-Rel_Bootld_8051_4.0/src/hex_file_hdl.c:364-379 | a line feed, before or between the digits of a length, offset, type or segment byte, never lets the parser return |
| HexText.StartLinearAddressSpins | ASIC/Hi-Rel_Bootld_8051_4.0/src/hex_file_hdl.c:335-336 | a type 05 record never lets the parser return |
| HexText.RunKeepsBlankAbove | ASIC/Hi-Rel_Bootld_8051_4.0/src/hex_file_hdl.c:241-271 | no text at all leaves a written byte above the high-water mark |
| HexStreams.RecordFateIs | ASIC/Hi-Rel_Bootld_8051_4.0/src/hex_file_hdl.c:146-410 | for any record of any stream: whether it hangs the loader, makes it write below 0x2000 or ends the text, by the record's own digits and signs |
| HexStreams.RunIff | ASIC/Hi-Rel_Bootld_8051_4.0/src/hex_file_hdl.c:99-412 | for any stream, the loader's outcome is the fate of the first record it does not get through |
| HexStreams.SpinsIff | ASIC/Hi-Rel_Bootld_8051_4.0/src/hex_file_hdl.c:99-412 | ParseHexRecord hangs iff it begins a record of type 05, or with a line feed in its header or type 04 segment |
| HexStreams.EscapesIff | ASIC/Hi-Rel_Bootld_8051_4.0/src/hex_file_hdl.c:241-271 | it writes below 0x2000 iff it begins a record one of whose data bytes is read for such an address |
| HexStreams.ReturnsIff | ASIC/Hi-Rel_Bootld_8051_4.0/src/hex_file_hdl.c:99-412 | it returns iff it begins an end-of-file record, or finds an escape between records or in a header or segment |
| HexStreams.ReturnsWith | ASIC/Hi-Rel_Bootld_8051_4.0/src/hex_file_hdl.c:99-412 | on every stream on which it returns: memory, mark, position and each error counter modulo 2^16, as counts of what stands in the stream |
| HexStreams.HalfByteSpins | ASIC/Hi-Rel_Bootld_8051_4.0/src/hex_file_hdl.c:364-379 | a colon, one digit and a line feed hang it |
| HexStreams.SegmentLineFeedSpins | ASIC/Hi-Rel_Bootld_8051_4.0/src/hex_file_hdl.c:292-333 | a type 04 header and a line feed hang it |
| HexStreams.DataAtZeroEscapes | ASIC/Hi-Rel_Bootld_8051_4.0/src/hex_file_hdl.c:241-271 | one data byte for address 0 is written there |
| FlashImage.CorruptBankIsInvalid | ASIC/Hi-Rel_Bootld_8051_4.0/src/spiflash.c:186-230 | a change within two neighbouring code bytes of a bank of a valid image fails that bank's check |
| FlashImage.LayoutIs | ASIC/Hi-Rel_Bootld_8051_4.0/src/macro_def.h:53-54 | where in flash, image and RAM each of the eight banks and the backup lie, in addresses |
| FlashImage.ValidBankIff | ASIC/Hi-Rel_Bootld_8051_4.0/src/spiflash.c:186-230 | a bank is valid iff its table entry, low byte first, is the bit-serial CRC of its code from 0 |
| FlashImage.CorruptTableIsInvalid | ASIC/Hi-Rel_Bootld_8051_4.0/src/spiflash.c:168-176 | any change confined to the CRC table makes a valid image invalid |
| FlashImage.ProgramsNext | ASIC/Hi-Rel_Bootld_8051_4.0/src/spiflash.c:624-646 | one more bank and its table entry disturb neither the other banks nor their entries |
| FlashImage.ProgramsAllIsValid | ASIC/Hi-Rel_Bootld_8051_4.0/src/spiflash.c:564-646 | eight programmed banks pass all eight CRC checks |
| FlashImage.BlankTailNeedsNoProgramming | ASIC/Hi-Rel_Bootld_8051_4.0/src/spiflash.c:599-617 | programming a bank only up to its last non-blank byte is programming all of it |
| FlashImage.SafeWithBackup | ASIC/Hi-Rel_Bootld_8051_4.0/src/spiflash.c:545-660 | accesses confined to the primary range are safe at every cut while the backup is valid |
| FlashImage.SafeWithPrimary | ASIC/Hi-Rel_Bootld_8051_4.0/src/spiflash.c:692-716 | accesses confined to the backup range are safe at every cut while the primary is valid |
| FlashImage.UnsafeWithoutBackup | ASIC/Hi-Rel_Bootld_8051_4.0/src/spiflash.c:545-660 | without a valid backup, a cut in an access to the start of the primary can leave no valid image |
| Bootloader.SafeIffBackup | ASIC/Hi-Rel_Bootld_8051_4.0/src/spiflash.c:545-660 | a download's accesses are all safe if and only if the backup was valid before them |
| Bootloader.TailIsBlank | ASIC/Hi-Rel_Bootld_8051_4.0/src/spiflash.c:575-617 | after any text, RAM behind the programmed bytes is blank, so the CRC over the whole bank matches |
| Bootloader.BankProgrammed | ASIC/Hi-Rel_Bootld_8051_4.0/src/spiflash.c:600-640 | the partly programmed bank and its CRC extend the image by exactly that bank |
| Bootloader.BootLoader.ClearEram | ASIC/Hi-Rel_Bootld_8051_4.0/src/spiflash.c:503-513 | blanks the selected bank's view from 0x2100 to 0xFFFF and keeps the rest |
| Bootloader.BootLoader.RamCrc | ASIC/Hi-Rel_Bootld_8051_4.0/src/spiflash.c:575-597 | the CRC of the bank's whole code region in RAM |
| Bootloader.BootLoader.ProgramBank | ASIC/Hi-Rel_Bootld_8051_4.0/src/spiflash.c:600-617 | on blank, unlocked flash, always succeeds and puts exactly the code's written part in the bank |
| Bootloader.BootLoader.WriteCrc | ASIC/Hi-Rel_Bootld_8051_4.0/src/spiflash.c:627-640 | puts the CRC, low byte first, in the bank's table entry and changes nothing else |
| Bootloader.BootLoader.DownloadBank | ASIC/Hi-Rel_Bootld_8051_4.0/src/spiflash.c:550-646 | after c banks, one more text keeps all c banks and entries right and adds its own, or leaves the flash untouched |
| Bootloader.BootLoader.EraseAndProgram | ASIC/Hi-Rel_Bootld_8051_4.0/src/spiflash.c:545-646 | programs exactly the banks whose texts were read before the first bad one |
| Bootloader.BootLoader.DownloadUart2Sflash | ASIC/Hi-Rel_Bootld_8051_4.0/src/spiflash.c:520-663 | for every stream: result and flash; and every command of it, automatic backup included, is safe at every cut iff the backup was valid at the start |
| Bootloader.BootLoader.CopyImage | ASIC/Hi-Rel_Bootld_8051_4.0/src/spiflash.c:697-712 | an exact copy of 0x38000 bytes onto blank flash, everything else unchanged |
| Bootloader.BootLoader.BackupCodeImage | ASIC/Hi-Rel_Bootld_8051_4.0/src/spiflash.c:669-717 | the backup becomes the primary image, nothing outside the backup range is accessed, the chip is locked again; safe at every cut while the primary is valid |
| Bootloader.BootLoader.BackupBankCrc | ASIC/Hi-Rel_Bootld_8051_4.0/src/spiflash.c:737-756 | the CRC of one bank of the backup |
| Bootloader.BootLoader.RestoreCodeImage | ASIC/Hi-Rel_Bootld_8051_4.0/src/spiflash.c:722-822 | restores iff all eight backup CRCs match; otherwise no erase or program command reaches the flash; every command of it is safe at every cut |
| Bootloader.BootLoader.LoadBank | ASIC/Hi-Rel_Bootld_8051_4.0/src/spiflash.c:186-235 | copies one bank to code RAM and accepts it iff its stored CRC is right |
| Bootloader.BootLoader.LoadSflash2Cram | ASIC/Hi-Rel_Bootld_8051_4.0/src/spiflash.c:123-255 | runs the firmware iff the primary is valid, with code RAM equal to it; otherwise replaces it from a valid backup |
| Bootloader.BootLoader.PowerUp | ASIC/Hi-Rel_Bootld_8051_4.0/src/main.c:195-209 | self-healing: firmware runs iff primary or backup is valid, from the primary if it is valid and else from the backup; every command of it is safe at every cut, and what a cut leaves is one more start of the same kind |
| Bootloader.CutsLeaveBootable | ASIC/Hi-Rel_Bootld_8051_4.0/src/main.c:195-209 | however often the power fails while booting, the backup stays and a valid image is there to run |
| Bootloader.CutThenBoots | ASIC/Hi-Rel_Bootld_8051_4.0/src/spiflash.c:545-822 | a cut during any safe command and any number of cuts while booting leave flash that boots a valid image |
| Firmware.DownloadAndBoot | ASIC/Hi-Rel_Bootld_8051_4.0/src/spiflash.c:520-663 | eight good texts downloaded and booted: it runs, and each bank's code region holds its records' bytes and 0xFF elsewhere |
| Firmware.DownloadAltered | ASIC/Hi-Rel_Bootld_8051_4.0/src/spiflash.c:574-660 | one altered byte in one record: failure, the banks before it programmed, none of that bank or a later one, backup untouched |
| Firmware.GoodTextsAreRead | ASIC/Hi-Rel_Bootld_8051_4.0/src/spiflash.c:564-597 | eight good texts give the firmware's eight banks, whatever was in RAM |
| Firmware.BadTextStops | ASIC/Hi-Rel_Bootld_8051_4.0/src/spiflash.c:618-622 | the first text with a nonzero checksum count is where the download stops |
| Dictionary.Dictionary.constructor | gvhost/dictionary.c:117-132 | an empty map, at least 128 slots |
| Dictionary.Dictionary.Get | gvhost/dictionary.c:175-193 | map lookup, telling a stored NULL from a missing key |
| Dictionary.Dictionary.Set | gvhost/dictionary.c:221-275 | map update; doubles the table just when the key is new and the table full; a new key goes to the probed slot and no other slot changes its key |
| Dictionary.Dictionary.Unset | gvhost/dictionary.c:288-323 | map removal; the key's slot becomes a hole, every other slot stays |
| Dictionary.Dictionary.Grow | gvhost/dictionary.c:38-49 | doubles the table without changing the denoted map, the count or a slot |
| Dictionary.Dictionary.Probe | gvhost/dictionary.c:263-268 | terminates within the table, at the first empty slot from n on, wrapping, with any holes |
| Dictionary.Dictionary.FindSlot | gvhost/dictionary.c:181-191 | the key's slot, or proof that no slot has the key, for any hash function |
| Dictionary.FullCount | gvhost/dictionary.c:263-268 | the pigeonhole: a table without holes holds as many keys as slots |
| Dictionary.CountIsMapSize | gvhost/dictionary.c:221-275 | n, the number of occupied slots, is the number of keys in the map |
| Dictionary.MapOfInsert | gvhost/dictionary.c:263-275 | filling a hole with a new key is a map update |
| Dictionary.MapOfRemove | gvhost/dictionary.c:288-323 | emptying a slot removes exactly its key from the map |
| CStrings.StrlwcLoop | gvhost/iniparser.c:44-58 | the string in lower case, cut at the static buffer's size |
| CStrings.StrlwcIs | gvhost/iniparser.c:44-58 | character by character: codes 65 to 90 rise by 32, others stay, no capital is left, and 1024 characters are kept |
| CStrings.StrstripLoop | gvhost/iniparser.c:74-92 | the string without blanks at either end |
| IniLine.ReadsAreInOrder | gvhost/iniparser.c:555-613 | every key the parser ever returns is non-empty, trimmed, lower case and without '='; every value is trimmed; no key or section name has a capital |
| IniLine.LineIsRead | gvhost/iniparser.c:555-613 | for every line, what the sscanf patterns make of it is a remark, a header, an entry or an error as its characters say: what it begins and ends with, where its first '=' and comment sign are, how it is quoted |
| IniLine.QuotedReads | gvhost/iniparser.c:581-595 | a quoted value reads as what stands between its quotes, trimmed, whatever follows |
| IniLine.UnquotedReads | gvhost/iniparser.c:583-595 | an unquoted value ends at the first comment sign |
| IniLine.EntryReadsBackIff | gvhost/iniparser.c:555-613 | a written entry reads back as itself iff its key is in order, its value plain and its line no section header |
| IniLine.ReadValueIff | gvhost/iniparser.c:555-613 | a value is read as it is iff it is trimmed, without comment signs and unquoted |
| IniLine.SectionReads | gvhost/iniparser.c:555-613 | a written section header reads back as its name |
| IniFile.LoadOfItems | gvhost/iniparser.c:663-723 | loading any text of good lines is the fold of the lines, line buffer and sections included |
| IniFile.LoadWithoutNotes | gvhost/iniparser.c:572-574 | a text with comment lines and empty lines among good lines loads as the text without them |
| IniRoundTrip.DumpThenLoad | gvhost/iniparser.c:206-268 | loading what was dumped, no section but the first without a name, gives the sections and their entries, each value as reread |
| IniRoundTrip.RoundTripIff | gvhost/iniparser.c:629-730 | a dictionary whose lines are in order survives dump and load iff it is empty, or has sections, one without a name only in front, sections are NULL and entries have a present section and plain values |
| IniRoundTrip.SectionlessIff | gvhost/iniparser.c:214-223 | a dictionary without sections survives iff it is empty, as every key comes back with a colon in front |
| IniRoundTrip.SectionlessComesBack | gvhost/iniparser.c:214-223 | what a dictionary without sections comes back as: exactly its keys with a colon in front, plain values as they were, NULL as the text (null) |
| IniRoundTrip.DumpOfOne | gvhost/iniparser.c:244-268 | the text written for a section and an entry of it, character by character |
| IniRoundTrip.DumpOfBare | gvhost/iniparser.c:214-223 | the text written for an entry where there are no sections, with (null) for NULL |
| IniRoundTrip.NamelessIsLost | gvhost/iniparser.c:575-580 | a section without a name behind another does not come back, because its header leaves the section buffer as it was |
| IniLine.NamelessReads | gvhost/iniparser.c:575-580 | a header without a name reads back as the section before it |
| IniRoundTrip.NullEntryIsLost | gvhost/iniparser.c:206-268 | a concrete dictionary with a NULL entry that does not survive |
| IniRoundTrip.NullComesBackEmpty | gvhost/iniparser.c:206-268 | in any dictionary with sections whose lines are in order, a NULL entry of a present section comes back as the empty string, a plain one as it was |
| IniErrors.LoadIff | gvhost/iniparser.c:663-723 | for every text, by the characters of its lines: undefined iff an entry overruns the key buffer or a line, up to a NUL in it, is empty or all blanks; NULL iff, before that, a line does not fit or some error comes after everything stored |
| IniErrors.ErrorIsForgotten | gvhost/iniparser.c:690-722 | a text that begins with an error and loads |
| IniErrors.ErrorIsSeen | gvhost/iniparser.c:690-722 | the same two lines the other way round give NULL |
| IniErrors.CommentIsNoError | gvhost/iniparser.c:572-574 | a file that ends in a comment line loads |
| IniErrors.NulReadsBeforeLine | gvhost/iniparser.c:663-677 | a line that begins with a NUL is undefined: line[-1] is read |
| IniErrors.NulHidesLine | gvhost/iniparser.c:663-667 | a line with a NUL behind its first character is skipped |
| IniParser.Getnsec | gvhost/iniparser.c:112-127 | the number of colon-free keys |
| IniParser.Getsecname | gvhost/iniparser.c:143-163 | non-NULL exactly for 0 <= n < getnsec, giving the sections in slot order |
| IniParser.Getsecnkeys | gvhost/iniparser.c:278-301 | the number of the section's entries, 0 for a section that is not there; or the key buffer overruns, exactly when stated |
| IniParser.Getseckeys | gvhost/iniparser.c:317-351 | an array with exactly getsecnkeys entries, all filled, in slot order; or the key buffer overruns |
| IniParser.Getstring | gvhost/iniparser.c:368-379 | lookup of the lower-case key, or the default |
| IniParser.FindEntry | gvhost/iniparser.c:500-510 | whether the lower-case key is present, with or without a value |
| IniRoundTrip.SectionsDistinct | gvhost/iniparser.c:143-163 | no section is listed twice |
| IniParser.SectionKeysAre | gvhost/iniparser.c:317-351 | a section's listing has exactly the present keys with its prefix |
| IniParser.SectionKeysDistinct | gvhost/iniparser.c:317-351 | no section lists an entry twice |
| IniParser.SectionsPartitionEntries | gvhost/iniparser.c:112-351 | every entry whose section is present is listed by exactly that one section; no section, and no entry of a section, is listed twice |
| IniParser.LongNameOverruns | gvhost/iniparser.c:278-301 | a section of 1024 lower-case letters overruns the key buffer, one of 1023 does not |
| IniParser.DumpIni | gvhost/iniparser.c:206-230 | writes the specified text, with and without sections, or overruns the key buffer at a section with too long a name |
| IniParser.DumpsectionIni | gvhost/iniparser.c:244-268 | writes a present section's header and entries, nothing for another, or overruns the key buffer |
| IniParser.LoadLine | gvhost/iniparser.c:663-723 | one turn of the loading loop: continuation, section, entry, error count |
| IniParser.LoadIni | gvhost/iniparser.c:629-730 | for every text, the dictionary loaded, or NULL, or undefined behaviour, as specified |
| IniParser.SaveAndReload | gvhost/iniparser.c:206-730 | dump followed by load on real dictionaries, with or without sections, gives the same map iff the dictionary is one that survives |
| MacSap.DecodeOfEncode | GHDD/ghdd/sap/mac_intf_common.c:31-216 | get_tlvs accepts what any sequence of set_tlv calls wrote and gives the values in order per kind, and the list's length, on either host |
| MacPrimitives.FieldIsSent | GHDD/ghdd/sap/mac_intf_common.c:317-349 | every byte sent for a field: type, length, and the value in memory order or reversed, by host and type |
| MacPrimitives.ByteArrives | GHDD/ghdd/sap/mac_intf_common.c:42-77 | a field of any of the 31 one-byte types puts its byte in byte_data |
| MacPrimitives.ShortArrives | GHDD/ghdd/sap/mac_intf_common.c:79-97 | a two-byte field of any of the five u16 types lands in short_data, in the host's order |
| MacPrimitives.WordArrives | GHDD/ghdd/sap/mac_intf_common.c:99-118 | a four-byte field of any of the six u32 types lands in word_data |
| MacPrimitives.AddressArrives | GHDD/ghdd/sap/mac_intf_common.c:121-139 | an eight-byte field of any of the five address types lands in address_data |
| MacPrimitives.SecurityArrives | GHDD/ghdd/sap/mac_intf_common.c:141-157 | a four-byte field of any of the three security types lands in security_data |
| MacPrimitives.ListArrives | GHDD/ghdd/sap/mac_intf_common.c:178-193 | a PIB attribute value or address list of any length is pointed at and its length kept |
| MacPrimitives.SduArrives | GHDD/ghdd/sap/mac_intf_common.c:195-207 | an MSDU of any length is pointed at |
| MacPrimitives.OthersRefused | GHDD/ghdd/sap/mac_intf_common.c:209-210 | a field of any other type but the PAN descriptor is refused, whatever follows it |
| MacPrimitives.RoomIff | GHDD/ghdd/sap/mac_intf_common.h:171-178 | fields of one type are accepted iff they are at most seven (u8) or two (the other types); one more is written out of bounds |
| MacSap.PointsAtLast | GHDD/ghdd/sap/mac_intf_common.c:195-207 | the MSDU and list pointers point at the bytes of the last such field |
| MacSap.SeenPointers | GHDD/ghdd/sap/mac_intf_common.c:195-207 | after reading what was written, the pointers point at the values of the last SDU and list |
| MacSap.LoopsIff | GHDD/ghdd/sap/mac_intf_common.c:33-212 | get_tlvs never returns iff the frame's fields lead to a list or SDU field from which only such fields lead back |
| MacSap.NoWrapReturns | GHDD/ghdd/sap/mac_intf_common.c:212-212 | where no field takes the index past 255, get_tlvs returns |
| MacSap.EndlessFrame | GHDD/ghdd/sap/mac_intf_common.c:212-212 | a frame of three bytes on which get_tlvs never returns |
| MacOutcomes.OutcomeIff | GHDD/ghdd/sap/mac_intf_common.c:31-216 | for every frame: TRUE, FALSE or an access out of bounds (or a PAN descriptor) iff fields that can be stored lead to the end of the frame, to a field of no known type, or to a field that does not fit |
| MacOutcomes.AcceptedGives | GHDD/ghdd/sap/mac_intf_common.c:31-216 | the parameters of any accepted frame are its fields' values, kind by kind and in order, and the last SDU and list |
| MacHosts.CrossHosts | GHDD/ghdd/sap/mac_intf_common.c:31-352 | read on a host of the other byte order, a frame gives every copied value with its bytes in reverse, and SDU and list as sent |
| MacHosts.NumbersCross | GHDD/ghdd/sap/mac_intf_common.c:319-349 | what that is for numbers and 64-bit addresses: the same number in the other host's memory |
| MacHosts.SecurityArrivesIff | GHDD/ghdd/sap/mac_intf_common.c:140-158 | the security fields arrive on the other host as written iff each is its own reverse |
| MacHosts.SecuritySurvivesIff | GHDD/ghdd/sap/mac_intf_common.h:139-145 | and that is: sec_level equals key_idx and key_id_mode equals key_src |
| MacHosts.ShortAddressSurvivesIff | GHDD/ghdd/sap/mac_intf_common.h:133-137 | a short address survives iff the last two bytes of its union equal the first two |
| MacHosts.HostsAgree | GHDD/ghdd/sap/mac_intf_common.c:319-349 | hosts of both byte orders write the same frame for the same numbers |
| MacSap.HostIf.RevMemcpy | GHDD/ghdd/sap/mac_intf_common.c:483-492 | copies in reverse order and touches nothing else |
| MacSap.HostIf.SetTlv | GHDD/ghdd/sap/mac_intf_common.c:307-352 | writes one encoded field at the index and nothing else |
| MacSap.HostIf.SetTlvs | GHDD/ghdd/sap/mac_intf_common.c:307-352 | any sequence of calls writes the encoding of its fields |
| MacSap.HostIf.GetTlvs | GHDD/ghdd/sap/mac_intf_common.c:31-216 | for every frame: the parameters, FALSE, an access past params_t or the buffer, or no return, as the turns of its loop say |
| MacSap.HostIf.WriteAndRead | GHDD/ghdd/sap/mac_intf_common.c:31-352 | fields that fit, written and read back on one host, arrive in order, with the pointers at the bytes of the last SDU and list |
| FrameChecksum.SealedVerifies | GHDD/ghdd/sap/mac_intf_common.c:360-449 | verify_crc accepts what set_crc produced, for even and odd lengths |
| FrameChecksum.ChecksumOfFew | GHDD/ghdd/sap/mac_intf_common.c:394-418 | the checksum of nothing is 0 and that of one byte is the byte |
| FrameChecksum.ChecksumOfWord | GHDD/ghdd/sap/mac_intf_common.c:394-418 | the checksum of two bytes is the word the host loads |
| FrameChecksum.ChecksumOfParts | GHDD/ghdd/sap/mac_intf_common.c:394-418 | for any even part and any rest, the checksum of both is the xor of the two checksums |
| FrameChecksum.SealedIsZero | GHDD/ghdd/sap/mac_intf_common.c:360-387 | the words of a sealed even frame cancel: its checksum is 0 |
| FrameChecksum.PayloadChangeRejected | GHDD/ghdd/sap/mac_intf_common.c:426-449 | any change confined to one aligned word of the payload, or its odd last byte, is rejected |
| FrameChecksum.ChecksumChangeRejected | GHDD/ghdd/sap/mac_intf_common.c:426-449 | any change of the checksum is rejected |
| FrameChecksum.OtherHostVerifiesIff | GHDD/ghdd/sap/mac_intf_common.c:360-449 | a host of the other byte order accepts iff the length is even or the last byte zero |
| FrameChecksum.WordsDiffer | GHDD/ghdd/sap/mac_intf_common.c:394-418 | prefixes that agree but for one word have equal xors iff that word is equal or outside the prefix |
| FrameChecksum.GetCrc | GHDD/ghdd/sap/mac_intf_common.c:394-418 | the loop over words and the odd byte is the xor of them |
| FrameChecksum.SetCrc | GHDD/ghdd/sap/mac_intf_common.c:360-387 | appends the checksum and changes nothing else in the buffer |
| FrameChecksum.VerifyCrc | GHDD/ghdd/sap/mac_intf_common.c:426-449 | true iff the last two bytes are the checksum of the rest |
| GhddDriver.Ghdd.constructor | GHDD/ghdd/ghdd_driver.c:132-142 | in either build, the state the module is loaded in: idle, nothing done, work queued (lines 707-710), timer unarmed |
| GhddDriver.Ghdd.FwStateMachine | GHDD/ghdd/ghdd_driver.c:1112-1316 | every state and event of either build: the new state, timer, queue and flags, and whether the event was taken |
| GhddDriver.Ghdd.EventHandler | GHDD/ghdd/ghdd_driver.c:271-509 | refuses a frame with too large a command length, in unsigned arithmetic; another is the event it stands for, and FW_READY first withdraws ghdd_init_done |
| GhddDriver.Ghdd.TimeoutHandler | GHDD/ghdd/ghdd_driver.c:1318-1323 | expiry is the timeout event |
| GhddDriver.Ghdd.GvcmdSend | GHDD/ghdd/ghdd_driver.c:865-1084 | the command of each state; announces initialisation only in START with fw_cfg_done set |
| GhddDriver.Reachable | GHDD/ghdd/ghdd_driver.c:1112-1323 | in every run of any interleaving, in either build, the invariant holds: armed timer, queued work, START's work and flag together |
| GhddDriver.LoadedIs | GHDD/ghdd/ghdd_driver.c:707-710 | what a loaded driver is, flag by flag |
| GhddDriver.StateIff | GHDD/ghdd/ghdd_driver.c:1112-1323 | in every run of either build, a step leads from another state to each state iff it is the frame, expiry or work that the state calls for |
| GhddDriver.FlagsIff | GHDD/ghdd/ghdd_driver.c:1112-1323 | and the timer, the queue, fw_cfg_done and the event for ZB_STATE change iff the step is one that changes them |
| GhddDriver.TakenIff | GHDD/ghdd/ghdd_driver.c:1112-1316 | in every run, which events each state takes; the others change nothing |
| GhddDriver.StartSends | GHDD/ghdd/ghdd_driver.c:985-1042 | in every run, the work sends START_NETWORK iff it runs in START, and then announces |
| GhddDriver.NeverWedged | GHDD/ghdd/ghdd_driver.c:1045-1323 | in every reachable state of either build, an armed timeout leads from GET_HW_SPEC, INIT, COMMISSION, AUTH and START to IDLE, and queued work from ZB_STATE |
| GhddDriver.CommissionIsReached | GHDD/ghdd/ghdd_driver.c:1146-1156 | three frames reach COMMISSION in the one build and AUTH in the other |
| GhddDriver.Recovers | GHDD/ghdd/ghdd_driver.c:1112-1323 | from every reachable state six steps or fewer bring the firmware up and announce it |
| GhddDriver.BringUpFromIdle | GHDD/ghdd/ghdd_driver.c:1118-1261 | five steps from IDLE, whatever the flags, end in START with initialisation announced |
| GhddDriver.ConfirmedBringUp | GHDD/ghdd/ghdd_driver.c:1263-1265 | one more frame, the confirmation of the start, ends the bring-up in IDLE with ghdd_init_done set and nothing queued |
| GhddDriver.StateTraces | GHDD/ghdd/ghdd_driver.c:1118-1261 | in every run, the state determines the events accepted since IDLE |
| GhddDriver.AnnouncedIff | GHDD/ghdd/ghdd_driver.c:985-1042 | queued work announces initialisation iff the events accepted since IDLE are exactly the four of a bring-up, a stale fw_cfg_done notwithstanding |
| GhddDriver.InitDoneIff | GHDD/ghdd/ghdd_driver.c:459-470 | in every run, ghdd_init_done is 1 iff some bring-up finished and no FW_READY came after |
| GhddDriver.AllSentIff | GHDD/ghdd/ghdd_driver.c:865-1042 | a bring-up about to be announced has sent its three commands once each and in order iff the work ran in each of its states; and exactly those commands where it ran |
| GhddDriver.AnsweredIff | GHDD/ghdd/ghdd_driver.c:1045-1084 | an association indication is answered in every continuation iff no timer is armed when it comes |

## Left out

- HEX record types 02 and 03 only lead to the unknown-record counter, as in the code; they are in the parser's specification and in `HexStreams` but not in the theorems on good texts.
- The flash chip is free of worn cells: a power cut may leave anything in the stretch being erased or programmed, but a completed command does what the data sheet says. Code RAM holds what is written, so the write-error counter never counts.
- Boot loader prompts are answered Y; the jump, execute, erase-only and manual backup commands, the progress counters, UART registers, printf and SPI byte order are not modelled.
- HexFile.HexLoader.OnRecData: a data byte below 0x2000 ends the model (`Escaped`), because there the loader overwrites its own variables or registers.
- Firmware.DownloadAndBoot: texts are lists of type 00 records of 1 to 255 bytes within 0x2000-0xFFFF and two-byte type 04 records, anything but a colon or an escape allowed before each; what other texts do is in ParseHexRecord, `HexStreams` and RunKeepsBlankAbove.
- ParseHexRecord's locals are fields of `HexLoader`, so that each case of its switch can be a method.
- Dictionary.Dictionary.Set: allocation always succeeds; the hash function is any function to 32 bits, so the mixing arithmetic of dictionary_hash is not part of this model; strings are values without NUL, so ownership and free are not modelled.
- IniParser.LoadIni: a file is its text; a line that is empty or all blanks up to a NUL or its line feed (which reads line[-1]) and a section and key too long for the key buffer are the outcome `Undefined`; strtol and atof conversions are not modelled.
- IniRoundTrip.RoundTripIff: dictionaries are not `Dumpable`, and nothing is said of them, where a line of the dump has a line feed in it, ends in a backslash, is too long for the line buffer, or has a key or section name that the parser changes.
- MacSap.DecodeOfEncode: PAN descriptors, whose copy reads the destination's own fields, and PIB_ATTRIBUTE_VALUE on big-endian hosts, which the list decoder does not turn back, are excluded; a field past the end of params_t or of the buffer is the outcome `Astray`, a loop that never ends the outcome `Looping`.
- MacHosts.CrossHosts: PAN descriptors and PIB_ATTRIBUTE_VALUE are excluded, as for DecodeOfEncode.
- MacSap.HostIf.SetTlv: PAN descriptors are excluded, because what is written then depends on the buffer's old bytes and on the compiler's layout of pand_t; a field past the buffer's end is the caller's error, which the code does not stop.
- MacSap.HostIf.SetTlvs: PAN descriptors are excluded, as for SetTlv.
- MacSap.HostIf.GetTlvs: where the source's loop never ends, the model's stops with the status `Endless`.
- IniParser.Getsecnkeys: nothing is said of the count where the key buffer overruns.
- IniParser.Getseckeys: nothing is said of the array where the key buffer overruns.
- IniParser.DumpsectionIni: nothing is said of the text where the key buffer overruns.
- IniParser.DumpIni: nothing is said of the text where the key buffer overruns.
- The copies of the dictionary and parser in GHDD/cli and LB_Code_Base are the same code and are modelled once.
- GhddDriver.Ghdd.EventHandler: netlink forwarding, the capability byte and MAC address bookkeeping are not modelled, nor the bytes a frame shorter than its header is read from. Handlers are atomic steps, so interleaving inside one handler is not covered.
- GhddDriver.Ghdd.FwStateMachine: each case of the state switch is a method of its own.
- Kernel, netlink and socket buffers, the config-file reader, key derivation and command frame contents of ghdd_driver.c are not modelled.
- gvhost's sockets, threads and command dispatch, the CLI, the event logger, mac_pib.c and app_sup_layer.c would add only easy members or depend on code that is not shown.
