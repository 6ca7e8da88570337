# Verified models of firmware services

Dafny models of the stateful parts of this firmware tree, with proofs of what they keep. Each class
mirrors a driver's state and each method one of its functions; pure functions specify what the methods
compute, and the lemmas are about those.

- **SD/MMC driver** (`SdCommands`, `CardRegisters`, `SdHost`, `SdhcInstance`, `RpmbIo`, `BlockIo`, `SdPool`,
  `SdRuns`).
  A failing command recovers, recovery may soft-reset and re-initialise the card, and the commands of
  that may fail and recover again. Host and card may answer anything. Proved: termination by recovery
  attempts left and rank of the call, the attempt count, the STOP_TRANSMISSION rule (JEDEC Standard
  No. 84-A441), agreement of the protocol flags with the handle database, one RPMB publisher on the
  system, restoration of the partition, and the chunk loop of section 13.9 of the UEFI Specification.
- **Firmware-volume block service** (`FvBlockMap`, `FvAttributes`, `FvHeader`, `FvErase`, `FvVolume`,
  `FvRuns`). The volume is an array of bytes whose first bytes are its own header and block map
  (sections 3.2.1 and 3.4.2 of the PI Specification, Volume 3). Proved: the walk against the table of
  blocks, transfers, erase requests, start-up from any memory, and coherence of memory and disk.
- **OP-TEE shared memory** (`SharedMemory`). Proved over every run: placement, headers, fence, accounts.
- **SMBIOS strings** (`SmbiosStrings`; section 6.1.3 of DMTF DSP0134), **version scanner**
  (`VersionScanner`), **boot order** (`BootOrder`, `BootMenu`) and **front-page menu** (`FrontPage`).

`Bytes`, `Status` and `Wrappers` hold what the others share. `dafny verify dfyconfig.toml` checks everything.

Ghost state records the commands and data that a host was given (`issued`), its own operations (`controls`),
what was answered without an error (`succeeded`) and how often something failed (`faults`); `setbacks`
counts the driver's own reasons to give up. Every failing operation is `Excused` by one of these. A card is
`honest` if EXT_CSD tells its PARTITION_CONFIG truthfully and a SWITCH of it, if
performed, writes the value asked for. It may leave a SWITCH undone and show any error or none. `Valid`
states a slot's consistency, `Kept` what no operation of a slot disturbs, `Harmless` what initialisation
and recovery leave alone besides.

## Where the code does not do what it seems to

- The card-status error test keeps one error bit per card type (`SdCommands.CardStatusErrorExactly`).
- An erase request that stays clear of the header can fail half-way when a range wraps around
  (`FvRuns.WrapFailsHalfway`) or when blocks of length zero were counted at start-up
  (`FvRuns.MiscountFailsHalfway`), and in no other case (`FvErase.AllOrNothingExactly`). A request that
  erases the header steers itself by what it has erased and is not covered.
- Start-up keeps a header whose blocks lie behind the end of the volume (`FvVolume.OversizedVolumeKept`).
- A run of 2^32 bytes in a block map is skipped as empty (`FvBlockMap.LongRunSkippedWrongly`).
- A changed attribute word breaks the header checksum (`FvRuns.AttributeChangeBreaksChecksum`) and is not
  marked for write-back (`FvRuns.UnfixedVolumeBreaks`); from the template's word no request changes it
  (`FvAttributes.TemplateIsFixed`).
- Block requests whose block count or last block number wraps are let through, and no others beyond the
  device (`BlockIo.AcceptedLiesOnDevice`); of requests of 4 GiB and more only the size modulo 2^32 is moved
  (`BlockIo.CutShortExactly`).
- A standard-capacity card of 4 GiB or more gets a capacity modulo 2^32
  (`CardRegisters.CapacityRightExactly`).
- A card whose TRAN_SPEED calls for 450 MHz or more gets a clock from a product modulo 2^32
  (`CardRegisters.FrequencyRightExactly`).
- An RPMB request of 2^23 packets or more announces more blocks than it transfers
  (`RpmbIo.CountMatchesSizeExactly`).
- A status poll that succeeds only after the 200th wait counts as a time-out
  (`SdhcSlot.SdhcInstance.WaitForTranStateAndReadyForData`).
- Hidden options among the first six are put up for deletion when the boot-order page is sent back
  untouched (`BootOrder.ShownListDropsConcealed`). A full list that repeats an option or names an unknown
  one loses another unasked, and no other list does (`BootOrder.CountTellsExactly`).
- The form lookup would open a removed row for the index 0xFFFF (`FrontPageMenu.FrontPage.CallFrontPage`),
  which no caller is shown to pass: the driver passes 0 or the selected cell.
- If a recovery under a failing RPMB request resets the card and ends before EXT_CSD is read again, the
  switch back is made from a cleared copy and asks for boot bits 0 (`SdhcSlot.ClearedCopyClearsBootBits`).
  The boot bits are safe as long as EXT_CSD was read since the last reset (`RpmbIo.RpmbRequest`).
- When the switch to the RPMB partition fails, the driver does not switch back, even if the card performed it
  (`RpmbIo.RpmbRequest`); only then, or when the switch back fails, can the user area end up deselected.

## Model

| member | source | states |
|---|---|---|
| SdCommands.CardStatusErrorExactly | Microsoft/MsPkg/Drivers/SdMmcDxe/SdMmc.h:448-467 | the driver's error test sees one error bit per card type only, AKE_SEQ_ERROR on SD and SWITCH_ERROR on MMC, because the masked status is returned as a one-byte BOOLEAN |
| SdCommands.ErrorMissedExactly | Microsoft/MsPkg/Drivers/SdMmcDxe/SdMmcHw.h:88-96 | a status with an error of the mask is taken for good exactly when its errors all lie above the low byte |
| SdCommands.IllegalCommandMissed | Microsoft/MsPkg/Drivers/SdMmcDxe/SdMmc.h:458-463 | a concrete status, ILLEGAL_COMMAND, that the mask names and the test misses |
| SdCommands.CardStatusRead | Microsoft/MsPkg/Drivers/SdMmcDxe/SdMmcHw.h:55-70 | the two status fields that the driver polls are read at bits 8 and 12:9, whatever the other bits |
| SdCommands.AcceptedAnswers | Microsoft/MsPkg/Drivers/SdMmcDxe/Protocol.c:421-437 | answers that are no card status are never taken for errors; of a card status, bit 3 on SD and bit 7 on MMC alone are |
| SdCommands.PartitionSwitchOnly | Microsoft/MsPkg/Drivers/SdMmcDxe/Protocol.c:1495-1501 | of all arguments that the driver makes for all commands, only those for PARTITION_CONFIG switch the partition |
| SdCommands.CommandKinds | Microsoft/MsPkg/Drivers/SdMmcDxe/Protocol.c:1538-1797 | over the whole command table, the equality tests on commands pick exactly the multi-block transfers, the two switches, the block reads and the block writes |
| SdCommands.SwitchArg | Microsoft/MsPkg/Drivers/SdMmcDxe/Protocol.c:1495-1501 | the SWITCH argument decodes to the WriteByte access, the EXT_CSD index and the value put into it |
| SdCommands.PartitionRestored | Microsoft/MsPkg/Drivers/SdMmcDxe/Protocol.c:1492-1501 | switching the partition field away and back restores PARTITION_CONFIG, boot bits included |
| CardRegisters.LargeCardHasNoCapacity | Microsoft/MsPkg/Drivers/SdMmcDxe/Protocol.c:748-752 | a concrete register, of a 4 GiB card, whose capacity comes out as 0 |
| CardRegisters.CsdStructureRead | Microsoft/MsPkg/Drivers/SdMmcDxe/SdMmcHw.h:273-277 | structure and version are read from their bits, whatever stands in the rest of the word |
| CardRegisters.CsdSpeedRead | Microsoft/MsPkg/Drivers/SdMmcDxe/SdMmcHw.h:196-206 | speed and block length are read from their bits, whatever stands in the rest of the word |
| CardRegisters.CsdSizeRead | Microsoft/MsPkg/Drivers/SdMmcDxe/SdMmcHw.h:186-198 | a device size split over two words and its multiplier are put together again |
| CardRegisters.LargeSizeRead | Microsoft/MsPkg/Drivers/SdMmcDxe/Protocol.c:753-757 | for every C_SIZE of a version 2 CSD, the capacity is C_SIZE + 1 times 512 KiB |
| CardRegisters.StatedCapacityIs | Microsoft/MsPkg/Drivers/SdMmcDxe/Protocol.c:734-739 | a version 1 CSD states C_SIZE + 1 times 2^(C_SIZE_MULT + 2) blocks of 2^READ_BL_LEN bytes |
| CardRegisters.FrequencyRightExactly | Microsoft/MsPkg/Drivers/SdMmcDxe/Protocol.c:852-982 | the maximum clock is the rate unit times the time value except where the UINT32 product wraps around, from 450 MHz on |
| CardRegisters.ClockKnownExactly | Microsoft/MsPkg/Drivers/SdMmcDxe/Protocol.c:875-969 | a maximum clock is found for every TRAN_SPEED but those with a reserved rate unit or time value |
| CardRegisters.StandardClocks | Microsoft/MsPkg/Drivers/SdMmcDxe/Protocol.c:852-982 | the TRAN_SPEED codes of the standard speeds give 25 and 50 MHz on SD, 26 and 52 MHz on MMC |
| CardRegisters.SdSerialRead | Microsoft/MsPkg/Drivers/SdMmcDxe/SdMmcHw.h:150-160 | the serial number of an SD card is put together from two words |
| CardRegisters.MmcSerialRead | Microsoft/MsPkg/Drivers/SdMmcDxe/SdMmcHw.h:161-172 | the serial number of an MMC card is put together from two words |
| CardRegisters.OcrRead | Microsoft/MsPkg/Drivers/SdMmcDxe/SdMmcHw.h:130-150 | power-up, access mode, CCS and the high voltage window are read from their fields of the OCR |
| CardRegisters.EchoRead | Microsoft/MsPkg/Drivers/SdMmcDxe/Protocol.c:1133-1152 | the answer to CMD8 is good if and only if its two fields are those that were sent |
| SdhcSlot.CapacityGiven | Microsoft/MsPkg/Drivers/SdMmcDxe/Protocol.c:719-766 | an SD card of version 2 gets 1024 * (C_SIZE + 1) blocks; any other card what its CSD states, if and only if that is below 4 GiB; a high-capacity MMC card none |
| SdhcSlot.PowerClassRead | Microsoft/MsPkg/Drivers/SdMmcDxe/Protocol.c:1335-1342 | the power class needed is the upper half of the byte for the speed the card is at |
| SdhcSlot.TypeExactly | Microsoft/MsPkg/Drivers/SdMmcDxe/Protocol.c:581-612 | which of the answers make a card combo, SDIO, SD or MMC |
| SdhcSlot.ConfigurationWrites | Microsoft/MsPkg/Drivers/SdMmcDxe/Protocol.c:1309-1447 | the bytes of EXT_CSD that the configuration writes are HS_TIMING with 1, POWER_CLASS with the class needed, and BUS_WIDTH with 2, in this order |
| SdhcSlot.OfferIs | Microsoft/MsPkg/Drivers/SdMmcDxe/Protocol.c:1167-1186 | the OCR is read with argument 0, and its window offered with the high-capacity bit |
| CardRegisters.BlocksFit | Microsoft/MsPkg/Drivers/SdMmcDxe/Protocol.c:756-763 | every CSD states at most 2^32 blocks |
| SdhcSlot.CsdFields | Microsoft/MsPkg/Drivers/SdMmcDxe/Protocol.c:756-763 | a CSD changes capacity, version and speed of the card data and nothing else |
| SdhcSlot.StopDiscipline | Microsoft/MsPkg/Drivers/SdMmcDxe/Protocol.c:532-549 | in what a successful multi-block transfer handed to the host, STOP_TRANSMISSION occurs, directly behind the data, if and only if the success before it was not SET_BLOCK_COUNT |
| SdhcSlot.PolledSays | Microsoft/MsPkg/Drivers/SdMmcDxe/Protocol.c:620-655 | commands and data followed by status polls alone are, polls aside, those commands and data |
| SdhcSlot.SaidThen | Microsoft/MsPkg/Drivers/SdMmcDxe/RpmbIo.c:76-130 | what was issued in one stretch and then in the next is, polls aside, the one after the other |
| SdhcSlot.SdhcInstance.constructor | Microsoft/MsPkg/Drivers/SdMmcDxe/SdMmc.c:129-224 | a new slot has empty history, no recovery attempt counted, and flags that agree with the handle database |
| SdhcSlot.SdhcInstance.SendCommandHelper | Microsoft/MsPkg/Drivers/SdMmcDxe/Protocol.c:377-444 | fails if and only if the host or the card's answer does; the host is given the command first in any case; success appends exactly the command and its argument (after CMD55 with the card's address for an application command) to what the host saw and to the last-two history |
| SdhcSlot.SdhcInstance.RecoverFromErrors | Microsoft/MsPkg/Drivers/SdMmcDxe/Protocol.c:279-374 | terminates for every host, with the attempt count of entry, which never passes threshold + 1 through nested soft resets; at the threshold it gives up and issues nothing; below it the CMD line, and behind a data command the DAT line, is always reset; if the last reset fails the card is soft-reset, and if it works a multi-block command makes it ask for the card's state and any other ends it there |
| SdhcSlot.SdhcInstance.RecoverySequence | Microsoft/MsPkg/Drivers/SdMmcDxe/Protocol.c:303-350 | the steps of a recovery and what they depend on; one of a multi-block command that succeeds leaves the transfer stopped or the card seen in its transfer state |
| SdhcSlot.SdhcInstance.SendCommand | Microsoft/MsPkg/Drivers/SdMmcDxe/Protocol.c:446-478 | fails if and only if the host or the card's answer does (a SWITCH also when its polls run out), and below the threshold every failure is recovered from; success means no soft reset happened underneath and the host saw the command with its argument and, for SWITCH, status polls only; the partition register of an honest card is as before or what the SWITCH asked for |
| SdhcSlot.SdhcInstance.SendDataCommand | Microsoft/MsPkg/Drivers/SdMmcDxe/Protocol.c:480-558 | success moved exactly the addressed bytes between card and buffer, a single-block command one block, and gave the host command, data, STOP_TRANSMISSION only if due, and polls; failure has a fault of the host or a poll that ran out behind it and is recovered from; no outcome touches a byte outside the addressed range or the boot bits, nor deselects an honest card's user area |
| SdhcSlot.SdhcInstance.TransferData | Microsoft/MsPkg/Drivers/SdMmcDxe/Protocol.c:491-531 | fails if and only if the host does; the command and data phases change the buffer only for reads and the card only for writes, inside the addressed range |
| SdhcSlot.SdhcInstance.EndTransfer | Microsoft/MsPkg/Drivers/SdMmcDxe/Protocol.c:532-549 | the transfer is stopped explicitly exactly when the success before the command was not SET_BLOCK_COUNT |
| SdhcSlot.SdhcInstance.WaitForTranStateAndReadyForData | Microsoft/MsPkg/Drivers/SdMmcDxe/Protocol.c:620-655 | success takes at most 200 polls with nothing else issued, none but the last answer showing the card ready and in its transfer state; failure is a poll that failed and was recovered from, or 201 polls |
| SdhcSlot.SdhcInstance.SendStatus | Microsoft/MsPkg/Drivers/SdMmcDxe/Protocol.c:1060-1080 | fails if and only if the host or the card's answer does; success issued one SEND_STATUS to the card's address and disturbed nothing |
| SdhcSlot.SdhcInstance.StopTransmission | Microsoft/MsPkg/Drivers/SdMmcDxe/Protocol.c:800-809 | fails if and only if the host or the card's answer does; success issued one STOP_TRANSMISSION to the card's address and disturbed nothing |
| SdhcSlot.SdhcInstance.SendIfCondSd | Microsoft/MsPkg/Drivers/SdMmcDxe/Protocol.c:1126-1156 | success means the card echoed check pattern and voltage, and HasExtendedOcr alone changed; failure means a fault of the host or another answer, and changes the card data only by a soft reset |
| SdhcSlot.SdhcInstance.SendOpCondMmc | Microsoft/MsPkg/Drivers/SdMmcDxe/Protocol.c:1257-1307 | success means CMD1 was issued 1 to 200 times with window and sector mode and nothing else, the last answer shows power-up and the high voltage window, and its access mode alone set the capacity class; failure means a fault of the host, a wrong window, or 200 answers without power-up |
| SdhcSlot.SdhcInstance.SendOpCondSd | Microsoft/MsPkg/Drivers/SdMmcDxe/Protocol.c:1158-1213 | success means ACMD41 was issued once with argument 0 and then 1 to 200 times with a window and the high-capacity bit, the last answer shows power-up, and its CCS bit set the capacity class of a card with an extended OCR; failure means a fault of the host or 200 answers without power-up |
| SdhcSlot.SdhcInstance.QueryCardType | Microsoft/MsPkg/Drivers/SdMmcDxe/Protocol.c:568-618 | success means the card was sent idle and CMD8 and CMD5 were tried, a type was found, and unless a recovery reset the card underneath it is that of the probes answered: combo, SDIO, SD, and MMC, after CMD1, only if neither of those answered |
| SdhcSlot.SdhcInstance.SendCsd | Microsoft/MsPkg/Drivers/SdMmcDxe/Protocol.c:696-766 | success stores exactly what the register received states, by card type and version, and sizes the media by it: a version 2 SD card ends at block 1024 * (C_SIZE + 1) - 1 |
| SdhcSlot.SdhcInstance.SendRelativeAddr | Microsoft/MsPkg/Drivers/SdMmcDxe/Protocol.c:821-849 | an MMC card is told the address 0xCCCC, and any other card states its own, by which it is addressed from then on; nothing else changes |
| SdhcSlot.SdhcInstance.SendCid | Microsoft/MsPkg/Drivers/SdMmcDxe/Protocol.c:657-694 | the CID of an SD or MMC card is the response; nothing else changes |
| SdhcSlot.SdhcInstance.IdentifyCard | Microsoft/MsPkg/Drivers/SdMmcDxe/Protocol.c:156-178 | success issued CMD2, CMD3, CMD10 and CMD9 in this order, the last two to the address found, and changed only address, CID and CSD fields |
| SdhcSlot.SdhcInstance.SendExtCsd | Microsoft/MsPkg/Drivers/SdMmcDxe/Protocol.c:1449-1479 | success re-read EXT_CSD with one command and polls; capacity, last block and RPMB sizes are those it states and nothing else changed; an honest card reports its true PARTITION_CONFIG |
| SdhcSlot.SdhcInstance.SwitchSpeedModeMmc | Microsoft/MsPkg/Drivers/SdMmcDxe/Protocol.c:1408-1447 | success issued the switch of HS_TIMING to 1 and the re-read of EXT_CSD, which confirms high speed |
| SdhcSlot.SdhcInstance.SwitchBusWidthMmc | Microsoft/MsPkg/Drivers/SdMmcDxe/Protocol.c:1309-1406 | success read EXT_CSD, raised the power class to what the 8-bit bus needs exactly if that is more than the card allows and saw it raised, and then switched card and host to 8 bits; nothing else was issued but polls |
| SdhcSlot.SdhcInstance.InitializeSdDevice | Microsoft/MsPkg/Drivers/SdMmcDxe/Protocol.c:143-205 | success issued exactly ACMD41 up to power-up, the four identification commands, CMD7 and ACMD6, each with its argument, and set the host to 4 bits and the card's maximum clock, with no recovery resetting the card; failure has a reason |
| SdhcSlot.SdhcInstance.InitializeMmcDevice | Microsoft/MsPkg/Drivers/SdMmcDxe/Protocol.c:207-277 | success means a card of specification 4 or later at high speed, after exactly the identification commands, CMD7, EXT_CSD, speed and bus-width switches with their arguments, and polls, and a host at 8 bits and 52 MHz; an honest card's EXT_CSD is then its register; failure has a reason |
| SdhcSlot.SdhcInstance.SetMaxClockFrequency | Microsoft/MsPkg/Drivers/SdMmcDxe/Protocol.c:985-1023 | the host's clock is set to what the card's type and speed allow, and not at all if its TRAN_SPEED is reserved |
| SdhcSlot.SdhcInstance.PrepareHost | Microsoft/MsPkg/Drivers/SdMmcDxe/Protocol.c:54-75 | the card data is cleared; success means the whole host was reset and its clock then set to 400 kHz |
| SdhcSlot.SdhcInstance.InitializeDevice | Microsoft/MsPkg/Drivers/SdMmcDxe/Protocol.c:36-141 | success, after a reset of the whole host and 400 kHz, leaves an initialised SD or MMC card with 512-byte blocks, its serial number as media identifier, removable if and only if it is an SD card, and an honest MMC card's boot bits read; in every outcome the card's user area, boot bits and the attempt count are as on entry; failure has a reason |
| SdhcSlot.SdhcInstance.Publish | Microsoft/MsPkg/Drivers/SdMmcDxe/SdMmc.c:574-625 | after an install that may fail, the flag still says what the handle database holds |
| SdhcSlot.SdhcInstance.Withdraw | Microsoft/MsPkg/Drivers/SdMmcDxe/SdMmc.c:653-683 | after an uninstall that may fail, the flag still says what the handle database holds; nothing recorded is nothing to do |
| SdhcSlot.SdhcInstance.UninstallAllProtocols | Microsoft/MsPkg/Drivers/SdMmcDxe/SdMmc.c:765-833 | fails if and only if an uninstall does, in the order block I/O, RPMB I/O, device path; success leaves the slot with no protocol recorded or installed |
| SdhcSlot.SdhcInstance.PublishProtocols | Microsoft/MsPkg/Drivers/SdMmcDxe/SdMmc.c:574-642 | fails if and only if an install does or memory for a text is missing; success publishes block I/O and device path, and RPMB I/O only if no handle of the system had it, with the partition read; at most one publisher afterwards, and it has read an honest card's boot bits |
| SdhcSlot.SdhcInstance.BringUp | Microsoft/MsPkg/Drivers/SdMmcDxe/SdMmc.c:486-644 | success ends either with an initialised SD or MMC card and its protocols or with an empty slot that publishes block I/O alone; failure has a reason: a fault, a failed install or uninstall, an answer the driver cannot use, or no memory |
| SdhcSlot.SdhcInstance.TakeDown | Microsoft/MsPkg/Drivers/SdMmcDxe/SdMmc.c:486-538 | success leaves no protocol, and media data that say nothing but what the slot just answered: whether a card is present and, if so, read-only |
| SdhcSlot.SdhcInstance.Cleanup | Microsoft/MsPkg/Drivers/SdMmcDxe/SdMmc.c:652-684 | block I/O stays as it was and the rest goes as far as the database lets it; the status is success if and only if the last uninstall made worked, and the cause if none was made |
| SdhcSlot.SdhcInstance.SoftReset | Microsoft/MsPkg/Drivers/SdMmcDxe/SdMmc.c:468-691 | terminates for every host, nested or not; if nothing failed the slot is brought up; after a failure, which has a reason, the card's protocols go as far as the database lets them, and success is returned if and only if the last uninstall worked, by the flags at the Exit label |
| SdhcSlot.SdhcInstance.SwitchPartitionMmc | Microsoft/MsPkg/Drivers/SdMmcDxe/Protocol.c:1481-1535 | success means driver and re-read EXT_CSD both name the partition, after one SWITCH of the byte last read with its access bits replaced, one re-read and polls; whatever the outcome, and whether or not an honest card performed the SWITCH, it keeps its boot bits if those last read were right |
| SdhcSlot.ClearedCopyClearsBootBits | Microsoft/MsPkg/Drivers/SdMmcDxe/Protocol.c:1495-1501 | a switch made from the copy of EXT_CSD that initialisation clears asks for boot bits 0, for every partition |
| SdHost.HandleDatabase.Install | Microsoft/MsPkg/Drivers/SdMmcDxe/SdMmc.c:575-579 | installing a present interface fails; other handles' entries stay; RPMB uniqueness is kept unless a second publisher is added |
| SdHost.HandleDatabase.Uninstall | Microsoft/MsPkg/Drivers/SdMmcDxe/SdMmc.c:654-658 | uninstalling an absent interface fails; other handles' entries stay |
| SdHost.HandleDatabase.Locate | Microsoft/MsPkg/Drivers/SdMmcDxe/SdMmc.c:744-762 | finds RPMB I/O exactly when some handle of the system publishes it |
| SdPool.EntriesKept | Microsoft/MsPkg/Drivers/SdMmcDxe/SdMmc.c:695-742 | what one handle's slot does to the database leaves every other handle's entries alone |
| SdPool.ResetSlot | Microsoft/MsPkg/Drivers/SdMmcDxe/BlockIo.c:306-319 | a reset of any slot at any time keeps all flags in agreement with the one database, RPMB I/O unique, selected user areas selected and every card's boot bits |
| SdPool.CheckCards | Microsoft/MsPkg/Drivers/SdMmcDxe/SdMmc.c:693-742 | every slot is asked for its card; those whose card came or went since are soft-reset and all others untouched; flags agree with the one database, RPMB I/O is unique, selected user areas stay selected and boot bits are kept |
| SdRuns.Serve | Microsoft/MsPkg/Drivers/SdMmcDxe/SdMmc.c:693-833 | in every run of card checks, resets, block I/O on published slots and RPMB requests on a pool, with any host outcomes: all flags agree with the database, RPMB I/O is unique, a published slot with a card has a command history, one that publishes RPMB I/O has an honest card's boot bits read, no recovery attempt stays counted, and the user area of an honest card stays selected unless an RPMB request to that slot failed |
| SdRuns.SelectedMeansUserArea | Microsoft/MsPkg/Drivers/SdMmcDxe/BlockIo.c:239-274 | a block request on such a slot goes to the user area |
| SdhcSlot.UnpolledHolds | Microsoft/MsPkg/Drivers/SdMmcDxe/Protocol.c:620-655 | setting polls aside loses no other command or data |
| RpmbIo.TranscriptHasNoStop | Microsoft/MsPkg/Drivers/SdMmcDxe/RpmbIo.c:85-163 | a successful request of any type, partition switches included, never issued STOP_TRANSMISSION |
| RpmbIo.RequestTypeRead | Microsoft/MsPkg/Drivers/SdMmcDxe/RpmbIo.c:66-74 | every request type, most significant byte first in its packet, is read as itself |
| RpmbIo.AuthenticatedWriteSends | Microsoft/MsPkg/Drivers/SdMmcDxe/RpmbIo.c:373-381 | a packet of type 3 gives exactly: a reliable count, all packets, then the result query and one packet back |
| RpmbIo.KeyProgrammingSends | Microsoft/MsPkg/Drivers/SdMmcDxe/RpmbIo.c:357-363 | a packet of type 1 gives exactly: a reliable count of one, that packet, then the result query and one packet back |
| RpmbIo.ReadsSend | Microsoft/MsPkg/Drivers/SdMmcDxe/RpmbIo.c:365-371 | a packet of type 2 or 4 gives exactly: that packet under a count of one, and one packet or as many as asked for back |
| RpmbIo.OthersSendNothing | Microsoft/MsPkg/Drivers/SdMmcDxe/RpmbIo.c:382-386 | a packet of any other type gives nothing |
| RpmbIo.ResultPacketAsks | Microsoft/MsPkg/Drivers/SdMmcDxe/RpmbIo.c:37-52 | the packet sent to fetch a result is of type 5 |
| RpmbIo.CountMatchesSizeExactly | Microsoft/MsPkg/Drivers/SdMmcDxe/RpmbIo.c:85-119 | the count announced and the UINT32 size of the data agree if and only if there are fewer than 2^23 packets |
| RpmbIo.CountedTransfer | Microsoft/MsPkg/Drivers/SdMmcDxe/RpmbIo.c:85-105 | success issued SET_BLOCK_COUNT with the count and the reliable bit, the transfer and its data, nothing else but polls; the user area is spared when another partition is selected |
| RpmbIo.RpmbRead | Microsoft/MsPkg/Drivers/SdMmcDxe/RpmbIo.c:76-130 | success sent the first packet of the request under a count of one and read as many packets as asked for, and nothing else but polls |
| RpmbIo.RpmbWrite | Microsoft/MsPkg/Drivers/SdMmcDxe/RpmbIo.c:132-163 | success sent the packets of the request reliably under their count; they are not changed |
| RpmbIo.RpmbQueryResult | Microsoft/MsPkg/Drivers/SdMmcDxe/RpmbIo.c:165-184 | success sent the packet that asks for the result and read one packet |
| RpmbIo.WriteThenQuery | Microsoft/MsPkg/Drivers/SdMmcDxe/RpmbIo.c:186-258 | success sent the packets reliably and then fetched the result, in that order |
| RpmbIo.Dispatch | Microsoft/MsPkg/Drivers/SdMmcDxe/RpmbIo.c:354-392 | success issued exactly the conversation that the request calls for, counts and packets included; an unknown type issues nothing and succeeds |
| RpmbIo.RpmbRequest | Microsoft/MsPkg/Drivers/SdMmcDxe/RpmbIo.c:314-411 | success means the driver's partition and the re-read PARTITION_ACCESS are those of entry, the host saw exactly the switch, the conversation of the request, its counts and packets included, and the switch back, with no STOP_TRANSMISSION and no soft reset; whatever the outcome, an honest card's user area is intact, and on a slot that publishes RPMB I/O its boot bits are kept if no soft reset happened, or if those last read were still right at the switch back; a request that switched back leaves a selected user area selected |
| BlockIo.AcceptedLiesOnDevice | Microsoft/MsPkg/Drivers/SdMmcDxe/BlockIo.c:197-208 | an accepted request lies on the device if and only if neither its block count wraps around 2^32 nor its last block number around 2^64 |
| BlockIo.AcceptedExactly | Microsoft/MsPkg/Drivers/SdMmcDxe/BlockIo.c:166-221 | a request is let through if and only if it names the present card, has an aligned buffer of whole blocks, does not write to protected media, and its last block number, wraps included, is in range |
| BlockIo.ProtectedFromWrites | Microsoft/MsPkg/Drivers/SdMmcDxe/BlockIo.c:187-190 | writes to protected media are refused as such and nothing else is; reading does not mind the protection |
| BlockIo.EarlyRefusals | Microsoft/MsPkg/Drivers/SdMmcDxe/BlockIo.c:166-185 | another card, a missing buffer, no card, no bytes: each is answered in this order whatever else is wrong |
| BlockIo.CommandForBlocks | Microsoft/MsPkg/Drivers/SdMmcDxe/BlockIo.c:223-235 | the command is for one block if and only if the request is, and in the request's direction |
| BlockIo.WrappingRequestAccepted | Microsoft/MsPkg/Drivers/SdMmcDxe/BlockIo.c:199 | a concrete request off the device that every medium lets through |
| BlockIo.TruncatedCountAccepted | Microsoft/MsPkg/Drivers/SdMmcDxe/BlockIo.c:198 | a concrete request of 2^32 + 1 blocks that every medium lets through |
| BlockIo.WholeRequestDropped | Microsoft/MsPkg/Drivers/SdMmcDxe/BlockIo.c:240-244 | a concrete request of 4 GiB that is let through and of which nothing is moved |
| BlockIo.MaxTransferWrapsExactly | Microsoft/MsPkg/Drivers/SdMmcDxe/BlockIo.c:238-239 | the maximum transfer size is 0 if and only if the host's block count is a multiple of 2^23 |
| BlockIo.ChunksTile | Microsoft/MsPkg/Drivers/SdMmcDxe/BlockIo.c:239-274 | the chunks are nonempty whole-block pieces no larger than the host's maximum, back to back over the request, each at the block its offset calls for |
| BlockIo.AcceptedChunksLieOnDevice | Microsoft/MsPkg/Drivers/SdMmcDxe/BlockIo.c:197-274 | for an accepted request whose last block number does not wrap around, of any size, the chunks tile what is moved of it and every chunk ends within LastBlock |
| BlockIo.TryChunk | Microsoft/MsPkg/Drivers/SdMmcDxe/BlockIo.c:251-270 | three attempts at most, each giving the host the command for the chunk, and three when all fail; failed attempts change no byte outside the chunk and have a reason; success moved the chunk exactly and, for a multi-block command after any success but SET_BLOCK_COUNT, was stopped explicitly |
| BlockIo.ProgressStep | Microsoft/MsPkg/Drivers/SdMmcDxe/BlockIo.c:251-274 | one more chunk extends what is known of card and buffer; agreement on all bytes so far is lost only by a chunk that failed |
| BlockIo.TrailStep | Microsoft/MsPkg/Drivers/SdMmcDxe/BlockIo.c:251-274 | every chunk was tried after the one before it; every multi-block success behind another success of the request was followed by STOP_TRANSMISSION |
| BlockIo.PartwayStep | Microsoft/MsPkg/Drivers/SdMmcDxe/BlockIo.c:239-274 | the loop's next chunk is the next of the tiling, and the rest of the tiling remains |
| BlockIo.MoveChunk | Microsoft/MsPkg/Drivers/SdMmcDxe/BlockIo.c:244-274 | one round of the loop keeps its state: chunks done and to come make up the request |
| BlockIo.TransferLoop | Microsoft/MsPkg/Drivers/SdMmcDxe/BlockIo.c:239-274 | terminates; up to the last chunk tried, card and buffer differ from before inside the bytes tried only, and agree on them if every chunk tried succeeded, even when the run ends in a fault; without a fault all chunks are tried, and the status is the last chunk's alone |
| BlockIo.IoBlocks | Microsoft/MsPkg/Drivers/SdMmcDxe/BlockIo.c:141-287 | for requests of any size on a published slot: a refused request touches nothing; an accepted one ends as the chunk loop does on the bytes that its UINT32 count keeps, and touches nothing if that is none; a zero block size is reached by division exactly as in the code |
| FvBlockMap.WalkFindsBlock | Platforms/Rk356xPkg/Drivers/VarBlockServiceDxe/VarBlockService.c:166-203 | the walk succeeds exactly for block numbers below the sum of NumBlocks, and reports the block's length and the rest of its run |
| FvBlockMap.WalkOffset | Platforms/Rk356xPkg/Drivers/VarBlockServiceDxe/VarBlockService.c:182-202 | the offset found is where the block begins, after all lower blocks, if and only if no skipped run is 2^32 bytes or longer |
| FvBlockMap.LongRunSkippedWrongly | Platforms/Rk356xPkg/Drivers/VarBlockServiceDxe/VarBlockService.c:200 | a concrete map whose 2^32-byte run is skipped as if it were empty |
| FvBlockMap.WalkExact | Platforms/Rk356xPkg/Drivers/VarBlockServiceDxe/VarBlockService.c:166-203 | over a map of less than 2^32 bytes every block is found exactly where it begins |
| FvBlockMap.BlocksInOrder | Platforms/Rk356xPkg/Drivers/VarBlockServiceDxe/VarBlockService.c:166-203 | consecutive blocks abut, and distinct blocks occupy disjoint ranges in order |
| FvBlockMap.MapFrame | Platforms/Rk356xPkg/Drivers/VarBlockServiceDxe/VarBlockService.h:29-32 | the map depends on the bytes below its end entry only |
| FvVolume.FvInstance.GetLbaAddress | Platforms/Rk356xPkg/Drivers/VarBlockServiceDxe/VarBlockService.c:127-203 | the loop over the map in memory computes the walk, sums taken modulo the register width |
| FvVolume.FvInstance.LocateBlock | Platforms/Rk356xPkg/Drivers/VarBlockServiceDxe/VarBlockService.c:127-203 | in a usable volume a block is found exactly at the start the flattened table gives it, and no other number is found |
| FvAttributes.FixedExactly | Platforms/Rk356xPkg/Drivers/VarBlockServiceDxe/VarBlockService.c:286-376 | every accepted attribute request is the identity if and only if the word is locked, lacks a capability pair, or can toggle neither status and not be locked |
| FvAttributes.AcceptedRequest | Platforms/Rk356xPkg/Drivers/VarBlockServiceDxe/VarBlockService.c:371-376 | an accepted request changes status bits only, to what was asked, and the result is acceptable to itself |
| FvAttributes.DeniedExactly | Platforms/Rk356xPkg/Drivers/VarBlockServiceDxe/VarBlockService.c:311-330 | access is denied if and only if the volume is locked and the request keeps the fixed bits but not the status |
| FvAttributes.FixedAcceptsIdentityOnly | Platforms/Rk356xPkg/Drivers/VarBlockServiceDxe/VarBlockService.c:310-372 | from a fixed word no accepted request changes anything |
| FvAttributes.UnfixedAcceptsToggle | Platforms/Rk356xPkg/Drivers/VarBlockServiceDxe/VarBlockService.c:310-372 | from any other word some request is accepted and changes it |
| FvAttributes.TemplateIsFixed | Platforms/Rk356xPkg/Drivers/VarBlockServiceDxe/FvbInfo.c:40-46 | the template's attribute word is fixed, readable and writable |
| FvAttributes.WriteThenRead | Platforms/Rk356xPkg/Drivers/VarBlockServiceDxe/VarBlockService.c:371-373 | a word stored in the header reads back |
| FvAttributes.ReadThenWrite | Platforms/Rk356xPkg/Drivers/VarBlockServiceDxe/VarBlockService.c:286-288 | storing the word that was read changes no byte |
| FvHeader.WordSumPut | Platforms/Rk356xPkg/Drivers/VarBlockServiceDxe/VarBlockService.c:786 | replacing one 16-bit word moves the header sum by the difference |
| FvHeader.ValidateFrame | Platforms/Rk356xPkg/Drivers/VarBlockServiceDxe/VarBlockService.c:766-798 | validation depends on the header bytes only |
| FvHeader.ValidExactly | Platforms/Rk356xPkg/Drivers/VarBlockServiceDxe/VarBlockService.c:749-795 | a header is valid if and only if it has revision 2, the letters _FVH, a length not all ones, an even header length, and words that add up to nothing |
| FvHeader.ChecksumMakesSumZero | Platforms/Rk356xPkg/Drivers/VarBlockServiceDxe/FvbInfo.c:84-97 | the computed checksum makes all header words add up to 0 modulo 2^16, and computing it again changes nothing |
| FvHeader.OneRunVolume | Platforms/Rk356xPkg/Drivers/VarBlockServiceDxe/FvbInfo.c:21-72 | a volume that begins with a checksummed header of one run validates, states its length and attributes, and has that run closed by an end entry, whether or not it fits; the template is the case of as many blocks as fit |
| FvHeader.MediaInfo.GetFvbInfo | Platforms/Rk356xPkg/Drivers/VarBlockServiceDxe/FvbInfo.c:75-109 | every call, the first or a later one, finds the same checksummed header for the platform's length and nothing for another |
| FvErase.HeaderFrame | Platforms/Rk356xPkg/Drivers/VarBlockServiceDxe/VarBlockService.h:29-32 | map, attributes and validity survive as long as the header bytes do |
| FvErase.PlanInsideBlock | Platforms/Rk356xPkg/Drivers/VarBlockServiceDxe/VarBlockService.c:634-644 | a transfer stays inside its block and the volume; it is cut short, with BAD_BUFFER_SIZE, exactly when it would cross the block's end |
| FvErase.PlanBeginsAtOffset | Platforms/Rk356xPkg/Drivers/VarBlockServiceDxe/VarBlockService.c:646-650 | a transfer begins at its offset in its block |
| FvErase.RejectedExactly | Platforms/Rk356xPkg/Drivers/VarBlockServiceDxe/VarBlockService.c:596-634 | nothing is moved if and only if there is no buffer, byte or such block, the permission is missing, or the offset lies behind the block; a missing permission is told before a bad offset |
| FvErase.WriteThenReadBack | Platforms/Rk356xPkg/Drivers/VarBlockServiceDxe/VarBlockService.c:609-745 | a write beyond the header is read back at the same place: same bytes, same count, same status |
| FvErase.WriteThenReadBlock | Platforms/Rk356xPkg/Drivers/VarBlockServiceDxe/VarBlockService.c:646-742 | a block read whole after a write is the block before it with the data put at the offset, cut off at its end |
| FvErase.LbaAtIs | Platforms/Rk356xPkg/Drivers/VarBlockServiceDxe/VarBlockService.c:543-552 | the erase loop's block numbers count up modulo 2^64 |
| FvErase.EraseOneMore | Platforms/Rk356xPkg/Drivers/VarBlockServiceDxe/VarBlockService.c:207-254 | erasing one more block is filling exactly its bytes with 0xFF |
| FvErase.EraseRefused | Platforms/Rk356xPkg/Drivers/VarBlockServiceDxe/VarBlockService.c:508-559 | bad ranges are refused before a write-protected volume is; either way nothing is erased, and nothing asked for is a success |
| FvErase.WrappingRangeIsBad | Platforms/Rk356xPkg/Drivers/VarBlockServiceDxe/VarBlockService.c:526 | a range that wraps around 2^64 asks for a block no volume has |
| FvErase.OverrunsExactly | Platforms/Rk356xPkg/Drivers/VarBlockServiceDxe/VarBlockService.c:543-552 | a range asks for a missing block if and only if it wraps around or ends beyond the last block |
| FvErase.CountedBlocksFailByWrapping | Platforms/Rk356xPkg/Drivers/VarBlockServiceDxe/VarBlockService.c:526 | while the count is the number of blocks, an accepted range overruns only by wrapping around |
| FvErase.AllOrNothingExactly | Platforms/Rk356xPkg/Drivers/VarBlockServiceDxe/VarBlockService.c:508-559 | for requests that stay clear of the header, on any usable volume and for any count taken at start-up: a failed request has erased nothing, if and only if it is not one that passes the first check on a writable volume with an existing first block although a range wraps around or ends beyond the last block |
| FvErase.CountIsTableSize | Platforms/Rk356xPkg/Drivers/VarBlockServiceDxe/VarBlockService.c:892-910 | the block count taken at start-up is the number of blocks that can be found, if and only if no counted entry has blocks of zero length |
| FvErase.EmptyBlockMiscounted | Platforms/Rk356xPkg/Drivers/VarBlockServiceDxe/VarBlockService.c:892-905 | a concrete map of which three blocks are counted and two can be found |
| FvVolume.FvInstance.Read | Platforms/Rk356xPkg/Drivers/VarBlockServiceDxe/VarBlockService.c:659-745 | the buffer receives exactly the planned bytes of the volume and keeps the rest; a rejected read changes nothing |
| FvVolume.FvInstance.Write | Platforms/Rk356xPkg/Drivers/VarBlockServiceDxe/VarBlockService.c:562-656 | the volume receives exactly the planned bytes and becomes dirty; a rejected write changes nothing |
| FvVolume.FvInstance.VarStoreWrite | Platforms/Rk356xPkg/Drivers/VarBlockServiceDxe/VarBlockService.c:90-101 | only the addressed bytes change, and the volume is dirty |
| FvVolume.FvInstance.VarStoreErase | Platforms/Rk356xPkg/Drivers/VarBlockServiceDxe/VarBlockService.c:104-114 | exactly the addressed bytes become 0xFF, and the volume is dirty |
| FvVolume.FvInstance.EraseBlock | Platforms/Rk356xPkg/Drivers/VarBlockServiceDxe/VarBlockService.c:206-254 | a write-disabled volume or an unknown block changes nothing; otherwise the block alone becomes 0xFF |
| FvVolume.FvInstance.SetAttributes | Platforms/Rk356xPkg/Drivers/VarBlockServiceDxe/VarBlockService.c:257-376 | only the attribute word in the header changes, by the rule on accepted requests; the dirty flag does not |
| FvVolume.FvInstance.CheckRanges | Platforms/Rk356xPkg/Drivers/VarBlockServiceDxe/VarBlockService.c:515-532 | accepts the list exactly when every range is nonempty and ends, modulo 2^64, within the block count |
| FvVolume.FvInstance.EraseBlocks | Platforms/Rk356xPkg/Drivers/VarBlockServiceDxe/VarBlockService.c:478-559 | on ranges beyond the header, status and erased blocks are those specified: the blocks become 0xFF, in order up to a failure, and nothing else changes |
| FvVolume.FvInstance.CountBlocks | Platforms/Rk356xPkg/Drivers/VarBlockServiceDxe/VarBlockService.c:892-905 | counts the blocks up to the first entry of zero blocks |
| FvVolume.FvInstance.Initialize | Platforms/Rk356xPkg/Drivers/VarBlockServiceDxe/VarBlockService.c:850-910 | from any memory whose kept map is closed: the header validates afterwards and states the length; a good volume is kept as it is, any other is erased and given the template, and becomes dirty; the volume is ready for service if and only if a kept header maps blocks inside it |
| FvVolume.UsableExactly | Platforms/Rk356xPkg/Drivers/VarBlockServiceDxe/VarBlockService.c:127-203 | over any closed map of a volume of 64 KiB to 4 GiB, no block that the walk finds leaves the volume, if and only if the blocks fit it |
| FvVolume.OneRunKept | Platforms/Rk356xPkg/Drivers/VarBlockServiceDxe/VarBlockService.c:850-860 | a checksummed header of one run is kept whatever the run's length; the volume is usable if and only if the run fits |
| FvVolume.OversizedVolumeKept | Platforms/Rk356xPkg/Drivers/VarBlockServiceDxe/VarBlockService.c:850-860 | a concrete volume that is kept although its last block lies behind its end, where the walk finds it |
| FvVolume.FvInstance.Reinitialise | Platforms/Rk356xPkg/Drivers/VarBlockServiceDxe/VarBlockService.c:861-890 | the new volume is fresh: checksummed template, one run of blocks that tiles it when the block size divides its length, 0xFF beyond |
| FvVolume.FvInstance.DoDump | Platforms/Rk356xPkg/Drivers/VarBlockServiceDxe/VarBlockServiceDxe.c:141-179 | fails if and only if the disk is not found or does not take the write; touches the disk in the volume's range alone, and success puts the whole volume there |
| FvVolume.FvInstance.DumpVars | Platforms/Rk356xPkg/Drivers/VarBlockServiceDxe/VarBlockServiceDxe.c:182-227 | keeps the disk coherent; a dirty volume with a known disk is dumped, and stays dirty if and only if that failed; a clean one is not |
| FvVolume.FvInstance.OnDiskIoInstall | Platforms/Rk356xPkg/Drivers/VarBlockServiceDxe/VarBlockServiceDxe.c:329-416 | the first present, writable boot device with block I/O that takes a dump is adopted, with its media identifier; none is if and only if all of them refused; a disk adopted before is left alone |
| FvRuns.AttributeWritesHarmlessExactly | Platforms/Rk356xPkg/Drivers/VarBlockServiceDxe/VarBlockService.c:371-376 | attribute requests, which do not set the dirty flag, never change the volume if and only if its attribute word is fixed |
| FvRuns.AttributeChangeBreaksChecksum | Platforms/Rk356xPkg/Drivers/VarBlockServiceDxe/VarBlockService.c:371-376 | an accepted request keeps a valid header valid if and only if it changes nothing, since the checksum is not recomputed |
| FvRuns.HeaderStaysValidExactly | Platforms/Rk356xPkg/Drivers/VarBlockServiceDxe/VarBlockService.c:371-376 | a valid header stays valid under every accepted attribute request if and only if its word is fixed |
| FvRuns.Step | Platforms/Rk356xPkg/Drivers/VarBlockServiceDxe/VarBlockServiceDxe.c:182-416 | every call or event keeps the header bytes, their validity and the coherence of memory and disk, and makes of the memory what writes and erases alone make of it |
| FvRuns.Serve | Platforms/Rk356xPkg/Drivers/VarBlockServiceDxe/VarBlockServiceDxe.c:182-416 | in every run of reads, header-disjoint writes and erases, attribute requests, dumps and disk arrivals, the memory goes through the volumes that the writes and erases make of it, a clean volume with a known disk is on that disk byte for byte, and the header stays valid |
| FvRuns.Boot | Platforms/Rk356xPkg/Drivers/VarBlockServiceDxe/VarBlockService.c:850-910 | start-up puts the volume in service if and only if a kept header maps blocks inside it; a volume given the template, or in service with a fixed attribute word, starts a run that lasts |
| FvRuns.UnfixedVolumeBreaks | Platforms/Rk356xPkg/Drivers/VarBlockServiceDxe/VarBlockService.c:371-376 | from any volume in service, clean on its disk, with a word that is not fixed, one accepted request ends with a disk out of date unnoticed and an invalid header |
| FvRuns.EraseAllOrNothing | Platforms/Rk356xPkg/Drivers/VarBlockServiceDxe/VarBlockService.c:508-559 | with the count right and no range that wraps around, a request that stays clear of the header leaves the memory as it was if it fails, and otherwise erases exactly the blocks asked for |
| FvRuns.WrapFailsHalfway | Platforms/Rk356xPkg/Drivers/VarBlockServiceDxe/VarBlockService.c:508-559 | on every writable volume with a second block behind the header, one concrete request with a range that wraps around fails after exactly block 1 is erased |
| FvRuns.MiscountFailsHalfway | Platforms/Rk356xPkg/Drivers/VarBlockServiceDxe/VarBlockService.c:508-559 | on every writable volume of which more blocks were counted than exist, and whose last block misses the header, one concrete request that wraps nowhere fails after exactly the last block is erased |
| SharedMemory.UserAreaInBlock | Microsoft/OpteeClientPkg/Library/OpteeClientApiLib/OpteeClientMem.c:371-425 | for every base and every size whose block size does not wrap around 2^64, the user area is page-aligned, behind its header, and inside the block |
| SharedMemory.UserAreaInBlockExactly | Microsoft/OpteeClientPkg/Library/OpteeClientApiLib/OpteeClientMem.c:371-425 | with the block size taken modulo 2^64 as in the code, the user area lies in the block if and only if it does not wrap around |
| SharedMemory.BlockIsTight | Microsoft/OpteeClientPkg/Library/OpteeClientApiLib/OpteeClientMem.c:371-425 | no smaller block would hold the user area for every base |
| SharedMemory.AcceptedAlignments | Microsoft/OpteeClientPkg/Library/OpteeClientApiLib/OpteeClientMem.c:115-122 | the alignments that are let through are zero and the powers of two up to a page |
| SharedMemory.HeaderFields | Microsoft/OpteeClientPkg/Library/OpteeClientApiLib/OpteeClientMem.c:441-449 | a stored header reads back as signature, size and address of its block |
| SharedMemory.FreeUndoesAllocation | Microsoft/OpteeClientPkg/Library/OpteeClientApiLib/OpteeClientMem.c:485-502 | allocation, any use of the block, and free leave every byte as it was before |
| SharedMemory.RangeIsFenced | Microsoft/OpteeClientPkg/Library/OpteeClientApiLib/OpteeClientMem.c:409-413 | a range that no live block meets is fenced throughout, so the overflow check passes |
| SharedMemory.AddBlock | Microsoft/OpteeClientPkg/Library/OpteeClientApiLib/OpteeClientMem.c:418-449 | placing a block apart from the live ones keeps the region valid: headers intact, free bytes fenced |
| SharedMemory.RemoveBlock | Microsoft/OpteeClientPkg/Library/OpteeClientApiLib/OpteeClientMem.c:494-511 | fencing and forgetting a live block keeps the region valid |
| SharedMemory.UseBlock | Microsoft/OpteeClientPkg/Library/OpteeClientApiLib/OpteeClientMem.c:429-438 | a store into one's own user area keeps the region valid |
| SharedMemory.TotalWithout | Microsoft/OpteeClientPkg/Library/OpteeClientApiLib/OpteeClientMem.c:510-511 | the total size goes down by exactly the freed block's |
| SharedMemory.HeaderRead | Microsoft/OpteeClientPkg/Library/OpteeClientApiLib/OpteeClientMem.c:490-500 | the header found below a live user address states that block |
| SharedMemory.StaleAddressRejected | Microsoft/OpteeClientPkg/Library/OpteeClientApiLib/OpteeClientMem.c:494-497 | an address below which no live block lies carries no signature |
| SharedMemory.FreedHeaderIsStale | Microsoft/OpteeClientPkg/Library/OpteeClientApiLib/OpteeClientMem.c:494-502 | a freed block's header bytes are such an address's |
| SharedMemory.FreeTwice | Microsoft/OpteeClientPkg/Library/OpteeClientApiLib/OpteeClientMem.c:485-515 | a second free of the same address before reuse is refused with INVALID_PARAMETER and changes nothing |
| SharedMemory.NothingLive | Microsoft/OpteeClientPkg/Library/OpteeClientApiLib/OpteeClientMem.c:531-535 | count and total size are both zero if and only if nothing is live |
| SharedMemory.OpteeClientMem.constructor | Microsoft/OpteeClientPkg/Library/OpteeClientApiLib/OpteeClientMem.c:223-291 | a fresh region is fenced throughout and has nothing live |
| SharedMemory.OpteeClientMem.MarkSharedMemoryRegionAsFree | Microsoft/OpteeClientPkg/Library/OpteeClientApiLib/OpteeClientMem.c:141-156 | exactly the range receives the fence value |
| SharedMemory.OpteeClientMem.IsSharedMemoryRegionFree | Microsoft/OpteeClientPkg/Library/OpteeClientApiLib/OpteeClientMem.c:159-176 | true if and only if every byte of the range holds the fence value |
| SharedMemory.OpteeClientMem.Alloc | Microsoft/OpteeClientPkg/Library/OpteeClientApiLib/OpteeClientMem.c:348-458 | an allocation fails if and only if its alignment is refused or the memory-map service fails, and then changes nothing; a successful one adds one block and writes its header alone; the overflow check never fires |
| SharedMemory.OpteeClientMem.Free | Microsoft/OpteeClientPkg/Library/OpteeClientApiLib/OpteeClientMem.c:485-515 | a live address gives its block back, fenced, and the accounts go down by it; an address without signature is refused with no change |
| SharedMemory.OpteeClientMem.ClientWrite | Microsoft/OpteeClientPkg/Library/OpteeClientApiLib/OpteeClientMem.c:429-438 | a client confined to its user area keeps the region valid |
| SharedMemory.OpteeClientMem.Finalize | Microsoft/OpteeClientPkg/Library/OpteeClientApiLib/OpteeClientMem.c:517-538 | reports a leak if and only if some block is live |
| SharedMemory.Drive | Microsoft/OpteeClientPkg/Library/OpteeClientApiLib/OpteeClientMem.c:348-515 | in every run of allocations, frees and confined client writes, live blocks are apart and inside the region, headers intact, free bytes fenced, accounts exact, and no free of a live block is refused |
| SmbiosStrings.PackedPrefix | Platforms/Rk356xPkg/Drivers/PlatformSmbiosDxe/PlatformSmbiosDxe.c:698-702 | each string lies, with its NUL, where the strings before it end |
| SmbiosStrings.LayoutEndsInDoubleNul | Platforms/Rk356xPkg/Drivers/PlatformSmbiosDxe/PlatformSmbiosDxe.c:681-691 | every string set ends in a double NUL, the empty one included |
| SmbiosStrings.RecordSize | Platforms/Rk356xPkg/Drivers/PlatformSmbiosDxe/PlatformSmbiosDxe.c:672-692 | the computed size is the number of bytes laid out |
| SmbiosStrings.BuildRecord | Platforms/Rk356xPkg/Drivers/PlatformSmbiosDxe/PlatformSmbiosDxe.c:672-704 | with memory, the record is the fixed part followed by the laid-out string set, byte for byte |
| SmbiosStrings.AroundText | Platforms/FriendlyElec/OemPkg/FrontPage/FrontPage.c:216-221 | the bytes around a string that the reader looks at lie in the set and tell whether another string follows |
| SmbiosStrings.GetOptionalStringByIndex | Platforms/FriendlyElec/OemPkg/FrontPage/FrontPage.c:200-236 | over any pack, the string of the given number is found unless it, or one between the first and it, is empty or missing; no byte beyond the set is read |
| SmbiosStrings.LookupRoundTripExactly | Platforms/FriendlyElec/OemPkg/FrontPage/FrontPage.c:211-233 | every string is found at its number if and only if no string of the pack is empty |
| SmbiosStrings.EmptyHides | Platforms/FriendlyElec/OemPkg/FrontPage/FrontPage.c:211-233 | an empty string behind the first hides itself and all behind it; an empty first string hides itself alone |
| SmbiosStrings.WriteThenRead | Platforms/Rk356xPkg/Drivers/PlatformSmbiosDxe/PlatformSmbiosDxe.c:672-704 | written and read back, a pack of nonempty strings gives string k at k up to n and NOT_FOUND above, the empty pack included |
| VersionScanner.StoresDetermines | Platforms/Rk356xPkg/Drivers/PlatformSmbiosDxe/PlatformSmbiosDxe.c:751-752 | what is stored is determined by the text: the leftmost version, or the former values if there is none |
| VersionScanner.LeftmostIsOne | Platforms/Rk356xPkg/Drivers/PlatformSmbiosDxe/PlatformSmbiosDxe.c:751-752 | a text has at most one leftmost version |
| VersionScanner.NumberGrows | Platforms/Rk356xPkg/Drivers/PlatformSmbiosDxe/PlatformSmbiosDxe.c:764-765 | a prefix of a digit run that exceeds a byte shows that the run does |
| VersionScanner.PassRun | Platforms/Rk356xPkg/Drivers/PlatformSmbiosDxe/PlatformSmbiosDxe.c:776-782 | a run that leads no version can be skipped whole |
| VersionScanner.PassLargeSecond | Platforms/Rk356xPkg/Drivers/PlatformSmbiosDxe/PlatformSmbiosDxe.c:765-770 | a second number too large for a byte rules out both runs as leaders |
| VersionScanner.SkipDigits | Platforms/Rk356xPkg/Drivers/PlatformSmbiosDxe/PlatformSmbiosDxe.c:766-767 | the skip stops on the last digit of the run, before the terminator |
| VersionScanner.TakeDigit | Platforms/Rk356xPkg/Drivers/PlatformSmbiosDxe/PlatformSmbiosDxe.c:763-770 | a digit extends the number being read, or abandons its whole run once it exceeds a byte |
| VersionScanner.Scan | Platforms/Rk356xPkg/Drivers/PlatformSmbiosDxe/PlatformSmbiosDxe.c:753-791 | on any NUL-terminated text, stores exactly the leftmost two whole digit runs with a single dot between them and values up to 255, else keeps the defaults; never reads behind the terminator |
| VersionScanner.PrintedVersionRead | Platforms/Rk356xPkg/Drivers/PlatformSmbiosDxe/PlatformSmbiosDxe.c:753-791 | two numbers up to 255 printed in decimal with a dot between them, behind any text without digits, are what is stored |
| VersionScanner.DigitIs | Platforms/Rk356xPkg/Drivers/PlatformSmbiosDxe/PlatformSmbiosDxe.c:757-766 | the characters taken for digits are 0 to 9 |
| BootOrder.Encode | Platforms/FriendlyElec/OemPkg/BootMenu/BootMenu.c:358-365 | an entry is never empty, asks for no boot, shows the active bit, may be deleted unless it is a default, and names its option |
| BootOrder.MissingAreUnlisted | Platforms/FriendlyElec/OemPkg/BootMenu/BootMenu.c:1023-1039 | the options up for deletion are exactly the displayed ones that no entry names |
| BootOrder.ShownReadsBack | Platforms/FriendlyElec/OemPkg/BootMenu/BootMenu.c:337-376 | the list as shown decodes to the visible options in order, with their active bits |
| BootOrder.ShownExactly | Platforms/FriendlyElec/OemPkg/BootMenu/BootMenu.c:337-376 | a displayed option has an entry if and only if it is neither hidden nor an application |
| BootOrder.UnchangedListIsIdentityExactly | Platforms/FriendlyElec/OemPkg/BootMenu/BootMenu.c:910-1020 | a list that comes back as shown changes no active bit, and keeps the boot order if and only if no displayed option is hidden or an application |
| BootOrder.ShownListDropsConcealed | Platforms/FriendlyElec/OemPkg/BootMenu/BootMenu.c:1023-1039 | an untouched list asks to delete exactly the hidden and application options among the displayed |
| BootOrder.CountTellsExactly | Platforms/FriendlyElec/OemPkg/BootMenu/BootMenu.c:1021-1024 | the counts differ exactly when a displayed option is missing, if and only if the list is shorter than the page or names displayed options once each |
| BootOrder.NoneMissingExactly | Platforms/FriendlyElec/OemPkg/BootMenu/BootMenu.c:1023-1036 | no option is missing if and only if the entries name every displayed one |
| BootOrder.CountMissesRepeats | Platforms/FriendlyElec/OemPkg/BootMenu/BootMenu.c:1021-1024 | a concrete list, naming one option twice, whose loss of another option the counts do not show |
| BootOrder.CountMissesStrangers | Platforms/FriendlyElec/OemPkg/BootMenu/BootMenu.c:1021-1024 | a concrete list, naming a number that no option has, that loses an option unasked although the new order repeats nothing |
| BootOrder.PermutedExactly | Platforms/FriendlyElec/OemPkg/BootMenu/BootMenu.c:910-1020 | the new boot order is a permutation of the old if and only if the entries permute the displayed options |
| BootOrder.DistinctOrder | Platforms/FriendlyElec/OemPkg/BootMenu/BootMenu.c:910-1020 | entries that name different displayed options give a boot order without repeats |
| BootOrder.WithoutStaysDistinct | Platforms/FriendlyElec/OemPkg/BootMenu/BootMenu.c:1069-1072 | taking numbers out of a boot order introduces no repeats |
| BootOrder.ActiveBitsFollowBoxes | Platforms/FriendlyElec/OemPkg/BootMenu/BootMenu.c:1003-1018 | each displayed option, the first of its number, ends as active as the last entry naming it is ticked; all others keep their state, and nothing but active bits changes |
| BootOrder.LoadedComesFrom | Platforms/FriendlyElec/OemPkg/BootMenu/BootMenu.c:335 | what is loaded is in the boot order and the variables, and is all of the order if all variables exist |
| BootOrder.LoadedIsWellformed | Platforms/FriendlyElec/OemPkg/BootMenu/BootMenu.c:335 | a boot order without repeats loads options with distinct 16-bit numbers |
| BootMenuPage.BootMenu.RebuildOrderList | Platforms/FriendlyElec/OemPkg/BootMenu/BootMenu.c:302-376 | options and form list are rebuilt from the variables: an entry for each visible option within the limit, zero elsewhere |
| BootMenuPage.BootMenu.Tick | Platforms/FriendlyElec/OemPkg/BootMenu/BootMenu.c:1003-1018 | only the first displayed option of the number changes, in its active bit, and only its variable; a failed write leaves memory right |
| BootMenuPage.BootMenu.ApplyList | Platforms/FriendlyElec/OemPkg/BootMenu/BootMenu.c:910-1020 | whatever the list holds, the new order, within its array, is the named options in user order and then all beyond the limit; stops, with what was ticked before, at an entry that asks to boot |
| BootMenuPage.BootMenu.MarkListed | Platforms/FriendlyElec/OemPkg/BootMenu/BootMenu.c:1026-1036 | exactly the displayed options held by the new order are marked |
| BootMenuPage.BootMenu.PromptForDeletions | Platforms/FriendlyElec/OemPkg/BootMenu/BootMenu.c:1038-1100 | exactly the missing options are asked about, in order; exactly those the user agrees to are confirmed, only they go, and all of them if no write fails |
| BootMenuPage.BootMenu.Finish | Platforms/FriendlyElec/OemPkg/BootMenu/BootMenu.c:1021-1112 | exactly the missing options are asked about if the counts differ, and those the user agrees to confirmed; only they may go; BootOrder becomes the new order only if all counts agree or some deletion was confirmed, and if no write fails exactly then, with all confirmed options gone |
| BootMenuPage.BootMenu.Reconcile | Platforms/FriendlyElec/OemPkg/BootMenu/BootMenu.c:906-1112 | the decision is that of list, options and answers; the first loop changes active bits of displayed options alone, none if no entry asks; behind it, variables go by confirmation and BootOrder is rewritten or loses confirmed numbers; without a failed write all of it happens |
| BootMenuPage.BootMenu.RouteConfig | Platforms/FriendlyElec/OemPkg/BootMenu/BootMenu.c:889-1118 | for options with or without repeats: a submission is ignored, with no change, if and only if it is locked, unreadable or without memory; any other is decided and settled as specified, completely if no write fails, and the page is rebuilt from what the variables then hold |
| BootMenuPage.BootMenu.ServeOne | Platforms/FriendlyElec/OemPkg/BootMenu/BootMenu.c:889-1118 | a submission loses variables by confirmation only and changes them in the active bit only; one that names displayed options once each keeps the boot order without repeats |
| BootMenuPage.BootMenu.ServePage | Platforms/FriendlyElec/OemPkg/BootMenu/BootMenu.c:889-1118 | in every run of submissions, whatever they list, however answered and whichever writes fail, variables only lose confirmed deletions and change in active bits; while every list named displayed options once each, the boot order repeats none |
| BootMenuPage.BootMenu.BuildAndRouteBack | Platforms/FriendlyElec/OemPkg/BootMenu/BootMenu.c:302-376 | built and sent back untouched, the page changes no variable when all displayed options are plain and every number in the boot order has its variable, and otherwise asks to delete exactly the concealed ones |
| FrontPageMenu.DenseIsDetermined | Platforms/FriendlyElec/OemPkg/FrontPage/FrontPage.c:112-127 | which rows are in use settles all menu indices |
| FrontPageMenu.CellsAreRows | Platforms/FriendlyElec/OemPkg/FrontPage/FrontPage.c:926-932 | cells below the number of used rows and used rows correspond one to one |
| FrontPageMenu.ShiftedIsDense | Platforms/FriendlyElec/OemPkg/FrontPage/FrontPage.c:829-849 | taking a row out by shifting what follows leaves indices 0 to k-1 in table order |
| FrontPageMenu.NumberingIsDetermined | Platforms/FriendlyElec/OemPkg/FrontPage/FrontPage.c:112-127 | two well-numbered tables with the same rows in use are the same |
| FrontPageMenu.DroppingTwiceIsOnce | Platforms/FriendlyElec/OemPkg/FrontPage/FrontPage.c:818-850 | removing a menu twice is removing it once |
| FrontPageMenu.DroppingCommutes | Platforms/FriendlyElec/OemPkg/FrontPage/FrontPage.c:818-850 | the order of removals does not matter |
| FrontPageMenu.ShippedIsWellNumbered | Platforms/FriendlyElec/OemPkg/FrontPage/FrontPage.c:119-127 | the table as shipped is well numbered in both menus |
| FrontPageMenu.FrontPage.RemoveMenuFromList | Platforms/FriendlyElec/OemPkg/FrontPage/FrontPage.c:818-850 | afterwards the row is in neither menu, all others are as before, and both menus count 0, 1, 2 in table order |
| FrontPageMenu.FrontPage.CreateTopMenu | Platforms/FriendlyElec/OemPkg/FrontPage/FrontPage.c:874-932 | without memory nothing changes; else, whichever rows are unavailable, and whichever menu is shown, each cell holds its row's text and the list is terminated |
| FrontPageMenu.FrontPage.FillCells | Platforms/FriendlyElec/OemPkg/FrontPage/FrontPage.c:926-932 | cell k holds the text of the row numbered k; cells behind the last are empty |
| FrontPageMenu.FrontPage.CallFrontPage | Platforms/FriendlyElec/OemPkg/FrontPage/FrontPage.c:719-734 | a form is found if and only if the index is below the number of cells, or is the unused mark and some row is unused |
| FrontPageMenu.FrontPage.OpenCell | Platforms/FriendlyElec/OemPkg/FrontPage/FrontPage.c:719-734 | the form opened for a cell is the one whose text the cell shows |

## Left out

- Host-controller registers, clocks, timers, stalls, task priorities and logging: every host result is an arbitrary success or error (`SdHost.Host`). `ASSERT` is a no-op, as in a release build; a missing history at the multi-block test (`Microsoft/MsPkg/Drivers/SdMmcDxe/Protocol.c:536-537` reads through a pointer there) is undefined in the code and excluded by the preconditions below.
- SdhcSlot.SdhcInstance.SendDataCommand: a multi-block command needs a command that succeeded before, and so do SdhcSlot.SdhcInstance.EndTransfer, BlockIo.TryChunk and BlockIo.TransferLoop. Every caller in the driver has one: RPMB requests by their SET_BLOCK_COUNT, block requests because a published slot with a card has one, which `Valid` states and every operation keeps.
- The copy of the CID into RPMB I/O, the driver binding (`SdMmcDriverStart`, `SdMmcDriverStop`) and insertion into the pool.
- SdhcSlot.SdhcInstance.InitializeDevice: what else the probes issue when a recovery interrupts them.
- Cards addressed in bytes: where the model relates buffer and card, an argument is a block number, as for high-capacity cards.
- BlockIo.IoBlocks: a maximum transfer size of 0, with which the code would loop for ever (BlockIo.RoundStallsExactly; BlockIo.MaxTransferWrapsExactly says for which hosts); the status of a request of which nothing is moved, which the code never assigns, is arbitrary.
- BlockIo.Check: after a soft reset that failed, the block size is 0 and the code divides by it; the model reports a fault there and says nothing about what follows.
- The file comment of IoBlocks promises the status of the whole transfer; the code returns that of the last chunk only (`Microsoft/MsPkg/Drivers/SdMmcDxe/BlockIo.c:251-273`), and that is what is modelled. Likewise SoftReset's status after its cleanup.
- `BOOLEAN` is declared outside the repository; the UEFI Specification and its reference implementation make it one byte, and the error test is modelled so. The results on commands and transfers hold for any error test.
- What RPMB packets say: MAC, counters and results are the card's business. `Uint16ToRpmbBytes` masks with 0xF and is not used by the requests modelled. The four protocol functions, which reject a request of another type before RpmbIo.RpmbRequest sees it, are not modelled.
- FvVolume.FvInstance.Initialize: a header that is kept is trusted, as in the code: its map must be closed by an entry of zero blocks, or the counting loop would leave the volume. Volumes are smaller than 4 GiB and at least 64 KiB, so that a header of any stated length can be read.
- FvVolume.FvInstance.Read: a NULL byte count and a byte count near 2^64 are not modelled; the same for Write.
- FvVolume.FvInstance.EraseBlocks: ranges that reach into the header, whose bytes steer the erase while it runs, are excluded; the variadic list is a sequence.
- Writes that reach into the header are specified by FvVolume.FvInstance.Write but are not part of the runs in `FvRuns`.
- Device paths, protocol installation, physical-address and block-size getters, and virtual-address conversion of the block service.
- SharedMemory.Gcd: the memory-map service is a contract, a free page-aligned range inside the region or failure; other users of the region and the one-time adoption of an existing region (`OpteeClientMemInit`) are not modelled.
- SharedMemory.OpteeClientMem.Free: an address that was never handed out but carries a forged signature is excluded, and sizes whose block size passes 2^64.
- SmbiosStrings.BuildRecord: a missing string pack, which the code would read through in its second loop; the hand-over to the SMBIOS protocol and its status.
- SmbiosStrings.GetOptionalStringByIndex: the conversion to UTF-16 and the release of the caller's string.
- BootOrder.Entry: the ORDERED_LIST flag values are declared outside the repository; entries are taken apart into low bits, three flags and a rest, which is exact for separate flags above bit 16.
- BootMenuPage.BootMenu.RouteConfig: that the variables follow the list when all writes succeed is stated for options without repeated numbers only; what the user answers is given in advance, the BootNext variable is not kept, and `IsDefaultBootOption` is a set of numbers.
- FrontPageMenu.FrontPage.RemoveMenuFromList: table strings are distinct, as in the shipped table, and there are fewer than 0xFFFF rows. FrontPageMenu.FrontPage.CallFrontPage: the table is not empty.
- Screens, passwords, Secure Boot and DFCI user interface; `AuthVarsDxe.c`, `Measurement.c`, `Tpm2DeviceLibOptee.c` and `OpteeClientApiLib.c`, which carry requests to code not shown; `OemConfigPolicyCreatorPei.c`, whose list library is not part of the repository; finite tables and small conversions, which would only add easy members.
