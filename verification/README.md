# LC7001 lighting controller: a verified model

The LC7001 firmware keeps its settings in flash that loses power without warning, reads JSON from a
network that cuts it anywhere, fires scenes by a clock that is moved twice a year, and talks to lights
through an RF module one byte at a time. This project models those parts of the firmware in Dafny and
proves what they promise. Methods have the shape of the C functions they model; each is proved against a
function over values, and the properties are lemmas about those functions.

| files | what they model |
|---|---|
| `Words.dfy` | the machine's numbers and their bytes |
| `Crc.dfy` | the two table-driven check codes |
| `Fbk.dfy`, `FbkTheorems.dfy` | one array kept in two flash banks, written so that power may fail at any step |
| `BootRecovery.dfy`, `BootTheorems.dfy` | choosing the newer program flash block at boot, and copying its data area |
| `Slots.dfy`, `Fields.dfy` | records in flash slots behind check words; texts in fields of fixed size |
| `Zones.dfy`, `ZonesTheorems.dfy` | the table of zones over two kinds of slots |
| `SceneControllers.dfy` | the same for scene controllers |
| `Jsr.dfy`, `JsrReader.dfy` | the streaming JSON reader as a fold over characters, and its code |
| `JsrDocument.dfy`, `JsrTheorems.dfy` | what the reader makes of printed documents |
| `JsrEmpty.dfy`, `JsrPairs.dfy` | objects without members; what one pair of interest goes through |
| `JsrNesting.dfy` | the depths by which the callers know that a document is complete |
| `Calendar.dfy` | seconds and dates |
| `Scheduler.dfy`, `SchedulerTheorems.dfy` | the next trigger of a scene, and the pass that fires scenes |
| `Dst.dfy`, `DstTheorems.dfy` | daylight saving: the clock, the offset and the sun triggers together |
| `SentRing.dfy` | the ring of messages sent lately |
| `RfFrame.dfy`, `RfReceiver.dfy`, `RfTheorems.dfy` | building, receiving and decoding RF frames |
| `Sanitizer.dfy` | the string sanitizer |

Power failure is part of the state: a device carries the number of flash steps (one sector erased, one
phrase programmed) it will still carry out, and once that is used up flash no longer changes. A method's
postcondition gives the flash after any such number, so a statement about it covers a failure between any
two steps. Programming is allowed only over erased cells, and that it always is becomes a proof obligation.

Some expected properties do not hold of the code. The model keeps the code as it is and states exactly
when they hold:

- A write that takes its source from the spare bank reads what it has just erased
  (`FbkTheorems.InPlaceExactly`).
- A zone deleted without its Eliot id and added again with another id loses the new id, and after a reboot
  shows the old one (`ZonesTheorems.SetIsSeenExactly`, `ZonesTheorems.CoherentExactly`,
  `ZonesTheorems.LeftIdComesBack`).
- A weekly scene is due again right after its turn if its trigger falls back, which takes a sun scene whose
  delta moves its minute before midnight, or if the days and the minute it asks for give a moment before the
  least accepted time on some day or behind the largest on all of them. So while the clock stands more than
  nine days before the least accepted time every weekly scene that is due stays due after each pass
  (`SchedulerTheorems.DueAfterPassExactly`, `SchedulerTheorems.FallsBackAtMidnight`,
  `SchedulerTheorems.EarlyClockKeepsDue`).
- In the hour before the March transition a flag that is already set stays set
  (`DstTheorems.FlagFollowsStandardTime`, `DstTheorems.FlagStaysSet`).
- The ring of sent messages remembers the recent ones if and only if there are never a hundred of them; the
  hundredth empties it (`SentRing.RingRemembersExactly`, `SentRing.HundredthEmpties`).
- The echo of a command is not recognised when it switched a zone off, since the ring remembers the power
  level of the zone and not the zero that was sent, and when the command found the ring full
  (`RfTheorems.EchoDroppedExactly`, `RfTheorems.OffEchoIsHeard`).
- The receive index comes to stand at 64, one past the buffer, exactly when a byte fills the buffer in the
  middle of a frame; the receiver then is idle, which sets the index back before the next byte is stored
  (`RfTheorems.IndexAtEndExactly`, `RfTheorems.IndexReachesEnd`, `RfTheorems.IndexStaysInside`).
- The receiver reports packets whose length byte makes the code check bytes outside its buffer: those with
  one check byte and length 0 or 255, and those with two and length 0, 1 or 255; no others
  (`RfTheorems.ReportedExactly`, `RfTheorems.IllegalIsReported`).
- An empty JSON object behind a key takes that key for a member of its own. A document is read as it is
  meant, whatever the options, if and only if no empty object stands behind a key that a pair of interest
  matches with an empty value (`JsrEmpty.EmptyObjectExactly`, `JsrEmpty.EmptyObjectsExactly`,
  `JsrEmpty.KeyPairIsFooled`).

## Model

| member | source | states |
|---|---|---|
| Crc.UpdateCRC8 | Embedded/Sources/Crc.c:61-71 | the table-driven update is bit-at-a-time division by the reflected polynomial 0x8C, for any start and any part of a buffer |
| Crc.UpdateCRC16 | Embedded/Sources/Crc.c:83-93 | the same for 0xA001, with the table for the low byte only |
| Crc.Table8Divides | Embedded/Sources/Crc.c:4-11 | all 256 entries of the CRC-8 table are eight division steps of their index |
| Crc.Table16Divides | Embedded/Sources/Crc.c:14-48 | all 256 entries of the CRC-16 table are eight division steps of their index |
| Crc.Divide16ByLowByte | Embedded/Sources/Crc.c:89 | the high byte of the register only moves down while eight bits are divided out, so a table for the low byte is enough |
| Crc.TableStep16 | Embedded/Sources/Crc.c:83-93 | shifting down and one table look-up is dividing the whole 16-bit register by eight bits |
| Crc.FoldConcat | Embedded/Sources/Crc.c:61-93 | for any step function, updating with two messages in turn is updating with them joined |
| Crc.FoldKeepsApart | Embedded/Sources/Crc.c:61-93 | an injective step keeps different registers apart over messages of any length |
| Crc.FoldSeesOneByte | Embedded/Sources/Crc.c:61-93 | an injective step sees one changed byte anywhere in a message of any length |
| Crc.Step8Injective | Embedded/Sources/Crc.c:61-71 | one CRC-8 step loses no information about register or byte when the other is known |
| Crc.Step16Injective | Embedded/Sources/Crc.c:83-93 | the same for CRC-16 |
| Crc.Crc8Concat | Embedded/Sources/Crc.c:61-71 | CRC-8 of a joined message from the CRC-8 of its first part |
| Crc.Crc16Concat | Embedded/Sources/Crc.c:83-93 | CRC-16 of a joined message from the CRC-16 of its first part |
| Crc.Crc8SeesOneByte | Embedded/Sources/Crc.c:61-71 | two messages of one length that differ in one byte have different CRC-8 |
| Crc.Crc16SeesOneByte | Embedded/Sources/Crc.c:83-93 | two messages of one length that differ in one byte have different CRC-16 |
| Crc.Crc8Residue | Embedded/Sources/Crc.c:61-71 | a message of any length with its own CRC-8 behind it leaves 0 |
| Crc.Crc16Residue | Embedded/Sources/Crc.c:83-93 | a message with its own CRC-16 behind it, low byte first, leaves 0 |
| Fbk.Context.Init | Embedded/Sources/Flash.c:1859-1885 | the bank chosen at boot is a function of the accounting words of both banks, series compared modulo 2^16 |
| Fbk.Context.WriteFlash | Embedded/Sources/Flash.c:1892-1971 | a call is taken exactly if destination plus length, in 32 bits, ends below 4096; a refused one returns -1 and changes nothing; one that is taken leaves flash as the closed form of its first steps says, for any number of steps before power fails, and moves to the other bank |
| Fbk.Context.ProgramImage | Embedded/Sources/Flash.c:1921-1961 | the outer loop programs the first phrases of the new image, as many as power lasts, leaving the old bank alone |
| Fbk.Context.FillBlock | Embedded/Sources/Flash.c:1923-1947 | each 128-byte block equals the block of the new image, though source and old bank are read while the spare bank is being written |
| Fbk.Context.CopyBlock | Embedded/Sources/Flash.c:1923-1934 | the inner loop takes a source byte exactly at covered positions and an old byte elsewhere |
| Fbk.Context.EraseSector | Embedded/Sources/Flash.c:1916-1918 | an erase is one step: all of the bank or none of it |
| Fbk.Context.ProgramPhrase | Embedded/Sources/Flash.c:1951-1953 | phrases go in upwards, only over erased cells, as many as power lasts |
| Fbk.InfoIsValid | Embedded/Sources/Flash.c:1939-1947 | the series and check word written last are the ones the boot test accepts |
| Fbk.ErasedInfoIsInvalid | Embedded/Sources/Flash.c:1859-1885 | a bank with erased accounting words is never accepted at boot |
| FbkTheorems.CrashAtomic | Embedded/Sources/Flash.c:1859-1971 | stopping after any prefix of the steps of a write, boot selects the old bank with all 4088 bytes unchanged, and after the last step the new bank with all new ones; from any flash contents, blank banks and series wrap included |
| FbkTheorems.ImageIsSealed | Embedded/Sources/Flash.c:1939-1953 | a full image is accepted at boot and its series is the next one |
| FbkTheorems.InPlace | Embedded/Sources/Flash.c:1892-1971 | a call whose source is not in the spare bank splices its bytes into the array at dst and changes nothing else |
| FbkTheorems.InPlaceExactly | Embedded/Sources/Flash.c:1892-1971 | a call is an update in place for every flash content if and only if it does not take bytes for the array from the spare bank |
| FbkTheorems.ContraryFails | Embedded/Sources/Flash.c:1892-1971 | for every call outside that condition a flash content on which it goes wrong |
| FbkTheorems.StepRefines | Embedded/Sources/Flash.c:1858-1983 | one write with any power budget, or one reboot, acts on the client's view as on a plain array, which a write changes exactly if it ends below 4096 and power lasts; the active bank stays what boot would choose |
| FbkTheorems.WriteIsSeen | Embedded/Sources/Flash.c:1892-1983 | after any complete write of up to 4088 bytes, from RAM or from an address in the array, the array is its bytes in their place between the old ones |
| FbkTheorems.RunRefines | Embedded/Sources/Flash.c:1858-1983 | the same for every history of writes, power losses and reboots from any flash contents |
| FbkTheorems.AddressStaysGood | Embedded/Sources/Flash.c:1977-1983 | an address given out earlier keeps showing the current byte over any history that writes only other bytes |
| BootRecovery.Controller.WhichFlashBlockToUse | Embedded/Sources/Flash.c:322-395 | the block chosen is a function of canary, check word and index of both blocks, with the wrap from 255 to 0 |
| BootRecovery.Controller.InitializeFlash | Embedded/Sources/Flash.c:270-315 | when the low block is chosen the high one is erased sector by sector and copied phrase by phrase, as far as power lasts; the next index follows from the chosen block |
| BootRecovery.Controller.LoadSystemPropertiesFromFlash | Embedded/Sources/Flash.c:631-728 | what is loaded from a valid block, the offsets set right, and a save exactly when the index or the offsets ask for one |
| BootRecovery.Controller.SaveSystemPropertiesToFlash | Embedded/Sources/Flash.c:734-848 | the sector after any number of steps of a save, in the order properties, extended properties, their check word, title, check word |
| BootRecovery.Controller.Boot | Embedded/Sources/RFM100_Tasks.c:1397-1399 | the data area after a boot with any power budget, as a function of both blocks |
| BootRecovery.OffsetsSetAgree | Embedded/Sources/Flash.c:674-690 | after loading, the effective offset is the offset or an hour more, from any stored values, and setting it again changes nothing |
| BootTheorems.NewerIsUsed | Embedded/Sources/Flash.c:366-391 | a block that alone is valid is used, and of two valid ones the one whose index is one ahead of the other in a byte, 255 to 0 included; the low one where both have the same; none where none is valid |
| BootTheorems.InterruptedRecovery | Embedded/Sources/Flash.c:270-395 | a recovery cut off after any step leaves the low block chosen again, or the high one already final; with enough steps it is final |
| BootTheorems.InterruptedSwap | Embedded/Sources/Flash.c:270-395 | the same told by what the blocks hold: the low one alone valid, or its index one ahead or equal; then the final high block is one ahead of it |
| BootTheorems.RecoverySurvivesCrashes | Embedded/Sources/Flash.c:270-395 | cut off any number of times at any steps, with anything in RAM at each boot, the low block stays chosen until a recovery is complete; the first complete boot completes one, and from then on the high block is chosen and nothing changes |
| BootTheorems.SwapSurvivesCrashes | Embedded/Sources/Flash.c:270-395 | the same told by what the blocks hold |
| BootTheorems.FinalIgnoresRam | Embedded/Sources/Flash.c:658-707 | RAM before loading matters to the final area only by the four bytes behind the properties, and by the extended properties where the low block has no valid ones |
| BootTheorems.CopyingKeepsLow | Embedded/Sources/Flash.c:270-315 | during erase and copy the low block stays chosen, even where an incomplete block happens to pass the check |
| BootTheorems.SavingKeepsLow | Embedded/Sources/Flash.c:734-848 | during the save the low block stays chosen until the high one holds what it will hold |
| BootTheorems.FinalIsHigh | Embedded/Sources/Flash.c:366-391 | the completed high block is the newer one, also where its index wraps to 0 |
| BootTheorems.FinalStays | Embedded/Sources/Flash.c:631-728 | later boots, with any power budget and anything in RAM, change nothing more |
| BootTheorems.FinalHoldsLow | Embedded/Sources/Flash.c:734-848 | the final area holds all other sectors of the low block, its properties before the offsets and behind them, its address, and its extended properties if they were valid |
| BootTheorems.FinalHoldsOffsets | Embedded/Sources/Flash.c:674-690 | and the first of its offsets, and the second if that is the first or an hour more, else the first again |
| BootTheorems.NothingValid | Embedded/Sources/Flash.c:270-395 | without a valid block a boot changes nothing |
| BootTheorems.HighInUse | Embedded/Sources/Flash.c:631-728 | a high block in use is left alone exactly where its offsets agree; otherwise a boot that is not cut off sets the second to the first and keeps index, address, properties and all other sectors |
| BootTheorems.SavedIsValid | Embedded/Sources/Flash.c:808-834 | a completed save is accepted at boot under its own index |
| BootTheorems.LastPhraseMissing | Embedded/Sources/Flash.c:808-834 | without its last phrase a save is rejected at boot, or nothing was left to program |
| Slots.ErasedCheckWords | Embedded/Sources/Flash.c:854-936 | the CRC-16 of erased memory of the three record sizes, none of them the erased check word |
| Slots.SoundChecks | Embedded/Sources/Flash.c:854-936 | a slot that is blank or holds a checked record passes the check exactly when it holds a record, and copying it out and back gives it again |
| Slots.StoredIsSound | Embedded/Sources/Flash.c:942-1080 | a written slot is blank or holds a checked record |
| Slots.RewriteChangesOne | Embedded/Sources/Flash.c:1122-1205 | reading all records of a sector, replacing one, erasing and writing all changes that slot and no other |
| Slots.IsErased | Embedded/Sources/Zones.c:231-240 | the byte loop with early exit finds out whether all bytes are ones |
| Slots.WriteSlot | Embedded/Sources/Flash.c:1015-1080 | one blank slot takes check word and record, unless the record is all ones |
| Slots.ReadSlots | Embedded/Sources/Flash.c:1122-1138 | each record that passes its check is copied out, and all ones where it does not |
| Slots.EraseAndWrite | Embedded/Sources/Flash.c:1171-1205 | the sector erased and written back differs in the replaced slot only |
| Slots.WriteSlots | Embedded/Sources/Flash.c:1171-1178 | an erased sector takes every record of the copy in its place |
| Slots.FirstHouseNext | Embedded/Sources/Zones.c:404-407 | the house of the controller is the first one loaded that is not 0 |
| Fields.TextOf | Embedded/Sources/Zones.c:256 | a text printed into a field is read back up to its final zero, whatever bytes follow |
| Fields.PrintRoundTrip | Embedded/Sources/Zones.c:277-280 | a printed Eliot id is read back and its field is never all ones |
| Words.JoinRoundTrip | Embedded/Includes/onq_endian.h:25-38 | words and double words survive being taken apart into bytes |
| Zones.PackRoundTrip | Embedded/Sources/Zones.c:247-258 | a zone record packed over any earlier bytes is read back field by field and is never all ones |
| Zones.HouseOfRecord | Embedded/Sources/Zones.c:392-417 | the byte the house is taken from at loading is the one a record keeps it in |
| Zones.Table.InitializeZoneArray | Embedded/Sources/Zones.c:23-44 | every row has its defaults and points nowhere |
| Zones.Table.LoadZonesFromFlash | Embedded/Sources/Zones.c:392-417 | rows point at exactly the slots that pass their checks; the number loaded; the house taken over |
| Zones.Table.Restart | Embedded/Sources/RFM100_Tasks.c:1392-1405 | each zone after a boot, from its slots alone |
| Zones.Table.GetZoneProperties | Embedded/Sources/Zones.c:152-186 | what is shown of a zone, its Eliot id empty without a pointer; false on an index out of range |
| Zones.Table.SetZoneProperties | Embedded/Sources/Zones.c:199-386 | row and both slots of the zone as the specification function says, every other row and slot unchanged, and all slots stay blank or checked |
| Zones.Table.AddZone | Embedded/Sources/Zones.c:242-305 | the branch for a blank slot |
| Zones.Table.UpdateZone | Embedded/Sources/Zones.c:306-379 | the branch for a slot in use, erasing a sector only when something differs |
| Zones.Table.RewriteZones | Embedded/Sources/Zones.c:318-346 | the sector of zones rewritten with one changed or cleared |
| Zones.Table.RewriteEliots | Embedded/Sources/Zones.c:352-377 | the right one of the two sectors of Eliot ids rewritten with one changed or cleared |
| Zones.Table.GetZoneIndex | Embedded/Sources/Zones.c:119-138 | the least index with the address, or the number of zones if none has it |
| Zones.Table.GetAvailableZoneIndex | Embedded/Sources/Zones.c:87-105 | the least index without a zone, or the number of zones if all are taken |
| ZonesTheorems.SlotsAfterSet | Embedded/Sources/Zones.c:199-386 | what the two slots of a zone hold after a set, from any sound slots |
| ZonesTheorems.SetIsSeenExactly | Embedded/Sources/Zones.c:199-386 | getting a zone just set gives what was set, or nothing after a delete, if and only if it was not added with an Eliot id over one left in its slot |
| ZonesTheorems.FoundAfterSet | Embedded/Sources/Zones.c:87-138 | a zone just set, over any sound slots, is found by its own address and no other; its place is free exactly after a delete |
| ZonesTheorems.FoundAsShown | Embedded/Sources/Zones.c:87-186 | a coherent zone is found by exactly the address it shows, and its place is free exactly if it shows nothing |
| ZonesTheorems.CoherentExactly | Embedded/Sources/Zones.c:199-386 | table and flash stay in step if and only if an existing zone is not deleted with an Eliot id given |
| ZonesTheorems.RebootAgrees | Embedded/Sources/Zones.c:392-417 | a reboot rebuilds exactly what the table showed |
| ZonesTheorems.RebootFinds | Embedded/Sources/Zones.c:392-417 | from any sound slots a boot finds exactly the zones in flash, and an Eliot id only behind a zone |
| ZonesTheorems.LeftIdComesBack | Embedded/Sources/Zones.c:292-295 | the id lost at once, and the old one back after a reboot |
| ZonesTheorems.StoreAgreesWithMap | Embedded/Sources/Zones.c:152-417 | over any run of sets, deletes that clear the id, and reboots, the table shows what a plain sequence of zones would |
| ZonesTheorems.StoreFromErasedFlash | Embedded/Sources/Zones.c:152-417 | from erased flash on it shows exactly the zones those steps left |
| SceneControllers.PackRoundTrip | Embedded/Sources/SceneController.c:191-213 | a scene controller packed over any earlier bytes is read back field by field |
| SceneControllers.HouseOfRecord | Embedded/Sources/SceneController.c:304-326 | the byte the house is taken from at loading is the one a scene controller keeps it in |
| SceneControllers.Table.LoadSceneControllersFromFlash | Embedded/Sources/SceneController.c:304-326 | the table points at the slots that pass the check; the number loaded; the house taken over |
| SceneControllers.Table.Restart | Embedded/Sources/RFM100_Tasks.c:1394-1409 | each scene controller after a boot, from its slot alone |
| SceneControllers.Table.GetSceneControllerProperties | Embedded/Sources/SceneController.c:125-154 | what is shown of a scene controller |
| SceneControllers.Table.SetSceneControllerProperties | Embedded/Sources/SceneController.c:160-298 | row and slot as the specification function says, all others unchanged |
| SceneControllers.SetIsSeen | Embedded/Sources/SceneController.c:160-298 | getting a scene controller just set gives what was set, or nothing after a delete |
| SceneControllers.RebootAgrees | Embedded/Sources/SceneController.c:304-326 | a reboot changes nothing of a table in step with flash |
| SceneControllers.StoreAgreesWithMap | Embedded/Sources/SceneController.c:125-326 | over any run of sets, deletes and reboots the table shows what a plain sequence would |
| JsrReader.Reader.constructor | Embedded/Sources/jsr.c:30-33 | the reader starts in the state the fold starts in |
| JsrReader.Reader.Reset | Embedded/Sources/jsr.c:16-25 | a reset restores the starting state and keeps pairs and options |
| JsrReader.Reader.MatchPairs | Embedded/Sources/jsr.c:37-158 | one key and value against all pairs: captures, depths, counts at every depth with the recursive option, and error counts, as the fold does them |
| JsrReader.Reader.FeedOne | Embedded/Sources/jsr.c:169-354 | one round of the loop is one step of the fold |
| JsrReader.Reader.Read | Embedded/Sources/jsr.c:162-359 | a call reads up to its first end-of-object report or the end of the buffer, and can be resumed there |
| JsrReader.Reader.DriveChunk | Embedded/Sources/Eliot_REST_Task.c:938-943 | the callers' loop over one chunk gives the reports and the state of the fold over that chunk |
| JsrReader.Reader.CloseObject | Embedded/Sources/jsr.c:315-343 | the end of an object: what is waiting is matched, the depth goes down, its count is passed on if the option says so and tested against the threshold |
| JsrReader.Reader.OpenObject | Embedded/Sources/jsr.c:269-313 | the start of an object: deeper by one, counted, and counted as top-level if it stands in no other; its matches cleared, transient pairs of that depth forgotten |
| Jsr.ReadCallIsFold | Embedded/Sources/jsr.c:162-359 | a call that returns early and is resumed reads the same as the fold |
| Jsr.DriveIsFold | Embedded/Sources/jsr.c:162-359 | the callers' loop over one chunk is the fold over it |
| Jsr.DriveAllIsFold | Embedded/Sources/jsr.c:162-359 | the loop over all chunks is the fold over the whole stream |
| Jsr.ChunkInvariance | Embedded/Sources/jsr.c:162-359 | any two ways of cutting one stream give the same reports with the same captured pairs and the same final state |
| Jsr.FoldConcat | Embedded/Sources/jsr.c:162-359 | the fold over two streams in turn is the fold over them joined |
| JsrDocument.ObjectRead | Embedded/Sources/jsr.c:193-354 | reading a printed object, with or without members, at any depth and in any state that waits for one, gives the reports, pairs and counts its tree and the key still waiting call for |
| JsrDocument.MembersRead | Embedded/Sources/jsr.c:193-354 | the same for the members of an object |
| JsrDocument.ObjectsRead | Embedded/Sources/jsr.c:193-354 | the same for an array of objects |
| JsrTheorems.StripIsRead | Embedded/Sources/jsr.c:344-353 | blanks outside strings make no difference |
| JsrTheorems.PrintThenRead | Embedded/Sources/jsr.c:162-359 | any printed document, with blanks between its tokens and cut into chunks anyhow, gives the reports and pairs its tree calls for, empty objects included |
| JsrTheorems.MatchesNext | Embedded/Sources/jsr.c:67-152 | the matches are the pairs and leaves for which every field the pair gives equals what was read, cut to its buffer; each leaf adds as many as the reader counts for it |
| JsrTheorems.MatchErrorsExactly | Embedded/Sources/jsr.c:37-158 | a match notes an empty pair exactly if some pair gives nothing, and a missing buffer exactly if a pair that is hit has none to capture into |
| JsrTheorems.OverflowExactly | Embedded/Sources/jsr.c:193-235 | a string read in quotes notes an overflow of its buffer exactly if it does not fit |
| JsrTheorems.ObjectCount | Embedded/Sources/jsr.c:315-343 | the count tested when an object closes is the number of pairs and members of it that match, with the recursive option of its whole subtree |
| JsrTheorems.ObjectReports | Embedded/Sources/jsr.c:315-343 | the reports of an object are as many as it has objects, itself included, whose matches reach the threshold |
| JsrTheorems.ReportsAreCounted | Embedded/Sources/jsr.c:315-343 | the same for a whole document read in chunks |
| JsrTheorems.ObjectCaptures | Embedded/Sources/jsr.c:67-152 | a pair that gives only its key holds the last value printed for that key, cut to its buffer |
| JsrPairs.PairsFollow | Embedded/Sources/jsr.c:67-152 | a document of any depth read in chunks takes every pair of interest, of any kind, through its moments: objects that open, and keys and values that are offered |
| JsrPairs.ObjectFollows | Embedded/Sources/jsr.c:193-354 | the same for one object inside a document |
| JsrPairs.LastHitIsHeld | Embedded/Sources/jsr.c:118-150 | after its last match a pair that gives one field, key or value, holds the other as it was offered, cut to its buffer; a transient one holds nothing if an object has opened since at the depth of that match |
| JsrPairs.KeepsUnlessOpened | Embedded/Sources/jsr.c:285-309 | without a further match a pair keeps what it holds, or forgets it if it is transient and an object opens at its depth |
| JsrTheorems.FlatArrayRead | Embedded/Sources/jsr.c:162-359 | in an array of flat objects each raises exactly one report if and only if its matches reach the threshold, and the pairs then hold the last values printed so far |
| JsrTheorems.HeldString | Embedded/Sources/jsr.c:132-149 | what a capturing buffer holds: the string, or as much of it as fits |
| JsrEmpty.EmptyObjectTakesKey | Embedded/Sources/jsr.c:315-343 | the reports, the pairs and the count passed on at an empty object behind a key: that key is matched with an empty value |
| JsrEmpty.EmptyObjectExactly | Embedded/Sources/jsr.c:315-343 | it reads as empty if and only if no pair of interest matches that key with an empty value |
| JsrEmpty.KeyPairIsFooled | Embedded/Sources/jsr.c:67-100 | a pair that gives just that key counts a match there |
| JsrEmpty.EmptyObjectsExactly | Embedded/Sources/jsr.c:162-359 | a document is read as it is meant, whatever the options, if and only if no empty object in it stands behind a key that a pair of interest matches with an empty value |
| JsrEmpty.DocumentMeant | Embedded/Sources/jsr.c:193-354 | without such an object the reader's meaning of a document is the meant one: reports, pairs and counts |
| JsrEmpty.PrintThenReadAsMeant | Embedded/Sources/jsr.c:162-359 | and so it is read when printed, with blanks and chunks as they may fall |
| JsrNesting.LevelStep | Embedded/Sources/jsr.c:237-343 | one character moves the depth of arrays, in 32 bits, and that of objects, which stays at zero on a brace too many; in quotes neither moves |
| JsrNesting.ReaderLevels | Embedded/Sources/jsr.c:237-343 | over any text in which no brace closes that was not opened, the depths of objects and of arrays follow the brackets outside quotes |
| JsrNesting.DocumentEven | Embedded/Sources/jsr.c:237-343 | in a printed document the bracket it begins with is closed by its last character and not before, and the other kind of brackets is closed by then |
| JsrNesting.ReadUntilComplete | Embedded/Sources/Eliot_REST_Task.c:953 | after any of the chunks of a document with blanks between its tokens, the depth the callers wait on is above zero exactly if part of the document has come and part is missing; at its end both depths are zero |
| JsrTheorems.MemoryTellsEnd | Embedded/Sources/jsr.c:171-190 | the four-byte memory equals the delimiter exactly when the last four characters are an empty line |
| JsrTheorems.HeaderThenBody | Embedded/Sources/jsr.c:171-190 | a header is skipped up to its first empty line, and the rest read as if it had come alone |
| Calendar.SecondsRoundTrip | Embedded/Sources/Event_Task.c:1319-1326 | seconds to a date and back, for all seconds; every date made so is consistent |
| Calendar.DateRoundTrip | Embedded/Sources/Event_Task.c:1399-1422 | a consistent date to seconds and back |
| Calendar.DaysAscend | Embedded/Sources/Event_Task.c:2293-2384 | dates compare as their day numbers do |
| Calendar.DaysInClosedForm | Embedded/Sources/Event_Task.c:2293-2384 | the days before a year, counted with a leap year every four years, but not every hundred, but every four hundred |
| Scheduler.CalculateNewTrigger | Embedded/Sources/Event_Task.c:1306-1439 | the trigger time as day and minute, and the number of rounds of the day-advance loop, at most seven |
| Scheduler.AdvanceDays | Embedded/Sources/Event_Task.c:1392-1406 | the loop stops at the first day the scene suits, within seven rounds |
| Scheduler.SceneTable.CheckScenes | Embedded/Sources/Event_Task.c:1066-1229 | the whole table and the list of scenes executed after one pass; nothing while a light is being added |
| Scheduler.SceneTable.CheckScene | Embedded/Sources/Event_Task.c:1087-1222 | one scene: mended, executed or its skip used up, and moved to its next trigger |
| SchedulerTheorems.LeastTrigger | Embedded/Sources/Event_Task.c:1306-1439 | for a weekly scene the result is the earliest time in a later minute with the scene's minute of day and a selected weekday, any weekday if none is selected |
| SchedulerTheorems.LeastSunTrigger | Embedded/Sources/Event_Task.c:1365-1439 | for a weekly scene at sunrise or sunset that minute is what the sun tables give for this event today, moved by the delta |
| SchedulerTheorems.OnceTrigger | Embedded/Sources/Event_Task.c:1306-1439 | a one-time scene gets its own date, or the next if its minute of today has passed or if days are selected and today is none of them, at its own minute or the one the sun tables give for its date, moved by the delta |
| SchedulerTheorems.RegularKeepsMinute | Embedded/Sources/Event_Task.c:1306-1439 | a regular weekly scene keeps its minute of day |
| SchedulerTheorems.DueAgainExactly | Embedded/Sources/Event_Task.c:1306-1439 | the new trigger is not after now exactly when a sun scene's minute falls before midnight |
| SchedulerTheorems.NextIsFirstOffered | Embedded/Sources/Event_Task.c:1392-1433 | for any weekly scene the search stops at the first day offered, also where the delta moves the minute out of its day |
| SchedulerTheorems.OutOfRangeExactly | Embedded/Sources/Event_Task.c:1095-1098 | the next trigger is not accepted by the next pass exactly when some day offered gives a moment too early or all of them give one too late |
| SchedulerTheorems.DueAfterPassExactly | Embedded/Sources/Event_Task.c:1066-1439 | a scene is still due after its turn if and only if it was due, is weekly, and its days and minute make it fall back or leave the accepted times |
| SchedulerTheorems.EarlyClockKeepsDue | Embedded/Sources/Event_Task.c:1095-1098 | with the clock more than nine days before the least accepted time every weekly scene that is due stays due |
| SchedulerTheorems.FallsBackAtMidnight | Embedded/Sources/Event_Task.c:1306-1439 | an input at which a trigger falls back and the scene is due again at once |
| SchedulerTheorems.MomentInRange | Embedded/Sources/Event_Task.c:1066-1439 | up to nine days before the largest accepted time the range is never left |
| SchedulerTheorems.SecondPassDoesNothing | Embedded/Sources/Event_Task.c:1066-1229 | nothing is due after a pass if and only if no weekly scene that was due is one of those, and then a second pass at the same time does nothing, however far the clock had jumped |
| SchedulerTheorems.FiredExactly | Embedded/Sources/Event_Task.c:1066-1229 | a pass executes exactly once each scene that has a name, is ONCE or weekly, is not to be skipped, and whose trigger time is not after now or not an accepted one; and no other |
| SchedulerTheorems.TurnOfDue | Embedded/Sources/Event_Task.c:1066-1229 | a scene whose time has come: ONCE becomes NONE, a skip is used up, a weekly one gets its next trigger |
| Dst.Controller.IsItDST | Embedded/Sources/Event_Task.c:2293-2384 | the cascade of month, weekday and hour tests as one rule |
| Dst.Controller.AdjustTriggers | Embedded/Sources/Event_Task.c:2393-2416 | the triggers of named sun scenes move by the adjustment in 32 bits, all others stay |
| Dst.Controller.CheckForDST | Embedded/Sources/Event_Task.c:2424-2498 | clock, flag, offset and triggers after one check |
| Dst.Controller.LoadOffsets | Embedded/Sources/Flash.c:674-690 | after loading any stored 32-bit offsets the effective one agrees with the flag |
| DstTheorems.RuleIsPeriod | Embedded/Sources/Event_Task.c:2293-2384 | for consistent dates the rule is membership in the period from the second Sunday of March 02:00 to the first Sunday of November 02:00, or 01:00 while the flag is off (section 110 of the Energy Policy Act of 2005) |
| DstTheorems.CheckIsFixedPoint | Embedded/Sources/Event_Task.c:2424-2498 | after one check the flag agrees with the rule at the moved clock and a second check changes nothing |
| DstTheorems.CheckConserves | Embedded/Sources/Event_Task.c:2393-2498 | a check keeps the offset in step with the flag, the instant of the clock and of every scene with a name and a trigger other than REGULAR_TIME; every scene without a name or with a regular time stays as it is |
| DstTheorems.FlagFollowsStandardTime | Embedded/Sources/Event_Task.c:2424-2498 | the flag after a check is the one standard time gives if and only if it was not already set in the hour before the March transition |
| DstTheorems.FlagStaysSet | Embedded/Sources/Event_Task.c:2424-2498 | an input in every year at which it stays set against standard time |
| DstTheorems.TickTogglesAtTransitions | Embedded/Sources/Event_Task.c:2424-2498 | a tick of up to an hour switches the flag exactly if it passes a transition |
| DstTheorems.RunTogglesOncePerTransition | Embedded/Sources/Event_Task.c:2424-2498 | over any run of ticks the flag switches once for each transition passed |
| DstTheorems.TransitionsInside | Embedded/Sources/Event_Task.c:2293-2384 | the transitions of a year are in order and far from its ends |
| DstTheorems.TransitionsOf2015 | Embedded/Sources/Event_Task.c:2293-2384 | the two transitions of 2015, 8 March and 1 November, 02:00 each, in seconds |
| SentRing.Ring.GetNumItems | Embedded/Sources/RFM100_Tasks.c:443-469 | the number of messages between the indexes; on indexes out of range the ring is emptied |
| SentRing.Ring.ClearOld | Embedded/Sources/RFM100_Tasks.c:475-508 | the queue the ring stands for loses its old messages at the front |
| SentRing.Ring.Add | Embedded/Sources/RFM100_Tasks.c:514-548 | the message is appended to what the purge left; with ninety-nine left the ring becomes empty |
| SentRing.Ring.IsRepeat | Embedded/Sources/RFM100_Tasks.c:554-599 | true if and only if the time to live is below 2 and a represented message matches |
| SentRing.PurgeDropsExactlyOld | Embedded/Sources/RFM100_Tasks.c:475-508 | while the clock does not go back, purging from the front drops exactly the messages older than five seconds |
| SentRing.RingRemembersRecent | Embedded/Sources/RFM100_Tasks.c:443-599 | over any history of adds, with never a hundred recent messages, the ring holds exactly the recent ones |
| SentRing.RingRemembersExactly | Embedded/Sources/RFM100_Tasks.c:443-599 | the ring holds exactly the recent messages after every add if and only if there are never a hundred of them |
| SentRing.HundredthEmpties | Embedded/Sources/RFM100_Tasks.c:514-548 | an add leaves the ring empty if and only if it brings the first hundred recent messages together |
| SentRing.ViewPush | Embedded/Sources/RFM100_Tasks.c:514-548 | writing a slot and moving the write index appends to the queue, or makes it empty when the ring is full |
| SentRing.ViewTail | Embedded/Sources/RFM100_Tasks.c:493-500 | moving the read index drops the front of the queue |
| RfFrame.AddressRoundTrip | Embedded/Sources/RFM100_Tasks.c:2177-2183 | building, house and group survive the three address bytes if and only if the building is below 8 and the group below 4096 |
| RfFrame.PercentRoundTrip | Embedded/Sources/RFM100_Tasks.c:891 | a level survives both roundings if and only if it is at most 100 |
| RfFrame.NearestLevels | Embedded/Sources/RFM100_Tasks.c:891 | neither rounding is off by more than half a step |
| RfFrame.HeaderRoundTrip | Embedded/Sources/RFM100_Tasks.c:793-795 | family, address mode and time to live survive the header byte |
| RfFrame.BuildRamp | Embedded/Sources/RFM100_Tasks.c:2142-2211 | the buffer holds the frame of the zone and the ring remembers it; without a zone nothing changes |
| RfFrame.BuildRampAll | Embedded/Sources/RFM100_Tasks.c:2219-2277 | the bytes sent are the frame for a room |
| RfFrame.CheckAndMeasure | Embedded/Sources/RFM100_Tasks.c:2198-2204 | check byte, its complement and the length complete the frame |
| RfReceiver.Receiver.BuildReceivedPacket | Embedded/Sources/RFM100_Tasks.c:670-722 | one byte into the packet, and the next state of the machine |
| RfReceiver.Receiver.Take | Embedded/Sources/RFM100_Tasks.c:1037-1082 | one turn of the receive loop: time-out, acknowledgement byte or packet byte |
| RfReceiver.Receiver.Check | Embedded/Sources/RFM100_Tasks.c:797-812 | a packet whose check stays within the buffer is accepted if and only if its family is known and its check bytes fit |
| RfReceiver.Receiver.ProcessReceivedPacket | Embedded/Sources/RFM100_Tasks.c:770-981 | the calls made for a packet and the sequence number kept; the ring's queue is only read |
| RfReceiver.Receiver.Turn | Embedded/Sources/RFM100_Tasks.c:1037-1082 | one whole turn of the receive loop: the next state, and the calls for the packet it completes, which is decoded within the buffer whenever header and length byte are legal |
| RfReceiver.StepGathers | Embedded/Sources/RFM100_Tasks.c:670-722 | every turn keeps the accepted length byte in the packet, and reports only length bytes 0 to 60 and 255 |
| RfReceiver.Receiver.Dispatch | Embedded/Sources/RFM100_Tasks.c:872-971 | the switch over the operation of a packet for a group |
| RfTheorems.IndexStaysInside | Embedded/Sources/RFM100_Tasks.c:670-682 | after any run of bytes and time-outs the index passes 63 only while idle, and every byte is stored inside the buffer |
| RfTheorems.AnswersWhileIdle | Embedded/Sources/RFM100_Tasks.c:1064-1081 | only a waiting receiver hands on the two answers of the module, and of all other bytes only the start byte begins a frame |
| RfTheorems.IndexAtEndExactly | Embedded/Sources/RFM100_Tasks.c:670-682 | the index comes to 64 exactly when a byte fills the buffer in the middle of a frame, and stays there until the next byte |
| RfTheorems.IndexReachesEnd | Embedded/Sources/RFM100_Tasks.c:670-682 | a frame with length byte 61 brings it there |
| RfTheorems.ReportedExactly | Embedded/Sources/RFM100_Tasks.c:692-812 | for every packet reported in any run, its check stays within the buffer if and only if it is not a one-check-byte packet of length 0 or 255 or a two-check-byte packet of length 0, 1 or 255 |
| RfTheorems.IllegalIsReported | Embedded/Sources/RFM100_Tasks.c:692-799 | four bytes that make the receiver report a packet whose check leaves the buffer |
| RfTheorems.RunConcat | Embedded/Sources/RFM100_Tasks.c:1037-1082 | two runs in turn report what they report joined |
| RfTheorems.FrameReported | Embedded/Sources/RFM100_Tasks.c:670-722 | from any idle state a frame is reported with its last byte and not before, all its bytes in the packet, if and only if it is shorter than the buffer |
| RfTheorems.FramesThatFit | Embedded/Sources/RFM100_Tasks.c:678-718 | length bytes 1 to 60 are exactly those whose frames end with their last byte before the buffer is full |
| RfTheorems.LongFrameDropped | Embedded/Sources/RFM100_Tasks.c:692-704 | a length byte that does not fit ends the frame at once |
| RfTheorems.ChangedByteRejected | Embedded/Sources/RFM100_Tasks.c:797-812 | an accepted frame with one byte behind the signal strength changed, family bits untouched, is rejected, for every family and length |
| RfTheorems.GenuineExactly | Embedded/Sources/RFM100_Tasks.c:797-812 | a packet is genuine if and only if its family is 1 and the CRC-8 of all its bytes leaves 0, or its family is 6 or 4, that of all but the last does, and the last is the complement of the one before |
| RfTheorems.SentAsHeard | Embedded/Sources/RFM100_Tasks.c:2142-2277 | the bytes handed to the module are those on the air, behind a length byte that counts them |
| RfTheorems.RampRecovered | Embedded/Sources/RFM100_Tasks.c:770-903 | building, house, group, level, ramp rate and kind of device of a ramp frame are read back, an off command with level 0 |
| RfTheorems.RampRoundTrip | Embedded/Sources/RFM100_Tasks.c:670-903 | after any run that leaves the receiver idle, a ramp frame is reported exactly on its last byte, once, and handled as the ramp of its zone |
| RfTheorems.RampAllIgnored | Embedded/Sources/RFM100_Tasks.c:851-853 | a frame for a room is accepted and then left alone, whatever building, house, room and level it carries, which can be read back |
| RfTheorems.RoomRoundTrip | Embedded/Sources/RFM100_Tasks.c:2254-2261 | building, house and room survive the three bytes of a room address if and only if the building is below 8 and the room below 64 |
| RfTheorems.GroupRecovered | Embedded/Sources/RFM100_Tasks.c:849-874 | a checked frame of family 6 in any mode with a group address, of any length that fits, is genuine, and its address and all bytes behind it are read back |
| RfTheorems.TestModeShows | Embedded/Sources/RFM100_Tasks.c:815-848 | in test mode a genuine frame is shown byte by byte with its signal strength, and nothing is done for it |
| RfTheorems.StatusRecovered | Embedded/Sources/RFM100_Tasks.c:905-911 | a status frame is handed on with its address, level and kind of device |
| RfTheorems.MasterOffRecovered | Embedded/Sources/RFM100_Tasks.c:912-929 | a master-off frame is carried out with its fields unless its sequence number is the one remembered and not 0; it is not remembered itself |
| RfTheorems.SceneRequestRecovered | Embedded/Sources/RFM100_Tasks.c:930-959 | a scene request is carried out with its bank, state, kind of device and slowness unless it repeats the sequence number, which is remembered |
| RfTheorems.SceneAdjustRecovered | Embedded/Sources/RFM100_Tasks.c:960-970 | a scene adjustment likewise, with its bank and direction, by 5 percent |
| RfTheorems.OthersIgnored | Embedded/Sources/RFM100_Tasks.c:876-973 | a packet with any other operation, of one byte or two, is left alone |
| RfTheorems.EchoDroppedExactly | Embedded/Sources/RFM100_Tasks.c:891-903 | the controller's own ramp heard again is dropped if and only if the ring had room for it and its level is the remembered one or an earlier message matches |
| RfTheorems.OffEchoIsHeard | Embedded/Sources/RFM100_Tasks.c:891-903 | a zone at full power switched off: the echo is taken for a new command |
| Sanitizer.SanitizeString | Embedded/Sources/String_Sanitizer.c:11-156 | the output is the cleaned text cut to fit with its final zero, for any text and size, and nothing behind it is written |
| Sanitizer.OneCharacter | Embedded/Sources/String_Sanitizer.c:18-151 | one turn of the loop, and that a cut-off character ends the text |
| Sanitizer.LegalCharacters | Embedded/Sources/String_Sanitizer.c:105-112 | the legal alphabet: the letters a to z and A to Z, the digits, dot, hyphen, underscore, colon and space |
| Sanitizer.CleanIsLegal | Embedded/Sources/String_Sanitizer.c:112-149 | every character of a cleaned text is in the legal alphabet |
| Sanitizer.CleanKeepsExactlyLegal | Embedded/Sources/String_Sanitizer.c:11-156 | a text is left as it is if and only if all its characters are legal |
| Sanitizer.SanitizedTwice | Embedded/Sources/String_Sanitizer.c:11-156 | sanitizing again with the same size changes nothing |
| Sanitizer.CleanIsPerCodePoint | Embedded/Sources/String_Sanitizer.c:11-156 | a text in UTF-8 (section 3 of RFC 3629) comes out with one character for each code point: itself if legal, an underscore if not |

## Left out

- Return codes of the flash driver: erases and programs succeed while power lasts.
- The addresses of slots: the range checks in `GetNVZonePropertiesPtr` and its like hold for every index in range with the constants of `defines.h`, and a slot is an element of an array here.
- `flash_sizeof`: the rounded sizes of the records appear as constants.
- The scene store (`Scenes.c`): its RAM buffer and address range do not match the sector constant it uses.
- Crash safety of zone and scene-controller sectors: a single sector is erased and rewritten, which promises none; the store is proved without power failures.
- BootRecovery.Controller.Boot: what RAM holds before loading is a parameter of each boot, including the four bytes behind the properties that are programmed with them.
- BootRecovery.Controller.LoadSystemPropertiesFromFlash: offsets are compared in 32-bit arithmetic that wraps, where the C code would overflow.
- Dst.Controller.LoadOffsets: an hour added to an offset wraps in 32 bits, where the C code would overflow.
- Fbk.Context.WriteFlash: a source lies in RAM or in one of the two banks; other flash addresses are not modelled.
- FbkTheorems.AddressStaysGood: an address is a bank and an offset; pointer arithmetic of `FBK_Address` is not modelled.
- `jsr` outside its dialect: escaped quotes, arrays of bare strings and empty keys. An object at depth twelve or an unquoted token as long as the value buffer makes the code write behind its tables; such streams are excluded. Characters are taken to be unsigned.
- JsrTheorems.ReportsAreCounted: counts are tested modulo 256, as the code keeps them in a byte, so they equal the matches while there are at most 255.
- MQX date functions: replaced by the calendar of `Calendar.dfy`.
- Sunrise and sunset: an oracle that gives an hour and a minute within the day.
- Scheduler.CalculateNewTrigger: the clock is taken to be at least eight days before the end of 32-bit time, where the date functions of the kernel wrap; so in `CheckScenes` and `CheckScene`.
- Executing a scene: recorded as the index of the scene; what it sends is not modelled.
- DstTheorems.CheckIsFixedPoint: the clock is taken to be at least an hour from both ends of 32-bit time.
- RfReceiver.Receiver.ProcessReceivedPacket: for the illegal packets of `RfTheorems.ReportedExactly` the code reads memory outside its buffer; what it makes of that is not modelled. Broadcasts and the handlers it calls are recorded as calls.
- RfReceiver.Receiver.Turn: the same packets are excluded.
- RfReceiver.Receiver.Check: the same packets are excluded.
- SentRing.Ring.Add: the two readings of the clock are parameters.
- Zones.Table.InitializeZoneArray: shade id strings are not modelled.
- Sanitizer.SanitizeString: input and output are different buffers, as in every call.
- The multibyte expansion of the sanitizer: switched off in the source.
- Mutexes, message queues and JSON construction: taken to succeed.
- Network, MQTT, TLS, USB, LEDs and the update server: not part of this model.
