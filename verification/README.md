# Verified models of the ESP8266 Arduino core

A Dafny model of the parts of the ESP8266 core that must not go wrong, with proofs of what they
promise. `dafny verify dfyconfig.toml` checks all of it.

The largest part is the over-the-air update. `UpdaterClass` stages an image in flash,
`EspClass::flashWrite` turns byte writes into aligned programs that stay within pages, a command
protected by a CRC goes into RTC memory, and the boot loader `eboot` copies the staged image over the
running one. Flash is an array of bytes in which erasing sets a sector of 4096 bytes to 0xff and
programming clears bits (or overwrites, on PUYA chips); every operation may fail. The proofs run
from single bits of the CRC to one theorem over the whole chain, `Ota.UpdateAndBoot`.

| file | contents |
|---|---|
| `Bytes.dfy`, `Lists.dfy` | bytes, 32-bit words, bitwise AND, division; lists of distinct nodes |
| `CrcRegister.dfy`, `Crc32.dfy` | the CRC-32 of core, boot loader and image builder, and burst detection |
| `EbootCommand.dfy` | the boot command in RTC memory |
| `ImageCrc.dfy` | the checksum that `elf2bin.py` puts into an image and `checkFlashCRC` checks |
| `FlashChip.dfy`, `EspFlash.dfy` | the SPI flash, and byte writes on it |
| `UpdaterSpec.dfy`, `Updater.dfy` | the update session: staging area, erase discipline, digest, signature, commit |
| `Eboot.dfy` | the boot loader's copy, overlap and restarts |
| `Ota.dfy` | the whole update, end to end |
| `AesUnwrap.dfy` | the AES key unwrap of RFC 3394 |
| `DhcpTable.dfy`, `DhcpProtocol.dfy`, `DhcpServer.dfy` | the DHCP server: lease table, runs of messages, linked list |
| `Schedule.dfy`, `Recurrent.dfy` | run-once and recurrent scheduled functions, with interrupts |
| `I2sTx.dfy` | the I2S transmit buffers between writer, interrupt and DMA |
| `Cbuf.dfy` | the circular buffer |
| `StreamSend.dfy` | the three stream-to-stream transfers |
| `PolledTimeout.dfy` | polled timers on a counter that wraps around |

Methods follow the loops and branches of the original; each is proved against a function or a
predicate on values, and the laws are lemmas about those. Randomness, clocks, memory shortage,
interrupts and failing hardware are nondeterministic choices or parameters.

## Where the code does less than its documentation says

Each of these is a lemma or a clause of a contract.

- `begin` accepts sizes above 0xfffff000, for which the rounded size wraps to 0 and the staging area
  would be the file system (`UpdaterSpec.BeginWindowExact`, `UpdaterSpec.BeginWindowWraps`). When the
  size of the running sketch is 0, an image larger than the free space is accepted too, and would be
  staged from address 0 into the file system.
- An empty `write` to a complete session whose image fills whole sectors erases the first sector
  behind the staging area, and ends the session (`Updater.UpdaterClass.Write`).
- A failing read of the running header, whose mode the image is to get, is not noticed: the image gets
  the unknown mode 0xff (`Updater.UpdaterClass.WriteBuffer`).
- A mode byte above 3 is hashed as 0xff when it was patched (`UpdaterSpec.HashedIsSent`).
- The signature hash of a payload that is not a multiple of four bytes covers stale buffer contents
  in place of its last bytes (`UpdaterSpec.HashFedExact`). Failing reads of the payload are not noticed
  either: the verifier then judges what the buffer held before, which is the payload exactly when the
  chunks that could not be read repeat the ones before them (`UpdaterSpec.FedExact`); it cannot tell
  what they hold (`UpdaterSpec.FailedChunksUnseen`).
- `end(true)` does not notice a failed last flush: it returns true, with the error still set and a
  command that copies nothing (`Updater.UpdaterClass.End`); with less than one buffer sent it refuses
  for want of data.
- The boot loader clears the command even when the copy failed, so that a half-copied sketch stays
  (`Eboot.BootMain`). Overlapping ranges, which `begin` allows, need not survive a reset in the middle of
  the copy (`Ota.UpdateRestartable`); disjoint ones do, since the copy itself never touches RTC memory
  (`Eboot.CutBoot`, `Ota.UpdateAndBoot`).
- An update that had to patch the mode byte makes `checkFlashCRC` fail from then on
  (`Ota.InstalledChecks`).
- `aes_unwrap` is right for keys of up to 42 blocks only (`AesUnwrap.UnwrapsExact`).
- The DHCP server does not check a claimed address against its range, which can end with its own
  address given away or with two clients sharing one (`DhcpTable.ServerAddressGranted`,
  `DhcpTable.TwoClientsShare`); a range that reaches x.y.z.255 can be overrun (`DhcpTable.RangeExact`).
- A request that claims the broadcast address is acknowledged, with 0.0.0.0, when the message before it,
  from whatever client, was a renewal (`DhcpProtocol.RenewalExact`).
- A pass over scheduled functions that starts with an empty queue runs everything, also what its own
  functions schedule, if an interrupt gets in first (`Schedule.Scheduler.RunScheduledFunctions`).
- The peek-buffer transfer throws a data byte away when a sink takes less than the data ahead of a
  delimiter in view, although it has announced more room than that. Sinks that take every offer
  smaller than their room are safe (`StreamSend.SendGenericPeekBuffer`); for any other the loss
  happens, and the report is the one of a transfer that ended at the delimiter: success without a
  limit, a short operation with one (`StreamSend.PeekKeepsDataExact`). Delimiters above 255 are found
  as bytes there, and never by the byte-wise transfer (`StreamSend.DelimitersAgreeExact`).
- Periodic timers polled later than 2^32 ticks after their start lose whole periods
  (`PolledTimeout.ElapsedExact`).
- A fast timer beyond its range, meant never to expire, can be always expired
  (`PolledTimeout.AlwaysExpiredExact`, `PolledTimeout.Timer.PollBeyondRange`).

## Model

| member | source | states |
|---|---|---|
| `CrcRegister.StepBack` | core/board_manager/esp8266/bootloaders/eboot/eboot_command.c:7-18 | one message bit permutes the 32-bit register: read backwards, what the step added and one more low bit are determined |
| `CrcRegister.RunInjective` | core/board_manager/esp8266/bootloaders/eboot/eboot_command.c:5-20 | equal registers after equal bits were equal before |
| `CrcRegister.BurstChangesRegister` | core/board_manager/esp8266/bootloaders/eboot/eboot_command.c:5-20 | for any generator with a constant term, messages that differ only inside 32 consecutive bits leave different registers |
| `Crc32.StepShifts` | core/board_manager/esp8266/bootloaders/eboot/eboot_command.c:8-17 | the shift-and-XOR step on machine words is that register step for the polynomial 0x04c11db7 |
| `Crc32.BurstDetected` | core/board_manager/esp8266/bootloaders/eboot/eboot_command.c:3-22 | all messages that differ only inside one window of 32 bits in processing order have different CRCs, from any start value |
| `Crc32.FourBytesDetected` | core/board_manager/esp8266/bootloaders/eboot/eboot_command.c:3-22 | the same for messages that differ only inside four consecutive bytes |
| `Crc32.CrcConcat` | core/board_manager/esp8266/cores/esp8266/Esp.cpp:472-478 | a CRC may be taken piecewise |
| `Crc32.CrcBit` | core/board_manager/esp8266/bootloaders/eboot/eboot_command.c:8-17 | the loop body is one register step |
| `Crc32.CrcByte` | core/board_manager/esp8266/bootloaders/eboot/eboot_command.c:6-18 | the loop over the mask is eight register steps, top bit first |
| `Crc32.CrcUpdate` | core/board_manager/esp8266/cores/esp8266/crc32.cpp:26-43 | the byte loop computes the CRC of the bit string; crc_update in eboot_command.c is the same loop |
| `Crc32.CheckValue` | core/board_manager/esp8266/cores/esp8266/crc32.cpp:26-43 | it is CRC-32/MPEG-2: the digits 123456789 give its check value 0x0376e6e7 |
| `Bytes.AndBits` | core/board_manager/esp8266/cores/esp8266/Esp.cpp:749-757 | the AND of two numbers, bit by bit |
| `EbootCommand.Command.CalculateCrc32` | core/board_manager/esp8266/bootloaders/eboot/eboot_command.c:25-29 | the CRC over all words but the last |
| `EbootCommand.Command.Read` | core/board_manager/esp8266/bootloaders/eboot/eboot_command.c:31-46 | 0 exactly for an acceptable command; the structure holds the words of the memory |
| `EbootCommand.Command.Write` | core/board_manager/esp8266/cores/esp8266/core_esp8266_eboot_command.cpp:52-62 | afterwards the memory holds this action and these arguments in acceptable form |
| `EbootCommand.Clear` | core/board_manager/esp8266/bootloaders/eboot/eboot_command.c:60-64 | exactly the magic word and the CRC word become 0 |
| `EbootCommand.StoredIsAccepted` | core/board_manager/esp8266/bootloaders/eboot/eboot_command.c:31-58 | round trip: what was written is accepted and reads back unchanged |
| `EbootCommand.ClearedIsRejected` | core/board_manager/esp8266/bootloaders/eboot/eboot_command.c:31-64 | no cleared command is accepted, whatever the other words hold |
| `EbootCommand.BurstIsRejected` | core/board_manager/esp8266/bootloaders/eboot/eboot_command.c:25-46 | corruption of an accepted command inside 32 consecutive bits ahead of the CRC word is rejected |
| `EbootCommand.WordCorruptionIsRejected` | core/board_manager/esp8266/bootloaders/eboot/eboot_command.c:25-46 | changing any one word of an accepted command, the CRC word included, makes it unacceptable |
| `ImageCrc.Crc8266` | core/board_manager/esp8266/tools/elf2bin.py:145-162 | the builder's CRC equals the device's on every input |
| `ImageCrc.StoreWord` | core/board_manager/esp8266/tools/elf2bin.py:165-171 | the four low bytes of the value, lowest first, and nothing else; fails exactly when a byte is missing |
| `ImageCrc.AddCrc` | core/board_manager/esp8266/tools/elf2bin.py:174-186 | the file gets its length and its checksum at 4112 and 4116; files under 4120 bytes raise an exception |
| `ImageCrc.CheckFlashCrc` | core/board_manager/esp8266/cores/esp8266/Esp.cpp:466-480 | the three-part check is the check of the whole covered image; no answer when the length word points outside the mapped flash |
| `ImageCrc.AddCrcIdempotent` | core/board_manager/esp8266/tools/elf2bin.py:178-183 | running the builder again changes nothing |
| `ImageCrc.ChecksExact` | core/board_manager/esp8266/cores/esp8266/Esp.cpp:466-480 | the device accepts exactly the images that the builder leaves alone |
| `ImageCrc.BuiltImagePasses` | core/board_manager/esp8266/tools/elf2bin.py:174-186 | every image the builder produced passes on the device, wherever the flash goes on behind it |
| `ImageCrc.BurstNoticed` | core/board_manager/esp8266/cores/esp8266/Esp.cpp:466-480 | corruption of an accepted image inside 32 consecutive bits away from the two words is noticed |
| `ImageCrc.ByteNoticed` | core/board_manager/esp8266/cores/esp8266/Esp.cpp:466-480 | so is any change of one byte ahead of them |
| `FlashChip.OverwriteIsAnd` | core/board_manager/esp8266/cores/esp8266/Esp.cpp:749-757 | read, AND in memory and overwrite is the same as clearing bits |
| `FlashChip.Chip.EraseSector` | core/board_manager/esp8266/cores/esp8266/Esp.cpp:673-676 | a 4096-byte sector becomes 0xff, or anything when the operation fails; nothing outside changes |
| `EspFlash.AlignedExact` | core/board_manager/esp8266/cores/esp8266/Esp.cpp:764-771 | aligned gives the least multiple of four that is not smaller |
| `EspFlash.WritePageBreak` | core/board_manager/esp8266/cores/esp8266/Esp.cpp:687-716 | programs the data in ascending pieces, none across a 256-byte page |
| `EspFlash.WritePuya` | core/board_manager/esp8266/cores/esp8266/Esp.cpp:718-761 | on a chip that overwrites, leaves old AND data |
| `EspFlash.WriteHead` | core/board_manager/esp8266/cores/esp8266/Esp.cpp:804-833 | the bytes ahead of the first aligned address are combined into the word around them; all other bytes keep their values |
| `EspFlash.StartUnaligned` | core/board_manager/esp8266/cores/esp8266/Esp.cpp:790-833 | the head of an unaligned write, and where the aligned rest begins |
| `EspFlash.FlashWriteUnalignedMemory` | core/board_manager/esp8266/cores/esp8266/Esp.cpp:790-858 | all of the data for every address and size: old AND data on the range, nothing else changed |
| `EspFlash.FlashWriteWords` | core/board_manager/esp8266/cores/esp8266/Esp.cpp:860-872 | word writes: old AND data on either kind of chip |
| `EspFlash.FlashWrite` | core/board_manager/esp8266/cores/esp8266/Esp.cpp:874-887 | for every address, pointer alignment and size: succeeds exactly when there is data, no operation fails and the words fit; leaves old AND data: a bit is set afterwards exactly when it was set and, in the range, is set in the data; programs inside the words around the range, each in one page on chips that are not PUYA |
| `EspFlash.FlashRead` | core/board_manager/esp8266/cores/esp8266/Esp.cpp:889-926 | whether or not the destination is word-aligned: succeeds exactly when no read fails and the words fit, and every size is read right |
| `UpdaterSpec.BeginWindowExact` | core/board_manager/esp8266/cores/esp8266/Updater.cpp:100-137 | an accepted staging area lies above the running sketch and below the file system exactly when the rounded size does not wrap around and the sketch size is known (or the image fits anyway) |
| `UpdaterSpec.UpdateStartExact` | core/board_manager/esp8266/cores/esp8266/Updater.cpp:100-137 | for sizes that do not wrap: accepted exactly when there is room, and staged right below the file system, or over the old one |
| `UpdaterSpec.BeginWindowWraps` | core/board_manager/esp8266/cores/esp8266/Updater.cpp:104-127 | counterexample: size 0xffffffff is accepted with the start of the file system as its staging area |
| `UpdaterSpec.HashedIsSent` | core/board_manager/esp8266/cores/esp8266/Updater.cpp:397-429 | the MD5 covers exactly the bytes sent unless a mode byte from 4 to 0xfe was patched, which is restored as 0xff |
| `UpdaterSpec.FoldExact` | core/board_manager/esp8266/cores/esp8266/Updater.cpp:328-339 | comparing with the digest's text without regard to case is comparing the sixteen bytes that the digits spell |
| `UpdaterSpec.StagedMore` | core/board_manager/esp8266/cores/esp8266/Updater.cpp:397-405 | only the first buffer is patched |
| `UpdaterSpec.DisciplinedPrograms` | core/board_manager/esp8266/cores/esp8266/Updater.cpp:379-411 | programs in ascending order into erased cells keep the erase-before-program discipline and leave the rest blank |
| `UpdaterSpec.AndedIntoOnes` | core/board_manager/esp8266/cores/esp8266/Updater.cpp:379-411 | data programmed into erased cells reads back as itself |
| `UpdaterSpec.HashFedExact` | core/board_manager/esp8266/cores/esp8266/Updater.cpp:279-288 | the signature hash covers the payload, whatever the buffer held, exactly when the payload is a multiple of four bytes or its tail repeats the chunk before it |
| `UpdaterSpec.SignedFileSplits` | core/board_manager/esp8266/tools/signing.py:31-34 | a signed file splits back into exactly its data and signature, and the check is the verifier's verdict on them |
| `Updater.EraseAhead` | core/board_manager/esp8266/cores/esp8266/Updater.cpp:379-383 | a sector is erased exactly at its start, and then blank |
| `Updater.GetFlashChipMode` | core/board_manager/esp8266/cores/esp8266/Esp.cpp:320-330 | byte 2 of the flash, decoded; unknown when it cannot be read |
| `Updater.PatchMode` | core/board_manager/esp8266/cores/esp8266/Updater.cpp:388-421 | when the header's mode byte is replaced, and by what |
| `Updater.FlushToChip` | core/board_manager/esp8266/cores/esp8266/Updater.cpp:375-421 | a flush stages the chunk, hashes it with the byte restored, and keeps to its sector |
| `Updater.UpdaterClass.Begin` | core/board_manager/esp8266/cores/esp8266/Updater.cpp:68-201 | exactly when a session opens, and where |
| `Updater.UpdaterClass.WriteBuffer` | core/board_manager/esp8266/cores/esp8266/Updater.cpp:375-434 | the invariant of a session: what was sent is staged up to the current address, confined, erased before it was programmed |
| `Updater.UpdaterClass.Write` | core/board_manager/esp8266/cores/esp8266/Updater.cpp:436-467 | all bytes are taken or the session is over; every erase and program stays inside the staging area, each program on erased bytes; the empty write on a complete session that erases behind it is stated too |
| `Updater.UpdaterClass.WriteFrom` | core/board_manager/esp8266/cores/esp8266/Updater.h:176-210 | the same for the template write: exactly the bytes read from the source are taken, in order, until the image is complete; what is counted after a failed flush is stated too |
| `Updater.UpdaterClass.HashPayload` | core/board_manager/esp8266/cores/esp8266/Updater.cpp:279-288 | the 128-byte loop feeds the hash the payload; a last chunk of odd size, and every chunk whose read fails, is fed as what the buffer held before; no more chunks failed than there were faults |
| `UpdaterSpec.FedWithoutFailures` | core/board_manager/esp8266/cores/esp8266/Updater.cpp:279-288 | without failing reads that is the payload, but for a last chunk of odd size |
| `UpdaterSpec.FedExact` | core/board_manager/esp8266/cores/esp8266/Updater.cpp:279-288 | the hash covers the payload, whatever the buffer held, exactly when every chunk whose read failed, or was refused for its size, repeats the chunk before it |
| `UpdaterSpec.FailedChunksUnseen` | core/board_manager/esp8266/cores/esp8266/Updater.cpp:279-288 | payloads that differ only in chunks whose read failed have the same hash |
| `Updater.UpdaterClass.VerifySignature` | core/board_manager/esp8266/cores/esp8266/Updater.cpp:245-326 | without read faults, accepts exactly when trailer, hash and signature do, unless memory is short; with them, the trailer was read right, and the verifier accepted the payload but for as many chunks as there were faults, with the stored signature unless a fault was its own |
| `UpdaterSpec.SeenWithoutFaults` | core/board_manager/esp8266/cores/esp8266/Updater.cpp:279-318 | without faults that is the verdict on what is stored |
| `UpdaterSpec.ApprovedOfStored` | core/board_manager/esp8266/cores/esp8266/Updater.cpp:279-318 | with faults it still is, when the signature was read and the chunks that were not repeat the ones before them |
| `UpdaterSpec.FlashSizeExact` | core/board_manager/esp8266/cores/esp8266/Esp.cpp:333-354 | the flash sizes that the header codes stand for, and which codes are none |
| `Updater.UpdaterClass.VerifyEnd` | core/board_manager/esp8266/cores/esp8266/Updater.cpp:485-526 | accepts exactly gzip, or a magic byte with a flash size the chip has |
| `Updater.UpdaterClass.WriteBootCommand` | core/board_manager/esp8266/cores/esp8266/Updater.cpp:344-351 | the command in RTC memory copies the staged image to address 0 |
| `Updater.UpdaterClass.SetMd5` | core/board_manager/esp8266/cores/esp8266/Updater.cpp:203-210 | exactly digests of 32 digits are taken |
| `Updater.UpdaterClass.End` | core/board_manager/esp8266/cores/esp8266/Updater.cpp:212-373 | the commit gate: the boot command changes only when true is returned, and then the whole image is staged with the mode byte of the running header (or the unknown one, after a failed read), and the target digest spelled the sixteen bytes of the actual one, or its signature was accepted, with no more of the payload unread than there were faults; without faults, true exactly when it should be, with a verifier unless memory is short; the end(true) after an unnoticed failed flush is stated too |
| `Eboot.CopiedMoves` | core/board_manager/esp8266/bootloaders/eboot/eboot.c:154-205 | copying sectors upwards is memmove when the target does not start inside the source |
| `Eboot.CopyIsMoveExact` | core/board_manager/esp8266/bootloaders/eboot/eboot.c:154-205 | and for all contents only then |
| `Eboot.CutStaysInTarget` | core/board_manager/esp8266/bootloaders/eboot/eboot.c:154-205 | a run that was cut short changes the target only |
| `Eboot.InterruptedIsCut` | core/board_manager/esp8266/bootloaders/eboot/eboot.c:154-205 | what a run that stopped in some sector leaves is what a restart is proved to repair, unless it stopped in the boot loader's own sector |
| `Eboot.RestartCompletes` | core/board_manager/esp8266/bootloaders/eboot/eboot.c:154-269 | after any number of cut runs, a complete run leaves the original source in the target and the rest as it was, for disjoint ranges |
| `Eboot.OverlapIsNotRestartable` | core/board_manager/esp8266/bootloaders/eboot/eboot.c:154-205 | counterexample: with overlapping ranges one cut run can destroy the source |
| `Eboot.RestartableExact` | core/board_manager/esp8266/bootloaders/eboot/eboot.c:154-269 | the copy survives every restart, for all contents, exactly when the ranges are disjoint (or it is the boot sector onto itself) |
| `Eboot.RewriteSector` | core/board_manager/esp8266/bootloaders/eboot/eboot.c:193-200 | erase and program leave the buffer in the sector, on either kind of chip |
| `Eboot.CopySector` | core/board_manager/esp8266/bootloaders/eboot/eboot.c:155-201 | one round; the boot loader's own sector is left alone when it would not change |
| `Eboot.CopySectors` | core/board_manager/esp8266/bootloaders/eboot/eboot.c:154-207 | the loop: success is the complete copy, failure is a run that stopped in some sector, nothing outside the target changes |
| `Eboot.CopyRaw` | core/board_manager/esp8266/bootloaders/eboot/eboot.c:112-207 | refuses exactly unaligned addresses; the uncompressed path is taken exactly when the source does not start with the gzip signature |
| `Eboot.BootMain` | core/board_manager/esp8266/bootloaders/eboot/eboot.c:210-269 | what is copied and started for each command; an accepted command is used up, even when the copy failed |
| `Eboot.CutCopyRaw` | core/board_manager/esp8266/bootloaders/eboot/eboot.c:112-207 | copy_raw up to a power failure inside any sector, or behind the last one, leaves one of those cut runs |
| `Eboot.CutBoot` | core/board_manager/esp8266/bootloaders/eboot/eboot.c:210-269 | a boot that is cut ahead of the clearing leaves a cut run in flash and the command in RTC memory |
| `Ota.CopyInstalls` | core/board_manager/esp8266/bootloaders/eboot/eboot.c:112-207 | the boot loader's copy of a committed image installs it |
| `Ota.CommandOfUpdate` | core/board_manager/esp8266/bootloaders/eboot/eboot_command.c:31-46 | the boot loader reads the updater's source, target and length |
| `Ota.Stage` | core/board_manager/esp8266/cores/esp8266/Updater.cpp:68-467 | any split of an image into non-empty writes, with an expected digest or none: when begin, all writes and end succeed the image is staged and the command names it; without faults, on a board that takes the image, they succeed exactly when the digest is well-formed and right |
| `Ota.Boot` | core/board_manager/esp8266/bootloaders/eboot/eboot.c:210-269 | a restart with a staged image installs it and starts at 0 |
| `Ota.CutBoots` | core/board_manager/esp8266/bootloaders/eboot/eboot.c:210-269 | any number of cut boots: an image that is out of the way stays staged, and its command stays |
| `Ota.UpdateAndBoot` | core/board_manager/esp8266/bootloaders/eboot/eboot.c:112-269 | end to end: for every image with magic byte 0xe9, every split, every prior flash content, with an expected digest or none, and any number of boots cut in the middle of the copy (none, unless two images fit), the boot that comes to its end leaves flash from 0 equal to the image, but for byte 2 when it means another mode than byte 2 of the flash did before: that then replaces it; and starts it; without faults the update succeeds on every board that has room for it, if its digest is right |
| `Ota.UpdateRestartable` | core/board_manager/esp8266/cores/esp8266/Updater.cpp:100-137 | an update survives resets in the middle of the copy exactly when two images fit below the file system |
| `Ota.InstalledChecks` | core/board_manager/esp8266/cores/esp8266/Esp.cpp:466-480 | after an update with a built image, the device's own flash check passes exactly when the mode byte did not have to be patched |
| `AesUnwrap.StepInverts` | core/board_manager/esp8266/cores/esp8266/aes_unwrap.cpp:138-145 | one unwrapping step undoes one wrapping step |
| `AesUnwrap.UnwrapShifts` | core/board_manager/esp8266/cores/esp8266/aes_unwrap.cpp:125-148 | unwrapping with indexed blocks is the shift register of section 2.2.2 of RFC 3394: the front half of each decrypted block is A, the back half comes in at the front |
| `AesUnwrap.RoundsInvert` | core/board_manager/esp8266/cores/esp8266/aes_unwrap.cpp:135-147 | six rounds undo six rounds, both ways |
| `AesUnwrap.UnwrapInverts` | core/board_manager/esp8266/cores/esp8266/aes_unwrap.cpp:135-158 | with the same step numbers, the initial value comes out exactly for the cipher texts that wrapping produces |
| `AesUnwrap.UnwrapsStandard` | core/board_manager/esp8266/cores/esp8266/aes_unwrap.cpp:113-161 | for up to 42 blocks: success exactly on the wraps of section 2.2.1 of RFC 3394, and then with the wrapped key |
| `AesUnwrap.FoldedPairs` | core/board_manager/esp8266/cores/esp8266/aes_unwrap.cpp:139 | what the dropped high bytes of the step numbers add up to |
| `AesUnwrap.LongKeyFails` | core/board_manager/esp8266/cores/esp8266/aes_unwrap.cpp:139 | counterexample: with the identity for AES every longer key fails |
| `AesUnwrap.UnwrapsExact` | core/board_manager/esp8266/cores/esp8266/aes_unwrap.cpp:113-161 | the code unwraps every wrap of every n-block key exactly for n up to 42, since it combines only the low byte of the step number |
| `AesUnwrap.AesUnwrap` | core/board_manager/esp8266/cores/esp8266/aes_unwrap.cpp:113-161 | the in-place loops leave what the unwrap of the standard leaves, also in its shift-register form, with the lowest byte of each step number, and return 0 exactly when A is the initial value |
| `DhcpTable.NextInNet` | core/board_manager/esp8266/cores/esp8266/LwipDhcpServer.cpp:1241 | htonl(ntohl(ip) + 1) is the raw address plus 2^24 inside a /24 network |
| `DhcpTable.NextLeavesNet` | core/board_manager/esp8266/cores/esp8266/LwipDhcpServer.cpp:1241 | behind x.y.z.255 it lies in another network |
| `DhcpTable.SoundMeansExclusive` | core/board_manager/esp8266/cores/esp8266/LwipDhcpServer.cpp:1181-1371 | in a sound table no address is promised to two clients |
| `DhcpTable.UpdateKeepsMacs` | core/board_manager/esp8266/cores/esp8266/LwipDhcpServer.cpp:1181-1371 | every request on every table keeps one entry for each client |
| `DhcpTable.UpdateBinds` | core/board_manager/esp8266/cores/esp8266/LwipDhcpServer.cpp:1270-1370 | an address handed out is in the table, bound to the client |
| `DhcpTable.NamedExact` | core/board_manager/esp8266/cores/esp8266/LwipDhcpServer.cpp:1272-1371 | a request for one address: who gets it, when it is a renewal, and the entry it leaves |
| `DhcpTable.UpdateSparesOthers` | core/board_manager/esp8266/cores/esp8266/LwipDhcpServer.cpp:1270-1370 | the online entries of other clients stay as they are |
| `DhcpTable.GapIs` | core/board_manager/esp8266/cores/esp8266/LwipDhcpServer.cpp:1212-1244 | what the count along a sound table finds: everything below is taken, the address itself is not |
| `DhcpTable.FirstFit` | core/board_manager/esp8266/cores/esp8266/LwipDhcpServer.cpp:1212-1268 | a request that names no address gets the least address no other client holds, and 0 only when the others hold them all |
| `DhcpTable.UpdatedAnySound` | core/board_manager/esp8266/cores/esp8266/LwipDhcpServer.cpp:1212-1370 | and keeps the table sound |
| `DhcpTable.SoundExact` | core/board_manager/esp8266/cores/esp8266/LwipDhcpServer.cpp:1181-1371 | a request keeps a sound table sound exactly when the named address is none, broadcast, in range, or, for a client without a lease, beyond the end |
| `DhcpTable.LeftSound` | core/board_manager/esp8266/cores/esp8266/LwipDhcpServer.cpp:1132-1178 | leaving keeps a table sound and touches nobody else's entry |
| `DhcpTable.LeftOffline` | core/board_manager/esp8266/cores/esp8266/LwipDhcpServer.cpp:1132-1178 | without force a dynamic lease stays offline, a static one goes |
| `DhcpTable.LeftFrees` | core/board_manager/esp8266/cores/esp8266/LwipDhcpServer.cpp:1132-1178 | a client that gives its address back holds none |
| `DhcpTable.TwoClientsShare` | core/board_manager/esp8266/cores/esp8266/LwipDhcpServer.cpp:1301-1323 | counterexample: an address below the range granted to one client makes two others share the first address |
| `DhcpTable.ServerAddressGranted` | core/board_manager/esp8266/cores/esp8266/LwipDhcpServer.cpp:1338-1356 | counterexample: a client that names the server's own address below the range gets it |
| `DhcpTable.RangeExact` | core/board_manager/esp8266/cores/esp8266/LwipDhcpServer.cpp:1233-1268 | requests that name no address keep every sound table sound exactly when the range ends below x.y.z.255 |
| `DhcpProtocol.ReplyIsBound` | core/board_manager/esp8266/cores/esp8266/LwipDhcpServer.cpp:679-698 | whatever the table and the message, an offered or acknowledged address other than 0 is bound to the sender |
| `DhcpProtocol.AckExact` | core/board_manager/esp8266/cores/esp8266/LwipDhcpServer.cpp:576-676 | a request for an address is acknowledged exactly when the table afterwards promises that address to the sender, unless the address it claims is broadcast or held online by another client; otherwise it is refused |
| `DhcpProtocol.RenewalExact` | core/board_manager/esp8266/cores/esp8266/LwipDhcpServer.cpp:640-652 | a request without an address in its options is acknowledged exactly when the sender holds the address it claims; with the broadcast address, when the last message was a renewal |
| `DhcpProtocol.DiscoveryExact` | core/board_manager/esp8266/cores/esp8266/LwipDhcpServer.cpp:632-638 | a discovery always gets an offer: the least free address, the claimed one if the sender can have it, or 0.0.0.0 |
| `DhcpProtocol.ReleaseExact` | core/board_manager/esp8266/cores/esp8266/LwipDhcpServer.cpp:686-693 | a release gets no reply; afterwards the sender holds nothing, exactly unless it has a lease and claims an address that another client has online |
| `DhcpProtocol.OtherMessages` | core/board_manager/esp8266/cores/esp8266/LwipDhcpServer.cpp:630-698 | what all other messages get: nothing without the magic cookie or for a decline; else an answer only to a requested address |
| `DhcpProtocol.OptionsRead` | core/board_manager/esp8266/cores/esp8266/LwipDhcpServer.cpp:576-630 | of any well-formed options, what is read is the last message type and the last requested address |
| `DhcpProtocol.StepSoundExact` | core/board_manager/esp8266/cores/esp8266/LwipDhcpServer.cpp:679-698 | one message keeps a sound table sound exactly when the claimed address was harmless or the message gave it back at once |
| `DhcpProtocol.StepSparesOthers` | core/board_manager/esp8266/cores/esp8266/LwipDhcpServer.cpp:679-698 | a message leaves another client's lease as it is, in a sound table exactly unless that is offline and its address is claimed |
| `DhcpProtocol.RunSound` | core/board_manager/esp8266/cores/esp8266/LwipDhcpServer.cpp:719-813 | over all runs of harmless messages: one address for each client, one client for each address, inside the range |
| `DhcpProtocol.PlainRunIsHarmless` | core/board_manager/esp8266/cores/esp8266/LwipDhcpServer.cpp:1193-1209 | messages that claim none, broadcast or an address in range are harmless |
| `DhcpProtocol.RunReply` | core/board_manager/esp8266/cores/esp8266/LwipDhcpServer.cpp:719-813 | the next reply of such a run: in range, not the server's own address, held by the sender alone |
| `DhcpProtocol.LeaseStays` | core/board_manager/esp8266/cores/esp8266/LwipDhcpServer.cpp:719-813 | over all runs a client's online lease stays as it is for as long as the client sends nothing |
| `DhcpProtocol.InitialRangeSafe` | core/board_manager/esp8266/cores/esp8266/LwipDhcpServer.cpp:815-861 | the server always ends up with a range in one network without its own address; a made-up one never reaches x.y.z.255 |
| `DhcpProtocol.InitialRangeExact` | core/board_manager/esp8266/cores/esp8266/LwipDhcpServer.cpp:815-861 | in octets: which configured ranges are taken, and that the made-up one is the hundred addresses behind or ahead of the server's |
| `DhcpServer.Server.InsertNode` | core/board_manager/esp8266/cores/esp8266/LwipDhcpServer.cpp:207-248 | the linked list afterwards is the old one with the node ahead of the first larger address |
| `DhcpServer.Server.RemoveNode` | core/board_manager/esp8266/cores/esp8266/LwipDhcpServer.cpp:256-285 | the linked list afterwards is the old one without the node |
| `DhcpServer.Server.Scan` | core/board_manager/esp8266/cores/esp8266/LwipDhcpServer.cpp:1212-1244 | the client's entry, the entry with the wanted address, or where a free address may be |
| `DhcpServer.Server.ClientUpdate` | core/board_manager/esp8266/cores/esp8266/LwipDhcpServer.cpp:1181-1371 | table, address and renew flag move as the specification of the update says |
| `DhcpServer.Server.ClientLeave` | core/board_manager/esp8266/cores/esp8266/LwipDhcpServer.cpp:1132-1178 | the entry that matches client and address goes, or goes offline |
| `DhcpServer.Server.InitLease` | core/board_manager/esp8266/cores/esp8266/LwipDhcpServer.cpp:815-861 | the configured range if it is acceptable, else the default one |
| `DhcpServer.Server.ParseOptions` | core/board_manager/esp8266/cores/esp8266/LwipDhcpServer.cpp:576-676 | the verdict depends on the last type, the last requested address, the given address and the renew flag |
| `DhcpServer.Server.ParseMsg` | core/board_manager/esp8266/cores/esp8266/LwipDhcpServer.cpp:679-698 | update first, then the options, then a release |
| `DhcpServer.Server.HandleDhcp` | core/board_manager/esp8266/cores/esp8266/LwipDhcpServer.cpp:719-813 | state and reply move as the protocol's step says |
| `Schedule.Scheduler.GetFn` | core/board_manager/esp8266/cores/esp8266/Schedule.cpp:57-74 | no node exactly when none is unused and 32 exist or memory is short |
| `Schedule.Scheduler.ScheduleFunction` | core/board_manager/esp8266/cores/esp8266/Schedule.cpp:83-105 | accepted, at the end, exactly while fewer than 32 functions wait, unless memory is short and no node can be reused |
| `Schedule.Scheduler.RecycleFirst` | core/board_manager/esp8266/cores/esp8266/Schedule.cpp:180-192 | the first node moves to the free list; functions accepted are functions run and functions queued |
| `Schedule.Scheduler.RunFirst` | core/board_manager/esp8266/cores/esp8266/Schedule.cpp:174-192 | one function runs, in order, whatever is scheduled meanwhile |
| `Schedule.Scheduler.RunScheduledFunctions` | core/board_manager/esp8266/cores/esp8266/Schedule.cpp:168-199 | exactly once, first in first out: a pass runs what had been accepted before it, and no more exactly when the queue was not empty or nothing slipped in between the end mark and the loop |
| `Recurrent.GcdOfExact` | core/board_manager/esp8266/cores/esp8266/Schedule.cpp:147-149 | the divisors of the folded gcd are the common divisors of all periods |
| `Recurrent.MillisRoundsUp` | core/board_manager/esp8266/cores/esp8266/Schedule.cpp:150-153 | the grain in milliseconds is rounded up |
| `Recurrent.Recurrents.ScheduleRecurrent` | core/board_manager/esp8266/cores/esp8266/Schedule.cpp:107-139 | appended exactly when there is a function and memory, with its period in ticks from now on; the cached grain is dropped |
| `Recurrent.Recurrents.ComputeGrain` | core/board_manager/esp8266/cores/esp8266/Schedule.cpp:141-166 | the gcd of all periods in milliseconds, rounded up, cached or not |
| `Recurrent.Recurrents.Ditch` | core/board_manager/esp8266/cores/esp8266/Schedule.cpp:243-262 | the current node goes, first, last or between |
| `Recurrent.KeptExact` | core/board_manager/esp8266/cores/esp8266/Schedule.cpp:239-270 | a function goes exactly when it was due and answered false |
| `Recurrent.VisitDue` | core/board_manager/esp8266/cores/esp8266/Schedule.cpp:236-239 | a function is due when its alarm is up or its timer has reached the timeout |
| `Recurrent.Recurrents.RunScheduledRecurrentFunctions` | core/board_manager/esp8266/cores/esp8266/Schedule.cpp:201-282 | a pass visits each function of its start once and in order, asks its alarm and its timer, which counts on from the last period boundary; removes exactly those that were due and answered false, keeps what was added meanwhile behind the rest; inside a pass it does nothing |
| `I2sTx.Tx.NextItem` | core/board_manager/esp8266/cores/esp8266/core_esp8266_i2s.cpp:142-150 | the oldest buffer leaves the queue, the others move up |
| `I2sTx.Tx.Isr` | core/board_manager/esp8266/cores/esp8266/core_esp8266_i2s.cpp:167-183 | the queue always holds the most recently finished buffers, at most seven, in ring order; the finished buffer is muted |
| `I2sTx.Tx.PlayingIsNotQueued` | core/board_manager/esp8266/cores/esp8266/core_esp8266_i2s.cpp:167-183 | the buffer being played is never in the queue |
| `I2sTx.Tx.SharesExact` | core/board_manager/esp8266/cores/esp8266/core_esp8266_i2s.cpp:111-116 | writer and DMA are in one buffer exactly when queue length and drops say so; without a drop, exactly when i2s_is_empty reports it |
| `I2sTx.Tx.TakeBuffer` | core/board_manager/esp8266/cores/esp8266/core_esp8266_i2s.cpp:317-321 | the writer goes on in the buffer played next after its last, but for the dropped ones |
| `I2sTx.SampleHalves` | core/board_manager/esp8266/cores/esp8266/core_esp8266_i2s.cpp:383-397 | a stereo frame's first channel is the upper half of its sample, the second the lower; a mono frame is both |
| `I2sTx.Tx.WriteSample` | core/board_manager/esp8266/cores/esp8266/core_esp8266_i2s.cpp:301-327 | refused only when it must not wait and all buffers are full; samples are stored in the order of playing |
| `I2sTx.Tx.WriteBuffer` | core/board_manager/esp8266/cores/esp8266/core_esp8266_i2s.cpp:346-402 | every frame counted is stored once and in order, whatever interrupts come in between; fewer than asked only without waiting, with full buffers, and never fewer than there was space for |
| `Cbuf.Conserved` | core/board_manager/esp8266/cores/esp8266/cbuf.cpp:37-180 | over every run, resizes included: what was taken out followed by what is there is what was there followed by what was put in |
| `Cbuf.Buffer.Available` | core/board_manager/esp8266/cores/esp8266/cbuf.cpp:70-75 | the length of the queue |
| `Cbuf.Buffer.Room` | core/board_manager/esp8266/cores/esp8266/cbuf.cpp:81-86 | size - 1 less what is there |
| `Cbuf.Buffer.Peek` | core/board_manager/esp8266/cores/esp8266/cbuf.cpp:95-109 | the front of the queue, across the wrap |
| `Cbuf.Buffer.ReadByte` | core/board_manager/esp8266/cores/esp8266/cbuf.cpp:111-118 | the first byte, or -1 |
| `Cbuf.Buffer.Read` | core/board_manager/esp8266/cores/esp8266/cbuf.cpp:120-134 | the front of the queue leaves it |
| `Cbuf.Buffer.WriteByte` | core/board_manager/esp8266/cores/esp8266/cbuf.cpp:136-143 | the byte joins the queue unless it is full |
| `Cbuf.Buffer.Write` | core/board_manager/esp8266/cores/esp8266/cbuf.cpp:145-159 | as much as there is room for joins the queue |
| `Cbuf.Buffer.Remove` | core/board_manager/esp8266/cores/esp8266/cbuf.cpp:166-180 | bytes leave the front; the rest is counted |
| `Cbuf.Buffer.Resize` | core/board_manager/esp8266/cores/esp8266/cbuf.cpp:37-68 | the capacity changes, the queue does not; never below what is stored |
| `Cbuf.Buffer.ResizeAdd` | core/board_manager/esp8266/cores/esp8266/cbuf.cpp:33-35 | the same with a sum in 32 bits |
| `StreamSend.FinalReport` | core/board_manager/esp8266/cores/esp8266/StreamSend.cpp:128-145 | without errors: success always when there is no limit; with one, late when there is a timeout and the last poll was late, and else success exactly when as much as asked for was written |
| `StreamSend.SendGenericPeekBuffer` | core/board_manager/esp8266/cores/esp8266/StreamSend.cpp:57-146 | whatever fails, a prefix up to limit and delimiter was delivered and nothing is doubled; complete without timeouts for a sink that takes offers smaller than its room and can be waited for or always has room; one byte at most is taken without delivery, and it is not the delimiter exactly when the sink was short; which report it gives |
| `StreamSend.SendGenericRegularUntil` | core/board_manager/esp8266/cores/esp8266/StreamSend.cpp:148-226 | the same byte by byte; a refused byte is lost, and exactly then a write error is reported; which report it gives |
| `StreamSend.SendGenericRegular` | core/board_manager/esp8266/cores/esp8266/StreamSend.cpp:228-313 | the same in blocks; what a sink does not take of a block is lost, and exactly then a write error is reported; which report it gives |
| `StreamSend.SendGeneric` | core/board_manager/esp8266/cores/esp8266/StreamSend.cpp:25-55 | whichever algorithm is chosen, a source that cannot time out and a sink that takes what it is given, and has room or can be waited for, see the same complete transfer |
| `StreamSend.DelimitersAgreeExact` | core/board_manager/esp8266/cores/esp8266/StreamSend.cpp:98-106 | the algorithms look for the same delimiter exactly when it is a byte or absent |
| `StreamSend.CompleteIsUnique` | core/board_manager/esp8266/cores/esp8266/StreamSend.cpp:25-55 | a complete transfer is determined: same bytes, same rest, same delimiter; and delivered, delimiter and rest are the source |
| `StreamSend.PeekKeepsDataExact` | core/board_manager/esp8266/cores/esp8266/StreamSend.cpp:98-118 | with data and delimiter in view: the transfer delivers all data and takes the delimiter exactly when the sink takes all data ahead of it; otherwise one byte of data is thrown away, the delimiter stays, and the report is the same |
| `PolledTimeout.ScalesKnown` | core/board_manager/esp8266/cores/esp8266/PolledTimeout.h:108-128 | the multipliers and dividers of the four units at either processor frequency |
| `PolledTimeout.TimeMaxExact` | core/board_manager/esp8266/cores/esp8266/PolledTimeout.h:116-127 | the timeouts in range are exactly those whose product cannot overflow at any processor frequency |
| `PolledTimeout.ConversionExact` | core/board_manager/esp8266/cores/esp8266/PolledTimeout.h:128-131 | in range no conversion overflows, the rounding is downwards by less than a unit, and converting back is exact for whole ticks |
| `PolledTimeout.UserExact` | core/board_manager/esp8266/cores/esp8266/PolledTimeout.h:131-131 | converting ticks back rounds downwards by less than a user unit |
| `PolledTimeout.RunNoDrift` | core/board_manager/esp8266/cores/esp8266/PolledTimeout.h:245-258 | after any run of polls a periodic timer counts from the last boundary start0 + k * timeout before the last poll |
| `PolledTimeout.FiresExact` | core/board_manager/esp8266/cores/esp8266/PolledTimeout.h:245-258 | a poll fires exactly when a boundary has passed since the poll before it |
| `PolledTimeout.ElapsedExact` | core/board_manager/esp8266/cores/esp8266/PolledTimeout.h:235-240 | the wrapping timer measures the ideal time, and moves to the last period boundary, exactly when it is polled within 2^32 ticks of its start |
| `PolledTimeout.AlwaysExpiredExact` | core/board_manager/esp8266/cores/esp8266/PolledTimeout.h:185-190 | a timeout beyond the range, meant never to expire, is zero ticks exactly when its product wraps around to less than one tick; every unit but milliseconds has such timeouts |
| `PolledTimeout.Timer.Reset` | core/board_manager/esp8266/cores/esp8266/PolledTimeout.h:185-197 | the converted timeout from now on |
| `PolledTimeout.Timer.RestartExpired` | core/board_manager/esp8266/cores/esp8266/PolledTimeout.h:210-214 | exactly the timeout has elapsed already |
| `PolledTimeout.Timer.ExpiredOneShot` | core/board_manager/esp8266/cores/esp8266/PolledTimeout.h:261-265 | expired exactly when the timeout is 0, or it can expire and the elapsed time has reached it; in ideal time when polled within 2^32 ticks |
| `PolledTimeout.Timer.PollBeyondRange` | core/board_manager/esp8266/cores/esp8266/PolledTimeout.h:185-265 | a timer reset to a timeout beyond the range is expired, always, exactly when the timeout is one of those, and otherwise never |
| `PolledTimeout.Timer.ExpiredRetrigger` | core/board_manager/esp8266/cores/esp8266/PolledTimeout.h:245-258 | fires likewise, and counts on from the last boundary |
| `PolledTimeout.Timer.PollAll` | core/board_manager/esp8266/cores/esp8266/PolledTimeout.h:245-258 | over any run of polls, each within 2^32 ticks of the boundary before: fires exactly when a period boundary has passed since the last poll, and ends up counting from start0 + k * timeout, without drift |

## Left out

- `copy_raw` on gzip images: the uncompressing path (uzlib) is not part of this model; `Eboot.CopyGzip` says only that it may change the flash.
- `Updater::writeStream` and the callbacks, LED, yield and `printError` around a session; the asynchronous mode only changes the buffer size and is the parameter `heapLarge` together with the free heap.
- The `ATOMIC_FS_UPDATE` build of U_FS updates; the plain U_FS branch is modelled.
- `Updater.UpdaterClass.End`: MD5, the hash of a signature and the verdict on it are functions of the bytes given to them; `md5()` getters are left out.
- `FlashChip.Chip.EraseSector`: real erase and program times, wear, and reads during an operation; a failing operation leaves arbitrary bytes in its own range only, and a failing read its buffer as it was.
- 32-bit overflow of flash addresses: chips are smaller than 2^31 bytes here, so no address sum wraps except in `begin` and in the trailer address, which are modelled in 32 bits.
- `Eboot.RestartCompletes`: a reset while the boot loader rewrites its own sector is excluded, as nothing can run then.
- `load_app_from_flash_raw` and the restart after a failed start; `BootMain` gives the address that is started.
- `AesUnwrap.AesUnwrap`: AES is any permutation of blocks with its inverse; negative n and n so large that n * j + i leaves the range of int are not modelled.
- DHCP: sockets, packet buffers and the option bytes of replies; `set_dhcps_lease`, `add_dhcps_lease`, `dhcps_coarse_tmr` and `kill_oldest_dhcps_pool`; a list node and the pool entry it points to are one object.
- `DhcpServer.Server.ParseOptions`: memory behind the message is a parameter, since options of malformed messages are read on past its end.
- Calling `run_scheduled_functions` from a scheduled function, and adding a recurrent function in the middle of the grain's computation.
- `Recurrent.Recurrents.RunScheduledRecurrentFunctions`: what an alarm answers, and the time at which a timer is asked, are given with each round; what an alarm does besides answering is not modelled.
- I2S: receiving, clock dividers and registers; interrupts are taken between the writer's steps, ahead of each frame that is stored, and every finished buffer has its own interrupt.
- `cbuf` of size 0, for which the original's pointers leave the buffer.
- `StreamSend.SendGeneric`: a source whose `read` into a buffer returns 0 although bytes are available; the block transfer resets its timeout on it, and need not end.
- `PolledTimeout.Timer.ExpiredOneShot`: the yield policies, which run before each poll.
- Everything else of the core: networking, file systems, `String`, `Print`, pins and boards, build and upload scripts other than the CRC functions; these would add easy members or wrappers only.
