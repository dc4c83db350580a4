# Verification of BeRTOS cores

A Dafny model of the parts of this repository that keep state or do exact arithmetic, with proofs of
what they promise. Imperative sources are classes, arrays and loops proved against specification
functions; what the sources promise is proved about those functions.

| files | what they model |
|---|---|
| `Fat.dfy`, `Dli.dfy` | the two-slot configuration store of common/dli.c under power loss at any byte |
| `Dataflash.dfy` | the write-back page buffer of bertos/drv/dataflash.c over a chip that decodes the command bytes |
| `I2cBus.dfy`, `I2cMaster.dfy` | the bit-banging I2C master and its sessions, seen by a decoder on the wired line, and every run of its requests |
| `Fletcher32.dfy`, `Md2.dfy` | the streaming digests |
| `ShiftRegister.dfy`, `ByteTable.dfy` | division by a polynomial bit by bit, and byte by byte through a table, for registers of any width and direction |
| `Reflected.dfy`, `Crc16.dfy`, `CrcCcitt.dfy`, `Crc32.dfy` | the table-driven CRCs and the divisions they stand for |
| `Rle.dfy` | the run-length codec |
| `AdcRing.dfy` | the DMA ring between converter, interrupt handler and consumer |
| `Firmware.dfy` | the firmware packer, the boot check and the boot loop |
| `Hd44780.dfy`, `LcdText.dfy` | the text panel with its remembered address, and the layers drawn on it |
| `Iir.dfy`, `Ramp.dfy`, `Table.dfy` | fixed-point filter, acceleration ramp, table interpolation |
| `Basics.dfy` | options, words, sequences, quotients and 32-bit registers that several of the others use |

`dafny verify dfyconfig.toml` checks everything.

## Where a property needs a condition

The lemmas named show what goes wrong and say exactly when it does.

- A display write of NUL draws a space even over a lower layer, as a remark in the source admits (`LcdText.NulUncovers`, `LcdText.WriteIsRight`).
- `LAYER_HIDDEN` is -127 but priorities are `signed char`, so -128 lies below it: a refresh does not get there (`LcdText.BelowHiddenIsLost`, `LcdText.RefreshIsRight`), and a write there is stopped by what hidden layers hold (`LcdText.HiddenStopsWrite`, `LcdText.WriteIsRight`).
- A DMA ring of one slice never signals (`AdcRing.OneEventPerSlice`), and one of a single block starts with its second target past the end (`AdcRing.Ring.constructor`).
- The ramp header says that clock zero does not work; what fails is time zero, which covers small clocks too (`Ramp.ZeroExactlyAtZero`, `Ramp.Ramp.Evaluate`). Equal wavelengths lose the ratio (`Ramp.EqualWavelengthsWrap`), and a wavelength loses its upper bits exactly under a condition on the two wavelengths and the time (`Ramp.StoredExactly`, `Ramp.StoredValueIsCut`).
- `table_interpolate` multiplies differences in 32 bits; a table wraps exactly if two neighbours are too far apart (`Table.TableIsWhole`, `Table.WrappedLookup`).
- The largest firmware size is the whole flash although eight bytes of it are the header (`Firmware.LargestSizesOverrun`).
- A power cut at any byte of `dli_set` is harmless, and so is an I/O error that is followed by a restart. Without one, `dli_get` reads the half-written copy after an error in the file and the new value after a short entry, and the next set works on the only good copy (`Dli.FailedSetShows`, `Dli.SetAfterFailure`).
- `dli_reset` on a running device keeps the entry in RAM. The next set may then leave file 0 half-written, and its entry, cut, may pass for one of a file that does not exist (`Dli.SetAfterReset`, `Dli.AtomicAfterReset`, `Dli.SomeResetStops`, `Fat.TornOverErased`).
- The master drives START and STOP without reading the line back on a STOP, so a slave that holds the line keeps them off the bus (`I2cBus.BusAgrees`, `I2cMaster.HoldingIsHeld`).
- `i2c_error` clears the errors and not the transfer size: the next start then trips its assertion unless no byte was left, and a transfer instead of a start goes out on a closed frame (`I2cMaster.StartAfterError`, `I2cMaster.StartAfterRefusal`, `I2cMaster.RunIsFramed`).
- An I2C start that times out puts one void START and STOP on the bus (`I2cMaster.I2c.Start2`).

## Conventions

- Calls into code outside the model are parameters: the slave of the I2C bus is the sequence of bits it would pull, a timer is the number of the attempt at which it has run out, the network is the sequence of files it delivers, a fault is the write at which power fails.
- C integers are unbounded except where their width matters, and there it is written out.
- `int`, `long` and `size_t` have 32 bits, and plain `char` is signed, as `Layer.pri` has it.
- `INI` files are maps; copying one while setting a key leaves the target arbitrary if it is interrupted.
- In `dli_set` the current file is taken before the next one (common/dli.c:431 leaves the order to the compiler).

## Model

| member | source | states |
|---|---|---|
| `Crc32.TableHoldsRemainders` | boot/crc32.c:9-41 | every literal of the table is the remainder of its index under bit-by-bit division |
| `Crc32.Compute` | boot/crc32.c:43-52 | the loop computes the table-driven value; a length of zero or less reads nothing |
| `Crc32.ValueIsReference` | boot/crc32.c:43-52 | for every buffer the result from 0 is the CRC-32 of section 8 of RFC 1952, computed bit by bit |
| `Crc32.ValueIsDivision` | boot/crc32.c:43-52 | for every seed and buffer the value is the bit-by-bit division from the seed with all bits flipped, with all bits flipped again |
| `Crc32.KnownValue` | boot/crc32.c:43-52 | the value of the one letter a is 0xE8B7BE43 |
| `Crc32.ValueChains` | boot/crc32.c:43-52 | feeding a message in pieces, each call given the previous result, is feeding it whole, from every seed |
| `Reflected.StepIsEightDivisions` | boot/crc32.c:50 | for any polynomial whose table holds remainders, one table step is eight steps of bit-by-bit division |
| `ByteTable.StepsDivide` | bertos/algo/crc_ccitt.c:299-306 | for any register whose byte step is the division of the bits of its byte, a whole buffer is the bit-by-bit division of all its bits, from every register |
| `ByteTable.StepsAppend` | bertos/algo/crc_ccitt.c:299-306 | the register after two buffers is the register after their concatenation |
| `ByteTable.EntryFromNibbles` | bertos/algo/crc_ccitt.c:40-297 | in any lawful register an entry that is the sum of the remainders of its two nibbles is the remainder of its index |
| `ByteTable.StepsKeepDifference` | bertos/algo/crc.c:93-100 | a byte step that is injective in the register makes every buffer so |
| `CrcCcitt.Compute` | bertos/algo/crc_ccitt.c:299-306 | the loop over the buffer computes the table-driven value |
| `CrcCcitt.TableHoldsRemainders` | bertos/algo/crc_ccitt.c:40-297 | every literal of the table is the remainder of its index |
| `CrcCcitt.ValueIsDivision` | bertos/algo/crc_ccitt.h:56-59 | for every seed and buffer the value is the reflected bit-by-bit division of appendix C.2 of RFC 1662 |
| `CrcCcitt.ValueFits` | bertos/algo/crc_ccitt.c:299-306 | a 16-bit register stays 16 bits wide, so the 32-bit model loses nothing |
| `Crc16.TableHoldsRemainders` | bertos/algo/crc.c:59-91 | every literal of the table is the remainder of its index |
| `Crc16.Compute` | bertos/algo/crc.c:93-100 | the loop over the buffer computes the table-driven value |
| `Crc16.ValueIsDivision` | bertos/algo/crc.h:76 | for every seed and buffer the value is the bit-by-bit division, most significant bit first |
| `Crc16.ValueChains` | bertos/algo/crc.c:93-100 | feeding a buffer in pieces equals feeding it whole |
| `Crc16.ValueKeepsDifference` | bertos/algo/crc.c:93-100 | equal trailing bytes never make two different registers meet |
| `Crc16.BurstIsDetected` | bertos/algo/crc.c:93-100 | two equally long buffers that differ only inside two adjacent bytes have different CRCs, for every seed and length |
| `Fat.ReadPack` | common/dli.c:53-97 | what `fat_write` writes `fat_read` accepts and gives back |
| `Fat.PackLayout` | common/dli.c:31-41 | tag 0x0FA7, version 0, counter, file number and CRC-16 of the ten bytes before it, each with its low byte first |
| `Fat.TornCounterIsSeen` | common/dli.c:53-97 | a counter field that is part old and part new never passes the CRC of the old entry |
| `Fat.TornOverOlder` | common/dli.c:87-97 | a write of the entry one or two sets later over the present one, cut after any number of bytes, leaves the present entry, the later one or a rejected slot |
| `Fat.TornOverErased` | common/dli.c:87-97 | a write of any entry into an erased slot, cut anywhere, leaves a rejected slot or the whole entry, if and only if the checksum of what lies there is not 0xFFFF behind four to nine written bytes; what passes otherwise names no file |
| `Fat.FirstIsNotMisread` | common/dli.c:87-97 | the entries that can be the first in a slot never meet that checksum |
| `Fat.SomeCounterIsMisread` | common/dli.c:53-80 | counter 0x7832 does after eight bytes |
| `Dli.Store.constructor` | common/dli.c:329-368 | `dli_init` takes the entry that the search finds |
| `Dli.Store.Get` | common/dli.c:372-408 | `dli_get` of an ini key reads the current file, falls back to the given default, and in both cases gives as much as fits the buffer |
| `Dli.Store.WriteSlot` | common/dli.c:87-97 | byte by byte, a slot write that power loss stops after any number of bytes |
| `Dli.Store.FatUpdate` | common/dli.c:146-150 | the counter goes up and the entry goes to the slot of its own file number |
| `Dli.Store.CopyTo` | common/dli.c:131-144 | the other file takes the content and becomes the current one |
| `Dli.Store.Set` | common/dli.c:410-441 | `dli_set` with a fault at any write leaves exactly the medium, and on return the entry in RAM, that the fault prescribes |
| `Dli.FormatIsSound` | common/dli.c:53-97 | the CRC-guarded entries have every property the crash argument needs |
| `Dli.FindsLast` | common/dli.c:105-129 | under the invariant a reboot finds the entry that was current |
| `Dli.CommitKeepsInv` | common/dli.c:410-441 | a completed set keeps the invariant and changes exactly its key |
| `Dli.CutKeepsInv` | common/dli.c:410-441 | a set stopped before its entry is complete leaves the store and the invariant alone |
| `Dli.CrashIsAtomic` | common/dli.c:410-441 | losing power at any byte of a set, or an error there and a restart, leads exactly to the store before that set or after it, and to the invariant again |
| `Dli.RunIsAtomic` | common/dli.c:329-441 | from erased slots, over every run of completed sets, sets stopped by a power cut or by an error and a restart, and reboots, the store is explained by whole sets in order |
| `Dli.EveryRunLeads` | common/dli.c:329-441 | no sequence of sets, faults and reboots gets stuck, so the statement about runs covers all of them |
| `Dli.ReadableSlots` | common/dli.c:105-129 | a readable slot names the file of its own number, and of two readable counters one is the other's predecessor modulo 2^32 |
| `Dli.ResetStoreIsFresh` | common/dli.c:467-489 | a store that was erased starts from the default entry, and the invariant holds |
| `Dli.FailedSetShows` | common/dli.c:431-441 | after a set that reports failure `dli_get` reads the half-written copy if the file failed and the new value if the entry was written short; the invariant holds of the entry in RAM if and only if that entry got written whole, and a restart restores it always |
| `Dli.FailedSetCounts` | common/dli.c:137-150 | after it the entry in RAM names the other file and has counted up if and only if the file was written |
| `Dli.SetAfterFailure` | common/dli.c:410-441 | without a restart the next set, completed, makes permanent whatever `dli_get` read, the half-written copy included; stopped in its file, it has destroyed the only good copy if and only if the failed set's entry was not written whole; stopped anywhere in its entry, it is atomic for what `dli_get` read |
| `Dli.SetAfterReset` | common/dli.c:467-489 | `dli_reset` leaves the entry in RAM; exactly what a restart reads after the next set, for every fault: file 0 if no entry is found, and an assertion if one is misread |
| `Dli.AtomicAfterReset` | common/dli.c:410-441 | so that set is atomic if and only if a half-written file is not file 0 and no cut entry is misread |
| `Dli.SomeResetStops` | common/dli.c:131-135 | reset with counter 0x7831 and file 0 current, power lost after eight bytes of the next entry: the restart stops on the assertion |
| `Dli.InvAfterReset` | common/dli.c:410-489 | after that set, whatever stopped it, and a restart the invariant holds if and only if a whole entry is one whose successor is never misread over erased bytes, and a torn one is neither misread nor completed to anything readable by the first entries |
| `Dli.RunAfterReset` | common/dli.c:329-489 | and then every later run is explained by whole sets |
| `Dataflash.AddressIsDecoded` | bertos/drv/dataflash.c:117-155 | on all four devices the three address bytes decode to exactly the intended page and offset |
| `Dataflash.AddressIs` | bertos/drv/dataflash.c:117-155 | the three bytes, high byte first, are the page times 2^page_bits plus the offset |
| `Dataflash.SizesAre` | bertos/drv/dataflash.c:63-98 | the sizes of the four devices and of their pages in bytes |
| `Dataflash.DummiesAre` | bertos/drv/dataflash.c:227-245 | the first device takes four bytes before it answers a continuous read, the others one |
| `Dataflash.DataFlash.Init` | bertos/drv/dataflash.c:536-581 | accepts exactly the configured device, and then shows main memory as the file, position 0 |
| `Dataflash.DataFlash.LoadPage` | bertos/drv/dataflash.c:269-272 | the buffer becomes the page and nothing else changes |
| `Dataflash.DataFlash.CleanIsMemory` | bertos/drv/dataflash.c:368-380 | without unwritten data the file is what main memory holds |
| `Dataflash.DataFlash.FlushPage` | bertos/drv/dataflash.c:368-380 | the file does not change and main memory now holds all of it |
| `Dataflash.DataFlash.ReopenFile` | bertos/drv/dataflash.c:395-408 | everything is in main memory, the file is the same and its position is 0 |
| `Dataflash.DataFlash.SeekTo` | bertos/io/kfile.c:195-224 | the position moves as asked in 32 bits, in the file or not |
| `Dataflash.File.SeekLands` | bertos/io/kfile.c:195-224 | a seek to a place in the file gets there, and any seek is exact if and only if the sum fits 32 bits |
| `Dataflash.DataFlash.ReadBlock` | bertos/drv/dataflash.c:227-245 | with the dummy bytes of its device the continuous read gives the bytes of main memory, over page ends too |
| `Dataflash.DataFlash.ReadFile` | bertos/drv/dataflash.c:422-458 | reads the flat file at its position, up to its end, unwritten data included |
| `Dataflash.DataFlash.Select` | bertos/drv/dataflash.c:498-506 | changing the buffered page does not change the file |
| `Dataflash.DataFlash.WriteBlock` | bertos/drv/dataflash.c:254-264 | writing into the buffer writes into the file at the buffered page |
| `Dataflash.DataFlash.WriteFile` | bertos/drv/dataflash.c:471-523 | writes the flat file at its position, up to its end, over any number of pages |
| `Dataflash.DataFlash.Perform` | bertos/drv/dataflash.c:368-523 | each operation does to the driver what it does to the flat file, and flush, close and reopen leave it all in main memory |
| `Dataflash.Run` | bertos/drv/dataflash.c:368-523 | over every sequence of operations every read returns what the flat file returns, and the ends agree |
| `Dataflash.ReadTakes` | bertos/drv/dataflash.c:422-458 | in such a run a read returns the bytes at the position, as many as asked for or as there are, and moves the position behind them |
| `Dataflash.ReadsJoin` | bertos/drv/dataflash.c:422-458 | two reads return between them what one read of as many bytes returns, and end where it ends |
| `Dataflash.WriteStores` | bertos/drv/dataflash.c:471-523 | a write stores what there is room for at the position, changes no other byte, and moves the position behind it |
| `Dataflash.WriteReadsBack` | bertos/drv/dataflash.c:422-523 | writing, seeking back over it and reading returns what was written |
| `Dataflash.SeeksLand` | bertos/io/kfile.c:195-224 | a seek leads to the offset from the start, from the position or from the end, where 32 bits hold it |
| `Dataflash.NothingIsLost` | bertos/drv/dataflash.c:368-408 | flush and close leave bytes and position alone, and reopen goes to position 0 |
| `Dataflash.Restart` | bertos/drv/dataflash.c:385-581 | what is there at close is what the next start-up finds, whatever the buffer held |
| `Fletcher32.BatchFits` | bertos/algo/fletcher32.c:69-83 | inside a batch the sums are at most 23658495 and 4282317570, below 2^32 |
| `Fletcher32.StepFits` | bertos/algo/fletcher32.c:76-77 | no addition of a batch wraps in 32 bits |
| `Fletcher32.FoldShrinks` | bertos/algo/fletcher32.c:81-82 | at every batch boundary the sums are back at 65895 and 131070 at most |
| `Fletcher32.FoldKeeps` | bertos/algo/fletcher32.c:81-82 | a fold keeps the residue modulo 65535 and never gives zero |
| `Fletcher32.LastFold` | bertos/algo/fletcher32.c:100-104 | the last fold lands on the representative in 1..65535 |
| `Fletcher32.Next` | bertos/algo/fletcher32.c:78-79 | the read-ahead gives the next word, or an unspecified one where it reaches past the buffer |
| `Fletcher32.Digest.constructor` | bertos/algo/fletcher32.c:41-46 | a fresh context stands for the empty message |
| `Fletcher32.Digest.Step` | bertos/algo/fletcher32.c:76-79 | one turn of the inner loop takes one more word of the message into both sums |
| `Fletcher32.Digest.Batch` | bertos/algo/fletcher32.c:72-82 | one turn of the outer loop takes up to 360 words and folds |
| `Fletcher32.Digest.Update` | bertos/algo/fletcher32.c:48-84 | the chunk is appended to the message the context stands for, odd bytes carried over |
| `Fletcher32.Digest.Final` | bertos/algo/fletcher32.c:86-105 | the sum of the zero-padded little-endian words modulo 65535 in the low half and the sum of the word at i weighted w - i in the high half, both in 1..65535 |
| `Fletcher32.Stream` | bertos/algo/fletcher32.c:41-105 | for every message and every split into non-empty chunks the result is that checksum of the whole message |
| `Fletcher32.ChecksumIsFletcher32` | bertos/algo/fletcher32.c:86-105 | the recursive sums are those two sums, in those two halves |
| `Fletcher32.KnownChecksum` | bertos/algo/fletcher32.c:41-105 | the checksum of the letters a to e is 0xF04FC729 |
| `Md2.Pad` | bertos/algo/md2.c:117-129 | the padding is `n` bytes of value `n` |
| `Md2.SweepInPlace` | bertos/algo/md2.c:161-165 | one pass over the compute array is one sweep of section 3.4 of RFC 1319 |
| `Md2.RoundsInPlace` | bertos/algo/md2.c:159-168 | the 18 rounds, each given the byte the one before left, on the array in place |
| `Md2.SumInPlace` | bertos/algo/md2.c:172-178 | the checksum loop is one block of section 3.2 of RFC 1319 in its XOR form |
| `Md2.Compute` | bertos/algo/md2.c:131-185 | state and checksum after one block |
| `Md2.StateFollowsBuffer` | bertos/algo/md2.c:147-183 | keeping 16 bytes of state instead of the 48-byte buffer between blocks loses nothing |
| `Md2.CarryIsLastByte` | bertos/algo/md2.c:172 | the byte carried between blocks is always the last byte of the checksum |
| `Md2.SumFollowsBlocks` | bertos/algo/md2.c:172-178 | the interleaved checksum is the checksum of a separate first pass |
| `Md2.Context.constructor` | bertos/algo/md2.c:192-196 | a fresh context has been fed nothing |
| `Md2.Context.Update` | bertos/algo/md2.c:201-238 | appends its input to what was fed, also when the input is the context's own checksum |
| `Md2.Context.End` | bertos/algo/md2.c:247-268 | returns the digest of sections 3.1 to 3.5 of RFC 1319 for everything fed |
| `Md2.Stream` | bertos/algo/md2.c:192-268 | for every message and every split into updates the digest is the one of the two-pass definition, and so the one of RFC 1319 byte by byte |
| `Md2.DigestIs` | bertos/algo/md2.c:117-268 | that definition byte by byte: padding of n bytes n, checksum bytes C[k] ^ S[m[k] ^ C'[k-1]], and 18 rounds X'[k] = X[k] ^ S[X'[k-1]] over state, block and their exclusive or, round j adding j to the carried byte |
| `Md2.XorIs` | bertos/algo/md2.c:163 | the operation in all of these is exclusive or |
| `Rle.SameEndIsMaximal` | bertos/algo/rle.c:60-62 | a replicate run is as long as equal bytes go, up to 127 |
| `Rle.CopyEnd` | bertos/algo/rle.c:64-86 | a literal run is never empty despite backing up, has at most 127 bytes, and stops at a triple, at 127 or at the end |
| `Rle.CopyEndIsFirst` | bertos/algo/rle.c:75-83 | a literal run stops at the first triple it meets |
| `Rle.RoundTrip` | bertos/algo/rle.c:47-146 | decoding the encoding of any message, whatever follows it, gives the message and consumes exactly the encoding |
| `Rle.FormatIs` | bertos/algo/rle.c:116-146 | byte by byte what a decoder reads: 0 ends, 1 to 127 repeat the next byte, 256 - n copies n bytes |
| `Rle.PairIsReplicated` | bertos/algo/rle.c:60-62 | two equal bytes are encoded as a replicate run as long as they go, up to 127 |
| `Rle.OthersAreCopied` | bertos/algo/rle.c:64-100 | any other byte starts a literal run of what stands there |
| `Rle.EncodeGoesOn` | bertos/algo/rle.c:55-106 | an encoding is its first run and the encoding of what that leaves, with a 0 at the end |
| `Rle.EncodeFits` | bertos/algo/rle.c:55-106 | `n` bytes encode to at most n + ceil(n/127) + 1 bytes |
| `Rle.TripleRepeats` | bertos/algo/rle.c:78-83 | a literal run that stops at a triple is followed by a replicate run of at least three |
| `Rle.Compress` | bertos/algo/rle.c:47-107 | writes exactly the encoding and returns its length, within the bound |
| `Rle.Expand` | bertos/algo/rle.c:116-146 | writes exactly what the stream decodes to and returns its length |
| `I2cBus.NineBitsAreAByte` | bertos/drv/i2c_bitbang.c:320-338 | a decoder after sections 3.1.3 to 3.1.6 of UM10204 sees nine clocked bits as one byte and its acknowledge bit |
| `I2cBus.MarksAreRead` | bertos/drv/i2c_bitbang.c:180-226 | under a high clock the decoder takes a falling data line for a START, a rising one for a STOP and a steady one for neither |
| `I2cBus.BusAgrees` | bertos/drv/i2c_bitbang.c:180-226 | a decoder on the wired line, the AND of master and slave, sees exactly the START, STOP and byte events the master meant if and only if the slave has released the line at each START and STOP |
| `I2cBus.HeldStopIsLost` | bertos/drv/i2c_bitbang.c:180-196 | a slave that holds the line through a STOP: the master means one and the bus shows none |
| `I2cMaster.I2c.ClearIsShown` | bertos/drv/i2c_bitbang.c:180-387 | at any time the bus has shown exactly what the master meant if and only if the kept flag `clear` says so |
| `I2cMaster.I2c.constructor` | bertos/drv/i2c_bitbang.c:401-423 | both lines are released, nothing has been seen on the bus, and the state is the initial one of the runs |
| `I2cMaster.I2c.Stop1` | bertos/drv/i2c_bitbang.c:180-196 | the master means a STOP, preceded by a void START if the bus was idle, and the bus shows it if and only if the slave has released the line in that pulse |
| `I2cMaster.I2c.Start1` | bertos/drv/i2c_bitbang.c:198-226 | the master means a START and reports whether the line could be pulled low; the bus shows it if and only if the slave has released the line in that pulse |
| `I2cMaster.I2c.PutcStop` | bertos/drv/i2c_bitbang.c:295-346 | exactly the byte and the slave's answer, and a STOP after a refusal or a request, shown if and only if the slave has released the line in its pulse |
| `I2cMaster.I2c.Putc` | bertos/drv/i2c_bitbang.c:348-352 | the same with a STOP exactly after the last byte if asked for, or after an error |
| `I2cMaster.I2c.Getc` | bertos/drv/i2c_bitbang.c:228-293 | returns the slave's byte, acknowledged exactly if more are wanted, and a STOP exactly after the last one if asked for, shown under the same condition |
| `I2cMaster.I2c.Start2` | bertos/drv/i2c_bitbang.c:354-387 | the address is repeated with STOP and START until it is answered, time runs out or the line is lost; error bits, events and whether the bus shows them are those of the specified opening |
| `I2cMaster.AddressNumber` | bertos/drv/i2c_bitbang.c:354-359 | the byte behind a START stands for the even part of the low byte of the address, plus one exactly for a read |
| `I2cMaster.StartShowsAddress` | bertos/drv/i2c_bitbang.c:354-387 | every start shows a START and, unless the slave pulls, a byte of that number |
| `I2cMaster.StartErrors` | bertos/drv/i2c_bitbang.c:354-387 | arbitration is lost if and only if the line is lost before an answer in time, and the start times out, with no acknowledge, if and only if nothing answers in time |
| `I2cMaster.I2c.Begin` | bertos/drv/i2c.h:292-338 | opens a session of the given size and direction from any state the assertion admits; lines, error bits and events are those of the specified opening |
| `I2cMaster.I2c.SessionPutc` | bertos/drv/i2c.h:370-385 | one byte of a write session, or nothing after an error |
| `I2cMaster.I2c.SessionGetc` | bertos/drv/i2c.h:345-363 | one byte of a read session, 0xFF after an error |
| `I2cMaster.I2c.Error` | bertos/drv/i2c.h:434-441 | returns the three error bits and clears them; the session is otherwise unchanged |
| `I2cMaster.I2c.Write` | bertos/drv/i2c.c:98-104 | all bytes go out in order until one is refused |
| `I2cMaster.I2c.Read` | bertos/drv/i2c.c:106-112 | the bytes read are the slave's, in order |
| `I2cMaster.I2c.Send` | bertos/drv/i2c_bitbang.c:295-387 | an accepted write session shows on the bus as START, the address byte with its even number, exactly the bytes, and STOP exactly if asked for, if and only if the slave does not hold the line at the START and at the STOP |
| `I2cMaster.I2c.Fetch` | bertos/drv/i2c_bitbang.c:228-387 | a read session returns the slave's bytes, and the bus shows its whole frame, the address byte with its odd number and those bytes, all but the last acknowledged, under the same exact condition |
| `I2cMaster.HoldingIsHeld` | bertos/drv/i2c_bitbang.c:180-226 | a slave that accepts every byte and holds the line at START and STOP is one whose frame the bus does not show |
| `I2cMaster.AcceptedByte` | bertos/drv/i2c_bitbang.c:320-338 | a decoder recovers exactly the byte sent to a slave that accepts it |
| `I2cMaster.AcceptedWrite` | bertos/drv/i2c.h:370-407 | an accepted write is exactly its bytes and leaves the session open unless it is complete and a STOP was asked for, which the bus shows if and only if the slave releases the line |
| `I2cMaster.RefusedWrite` | bertos/drv/i2c.h:370-407 | a write refused at byte m ends there with a STOP, shown if and only if the slave releases the line; later bytes never reach the lines, and the transfer size counts only the bytes that went out |
| `I2cMaster.ReadEvents` | bertos/drv/i2c.h:345-363 | the events of a read of any length, its STOP shown if and only if the slave releases the line |
| `I2cMaster.ReadAcknowledges` | bertos/drv/i2c_bitbang.c:276-292 | every byte but the last is acknowledged and all are the slave's own |
| `I2cMaster.StartFrame` | bertos/drv/i2c_bitbang.c:354-387 | however a start ends, what the master meant is an open frame after an answer and a closed one after a failure |
| `I2cMaster.PutAllKeepsFrame` | bertos/drv/i2c.h:370-407 | a write keeps what the master means a sequence of well-bracketed frames, except on a stale session, where it always breaks it |
| `I2cMaster.GetAllKeepsFrame` | bertos/drv/i2c.h:345-429 | so does a read |
| `I2cMaster.RequestFrames` | bertos/drv/i2c.h:292-441 | every start, putc, getc, write, read or error keeps the frames, except a transfer on a session whose error was cleared while bytes were left, which always breaks them |
| `I2cMaster.RunIsFramed` | bertos/drv/i2c.h:292-441 | over every permitted sequence of requests the frames are well-bracketed if and only if none transfers on such a stale session |
| `I2cMaster.Run` | bertos/drv/i2c.h:292-441 | any sequence of requests with any slave, deadlines and lost attempts runs up to the first assertion of the source; events, bytes read, error bits returned and kept are the specified ones, the bus shows them if and only if `clear`, and the frames are kept if and only if no stale session is used |
| `I2cMaster.WriteIsPuts` | bertos/drv/i2c.c:98-104 | a write of several bytes leads to the same state as as many single ones, all permitted |
| `I2cMaster.ReadIsGets` | bertos/drv/i2c.c:106-112 | so does a read |
| `I2cMaster.ReadReturnsGets` | bertos/drv/i2c.c:106-112 | and byte i of it is what the i-th single one returns |
| `I2cMaster.StartAfterError` | bertos/drv/i2c.h:297-298 | after `i2c_error` a start passes the assertion if and only if no byte is left |
| `I2cMaster.StartAfterRefusal` | bertos/drv/i2c.h:297-298 | after a refused write and `i2c_error` it passes if and only if the refused byte was the last of the session |
| `I2cMaster.StartAfterFailedStart` | bertos/drv/i2c.h:297-298 | after a failed start and `i2c_error` it passes if and only if that start asked for no bytes |
| `I2cMaster.StaleAfterRefusal` | bertos/drv/i2c.h:434-441 | after a refused write and `i2c_error` the session is stale if and only if bytes are left |
| `I2cMaster.StaleSessionBreaks` | bertos/drv/i2c.h:370-441 | on a bus without slaves a start of one byte, `i2c_error` and a putc are permitted and put a byte behind the STOP |
| `AdcRing.IsrAt` | bertos/drv/ads79xx.c:153-199 | from any place in a ring of two or more slices one interrupt moves one block on and signals exactly at the end of a slice |
| `AdcRing.TailIsRound` | bertos/drv/ads79xx.c:168 | after n interrupts the tail is n blocks round the ring |
| `AdcRing.EventsAre` | bertos/drv/ads79xx.c:184-190 | after n interrupts one event has fired for each complete slice |
| `AdcRing.OneSliceIsSilent` | bertos/drv/ads79xx.c:184-190 | with a single slice no event ever fires, because the tail wraps before it is compared |
| `AdcRing.OneEventPerSlice` | bertos/drv/ads79xx.c:184-190 | one event per slice for every number of interrupts if and only if there are two slices or more |
| `AdcRing.SliceHolds` | bertos/drv/ads79xx.c:223-231 | a finished slice stays in the buffer, byte for byte, until its slot is filled again |
| `AdcRing.Ring.constructor` | bertos/drv/ads79xx.c:277-308 | the first block is the DMA target and the second one is next; that is inside the buffer if and only if there is more than one block |
| `AdcRing.Ring.Interrupt` | bertos/drv/ads79xx.c:153-199 | moves the pointers as specified and programs the idle target one block ahead |
| `AdcRing.Ring.Transfer` | bertos/drv/ads79xx.c:153-199 | after every block the DMA fills the block at the tail, and the hook is given exactly the block just filled |
| `AdcRing.Ring.Wait` | bertos/drv/ads79xx.c:206-245 | returns the next slice in order, complete, and apart from the block being filled |
| `AdcRing.Pump` | bertos/drv/ads79xx.c:153-245 | however late the consumer wakes before the next event, it gets every complete slice once and in order, and none at all in a ring of one slice |
| `Firmware.Pack` | create-firmware-header.py:13-29 | the file is the length, the CRC of tag and image, and the image, whatever the split into lines |
| `Firmware.PackedMeans` | create-firmware-header.py:13-29 | in bytes: the length in the first four, low byte first, the CRC-32 of tag and image in the next four, and from byte 8 on the image |
| `Firmware.Scan` | boot/main.c:276-287 | the three CRCs over tag and image, read in chunks of any size, or a short read exactly when flash ends first |
| `Firmware.Check` | boot/main.c:249-296 | accepts exactly the in-bounds images whose stored CRC is that of one of three tags and the image, and stops on an assertion exactly when the image would run past flash |
| `Firmware.GenuineMeans` | boot/main.c:249-296 | in bytes: what that acceptance means for the length, the CRC and the image |
| `Firmware.LargestSizesOverrun` | boot/hw/hw_boot.h:8 | the eight largest sizes that the bound allows are exactly those that do not fit behind the header |
| `Firmware.GenuineIsPacked` | boot/main.c:249-296 | what is accepted is exactly what starts with something packed for one of the three tags |
| `Firmware.Boot` | boot/main.c:331-359 | the application is started exactly from the first examined flash that is genuine, over every sequence of received files |
| `Firmware.GoodImageStarts` | boot/main.c:331-359 | a good image received well is started unless an earlier one was or the boot stopped |
| `Firmware.StartedIsGood` | boot/main.c:331-359 | nothing is started but a genuine flash that was the first one looked at or was received well |
| `Hd44780.CellsDiffer` | bertos/drv/lcd_hd44.c:171-187 | no two display positions share a cell of the controller |
| `Hd44780.CellIs` | bertos/drv/lcd_hd44.c:171-187 | the rows of a panel begin at 0x00, 0x40, 0x14 and 0x54 of display memory and go on cell by cell |
| `Hd44780.NextInRow` | bertos/drv/lcd_hd44.c:394-410 | inside a row the controller's next cell is the driver's next position |
| `Hd44780.Panel.constructor` | bertos/drv/lcd_hd44.c:455-481 | the panel is blank and the remembered address is the controller's |
| `Hd44780.Panel.MoveTo` | bertos/drv/lcd_hd44.c:367-375 | the controller is at the position asked for, also when nothing was sent |
| `Hd44780.Panel.Putc` | bertos/drv/lcd_hd44.c:394-410 | exactly one position of the screen changes, and the remembered address still is the controller's |
| `Hd44780.Panel.RemapChar` | bertos/drv/lcd_hd44.c:418-434 | the glyph is loaded, the screen is unchanged and the address is restored |
| `LcdText.RefreshShows` | bertos/drv/lcd_text.c:330-355 | for ordered layers none below hidden, a refresh draws the topmost character of the visible layers |
| `LcdText.RefreshIsRight` | bertos/drv/lcd_text.c:330-355 | in general it does so exactly where what lies under the first hidden layer would not be seen |
| `LcdText.BelowHiddenIsLost` | bertos/drv/lcd_text.h:60 | a layer of priority -128 under a hidden one should be seen and is not drawn |
| `LcdText.WriteIsRight` | bertos/drv/lcd_text.c:120-155 | on every list of layers, ordered or not and whatever their priorities, drawing the written character alone is right if and only if the write covers: what hides it is visible, or nothing stops it and it is a character or has a space beneath, or what stops it belongs to hidden layers and nothing visible changes |
| `LcdText.FlooredCovers` | bertos/drv/lcd_text.c:120-155 | between ordered layers none below hidden that leaves only a NUL that uncovers something other than a space |
| `LcdText.NulUncovers` | bertos/drv/lcd_text.c:149-154 | a NUL over a lower character leaves a space where that character should appear |
| `LcdText.HiddenStopsWrite` | bertos/drv/lcd_text.c:139-146 | a character of a hidden layer stops the drawing of one written to a layer of priority -128, which should be seen |
| `LcdText.Display.constructor` | bertos/drv/lcd_text.c:429-447 | the default layer of priority 0 is in use, blank, over a blank panel, and all others are free |
| `LcdText.Display.Enqueue` | bertos/drv/lcd_text.c:281-300 | the layer leaves its list and goes before the first layer of no greater priority; the order is kept |
| `LcdText.Display.NewLayer` | bertos/drv/lcd_text.c:302-323 | the first free layer, blank and linked at its priority, or none if the pool is used up; the panel stays right without drawing |
| `LcdText.Display.Refresh` | bertos/drv/lcd_text.c:330-355 | every position is drawn, and the panel is right if and only if nothing under the first hidden layer would be seen, as is so if no layer is below hidden |
| `LcdText.Display.SetLayerDepth` | bertos/drv/lcd_text.c:362-372 | a layer in use or free is linked at its new place and the panel redrawn, right under the same exact condition |
| `LcdText.Display.DeleteLayer` | bertos/drv/lcd_text.c:374-421 | the layer leaves whatever list it is in for the head of the free list and the panel is redrawn, right under the same exact condition |
| `LcdText.Display.SetAddr` | bertos/drv/lcd_text.c:89-96 | the position wraps round the display |
| `LcdText.Display.PutChar` | bertos/drv/lcd_text.c:120-155 | the layer's buffer and position change and at most one position is drawn; the panel stays right if and only if the write covers, for a layer in use, and if and only if it draws nothing new, for a free one |
| `LcdText.Run` | bertos/drv/lcd_text.c:89-421 | over every sequence of operations on any layers the pool, both lists and the panel are the specified ones; with priorities from hidden up and non-NUL writes to layers in use the panel always shows the composition of the layers |
| `LcdText.TypingFills` | bertos/drv/lcd_text.c:120-155 | a string written character by character fills its layer cell after cell, going round at the end, and the panel wherever nothing is above; the position is behind it and nothing else changes |
| `LcdText.OnwardIs` | bertos/drv/lcd_text.c:129-131 | the cell m places on from a is (a + m) modulo the size of the display |
| `LcdText.StringIsWritten` | bertos/drv/lcd_text.c:120-155 | so character i of the string is i cells on in the layer, and on the panel if nothing is above |
| `Iir.StepKeepsRange` | common/adc_mgr.c:168-172 | the product and the sum fit int32 and the state stays in 0..4095*512 |
| `Iir.RunKeepsRange` | common/adc_mgr.c:124-172 | over every run of 12-bit samples the state stays in range and the reading in 0..4095 |
| `Iir.RunRecurs` | common/adc_mgr.c:168-172 | over every run an output is twice the last two samples plus 254/256 of the output before, and the reading its 512th part |
| `Iir.FixedIsFixed` | bertos/cfg/macros.h:234 | under a steady sample s the outputs left alone are exactly 512s-127..512s |
| `Iir.NextComesNearer` | common/adc_mgr.c:168-172 | any other output comes strictly nearer to the same limit |
| `Iir.Settles` | common/adc_mgr.c:124-172 | from any state a steady sample settles in as many steps as the distance to the limit, and then reads s or s-1 |
| `Iir.SettledReading` | common/adc_mgr.c:133 | it reads exactly s if and only if the output came from 512s or above |
| `Iir.Isr` | common/adc_mgr.c:152-176 | every channel takes its own sample, without any register wrapping |
| `Ramp.Ramp.constructor` | bertos/algo/ramp.c:109-136 | the precomputed ratio and reciprocal, under the assertions of the source |
| `Ramp.Ramp.Evaluate` | bertos/algo/ramp.c:187-194 | up to the end of the ramp: nothing if and only if clock times reciprocal is below 65536, where the source divides by zero; otherwise the wavelength between its bounds, stored whole if and only if the condition of `Ramp.StoredExactly` holds |
| `Ramp.TimeFits` | bertos/algo/ramp.h:81 | up to the end of the ramp the time fits 16 bits |
| `Ramp.RatioFits` | bertos/algo/ramp.c:124 | with different wavelengths the ratio keeps its bits |
| `Ramp.EqualWavelengthsWrap` | bertos/algo/ramp.c:111-124 | equal wavelengths, which the assertion admits, turn the ratio into zero |
| `Ramp.DenominatorIs` | bertos/algo/ramp.c:182-190 | from time 1 on nothing is truncated and the denominator lies between the ratio and 65535 |
| `Ramp.ZeroExactlyAtZero` | bertos/algo/ramp.c:189-191 | the division is by zero if and only if the time is zero |
| `Ramp.NonzeroClockDividesByZero` | bertos/algo/ramp.h:144 | clock 1023 of the longest ramp is at time zero too |
| `Ramp.RampIsBounded` | bertos/algo/ramp.c:187-194 | the wavelength lies between clocksMinWL and clocksMaxWL + (clocksMaxWL-1)/max_div_min, and is stored whole if and only if the denominator exceeds clocksMinWL |
| `Ramp.WavelengthIs` | bertos/algo/ramp.c:187-194 | the wavelength in closed form from the two wavelengths, the ramp and the clock |
| `Ramp.RampSpeedsUp` | bertos/algo/ramp.c:187-194 | the wavelength never grows with time |
| `Ramp.StoredExactly` | bertos/algo/ramp.c:191 | the wavelength fits the 16 bits it is stored in if and only if (min + 1) * max <= min * 65536 or min * t <= (t - 1) * 65536 |
| `Ramp.ValueIsOnRamp` | bertos/algo/ramp.c:187-194 | the same for every ramp, clock and time as a statement about the value alone |
| `Ramp.StoredValueIsCut` | bertos/algo/ramp.c:191 | a ramp whose first wavelength is stored as zero |
| `Table.Upper` | bertos/algo/table.c:42-59 | the index the search is for: everything before it has no greater x, everything from it on a greater one |
| `Table.UpperBound` | bertos/algo/table.c:42-59 | the binary search finds the first index with a greater x |
| `Table.Interpolate` | bertos/algo/table.c:78-90 | the value for that index in 32-bit registers, with a divisor that is never zero |
| `Table.TableIsWhole` | bertos/algo/table.c:78-90 | no register wraps for any query inside the table if and only if the differences of neighbouring points fit `int` and (dx - 1) * dy fits `long` for each pair |
| `Table.RoomyIsExact` | bertos/algo/table.c:78-90 | under that condition the registers hold the exact interpolation |
| `Table.ResultIsLinear` | bertos/algo/table.c:78-90 | between two points the result is on the line through them, less than one step short of it, and outside the table it is the nearest value |
| `Table.WrappedLookup` | bertos/algo/table.c:84-87 | a table of two points whose product wraps: the result is -1, outside both values |
| `Table.ResultIsBetween` | bertos/algo/table.c:78-90 | the result lies between the neighbouring values for every table on which no register wraps |
| `Table.PointsAreHit` | bertos/algo/table.c:78-90 | a query at a table point gives its value, of several points at one x the last, on every table |
| `Table.ResultIsMonotone` | bertos/algo/table.c:78-90 | over the whole range the result rises or falls when the values do, despite truncation, for every table on which no register wraps |

## Left out

- Fletcher32.Digest.Update: needs a non-empty chunk, because the source reads the last byte of the chunk first (bertos/algo/fletcher32.c:52).
- Md2: the byte permutation is a parameter; neither the table nor the generated one is part of this model.
- Rle.Expand: needs a well-formed stream and room for its result, as the source does.
- Dataflash.DataFlash.ReadFile: the assertion on the size is not a precondition; without it the source clamps, and so does the model.
- Dataflash: busy polls, the reset pulse, the chip-select line and the disabled disk interface are not part of this model.
- I2cMaster.I2c.Read: the bytes read are returned as a sequence, not stored in a caller's buffer.
- I2cMaster: the old interface and its branches, delays, clock stretching and other masters are not part of this model.
- Dli.Store.Set: the keys `serial_no` and `ip_addr` are written in place in the boot area and are not part of this model.
- Dli.InvAfterReset: a first set behind a reset that fails is followed by a restart; going on without one is not modelled.
- Dli.Store.Get: needs a buffer of one character or more, because the source stores the terminator before the buffer otherwise; reads of the boot area are not part of this model.
- Dli: read errors, the shell commands and `dli_updateStat` are not part of this model.
- AdcRing.Ring.Wait: asserts that one event is pending, as the source does; a consumer that misses an event is not modelled further.
- AdcRing.Pump: needs more than one block, because with a single one the source has the DMA write past the buffer.
- AdcRing: the TCP variant and register set-up are not part of this model.
- Firmware.Boot: how `receiveFirmware` fills flash is a parameter; the TFTP transfer is not part of this model.
- LcdText: the lists are sequences of indexes into the pool, not linked nodes; the semaphore, cursor commands and formatted output are not part of this model.
- LcdText.Display.PutChar: needs a layer that is in one of the two lists, as every layer of the pool always is.
- Hd44780.Panel.Putc: the expanded address table, a constant form of the same function, and the bus cycles are not part of this model.
- Iir.Isr: samples are 12 bits, as the converter gives them.
- Ramp: the floating-point variant and the conversion from frequencies are not part of this model.
- The kernel, lwIP, kfile and kblock internals, graphic displays, `flash25`, `eeprom`, `tea`, `randpool`, motors and PID control: easier members, or code whose contract is not stated.
