# MediaTek vendor libraries: verified models

Dafny models of five pieces of the vendor sources, each written in the form the C code has (classes
and arrays where the code updates memory, functions where it computes), with proofs of what the
pieces are for.

* **FFT** (`ComplexField`, `Dft`, `BitReversal`, `DifFft`). `DIF_FFT` in exact complex arithmetic: three
  nested in-place butterfly loops with an incrementally updated twiddle, then the in-place bit-reverse
  loop. For every size 2^Nu and every input the array ends up holding the discrete Fourier transform
  by its defining sum. The twiddle step of a stage is a parameter `step(LE1)`, standing for
  (cos(PI/LE1), -sin(PI/LE1)); the only facts used are its value -1 at LE1 = 1 and the double-angle
  identity step(2L)^2 = step(L).
* **CCB page rings** (`CircularIndex`, `PageFifo`, `CcbUplink`, `DownlinkQueue`, `CcbDownlink`). The
  shared-memory rings between application processor and modem. The class methods are the processor's
  calls; the modem makes any number of steps between two of their accesses to shared memory,
  wherever that can change what the next access sees. Every method keeps the ring in step with an
  unbounded queue, and the runs of that queue deliver each page once, in order of reservation, with
  the content of its completion.
* **File system messages** (`FsMessage`, `FsSlots`, `FsPacking`, `FsReassembly`, `FsDelivery`, `FsDaemon`,
  `GlobMatch`). Packing and parsing of arguments, fragmentation by header overlays that are undone,
  reassembly of interleaved packets in five slots cut from one block of memory, with the reply to a
  refused packet composed in the slot that the packet names, the path from packed arguments through
  all of it back to the same arguments, and the recursive file name matcher.
* **NVRAM** (`NvramCheckSum`, `NvramCheckNo`, `NvramJournal`, `NvramRestore`). The chunked checksum
  against the word-at-a-time one it replaced, the check trailer of a file, the circular history log,
  and the bad-block-skipping restore.
* **OTP storage** (`StorageOtp`). Byte access by read-modify-write of blocks, and the users' regions.

`Arithmetic`, `Bytes`, `Runs` and `Wrappers` hold division facts, little-endian words and memory
overwrites, runs of a transition relation, and an option type.
`dafny verify dfyconfig.toml` checks everything.

Some promises have an exact condition in the code, which is proved both ways:

* A one-byte change to a checked file is detected if and only if the byte lies in the trailer or in the
  part that the 32-bit loop counter covers; below 4 GiB that is the whole file.
* OTP block numbers denote the blocks that cover the access if and only if they are below 2^32.
* An OTP write that the region check accepts, in a region of whole blocks not at the start of the device,
  touches only the current user's bytes if and only if, on a device with byte access of its own,
  offset + size is at most the region's size (or size is 0), and, on any other device, the 32-bit sum
  of block number and count does not wrap. Failing inputs: one block at block 2^32, and one block at
  block 2^32 - 1. The check refuses a sum equal to the size of the region, so an accepted access by
  blocks does not reach the region's last block. For a region at the start of the device there is no
  check, and a write is isolated if it stays inside the region.
* `otp_init` counts groups and does not look at the gap before the first region: all four regions lie in
  the partition if and only if otp_start + 4 * wp_grp_size <= otp_size. A partition of exactly four
  groups that starts inside a group is accepted, and its last region ends behind it.
* Slots are independent as long as every accepted packet is contained in its slot when it arrives. An
  accepted packet leaves its slot if and only if the slot is waiting, the packet carries data, and
  offset + data[1] - 20 exceeds the size of a slot. Five full send-again packets do.
* A message survives reassembly if and only if no refused packet that names its slot is answered between
  its first and its last packet (or the answer writes what was there): the answer is composed in the
  slot and replaces the operation id and the first twelve bytes of the payload.
* Every argument that the parser accepts lies within the slot if and only if every accepted length is at
  most FS_MAX_BUF_SIZE; one argument of stated length 2^32 - 3 passes the parser's own test.
* A packed message parses back if and only if it has at most six arguments and none is empty; the packer
  accepts others, the parser refuses them.
* `ccci_ccb_read_done` succeeds if and only if exactly one page is outstanding. After a second
  `ccci_ccb_read_get` no page is released again before a flush.
* `NVM_RestoreFromBinRegion_OneFile` restores if and only if the free-block check passes, except that an
  empty data file also counts as restored when the search starts past the end of the region.

## Model

| member | source | states |
|---|---|---|
| DifFft.DIF_FFT | external/fft/Dif_fft.c:294-351 | for every Nu and input, x[k] ends as the sum over n of x[n]*w^(nk) for all k < 2^Nu; entries past 2^Nu are untouched |
| DifFft.SourceTwiddles | external/fft/Dif_fft.c:308-309 | the source's twiddles (cos, -sin) of PI/LE1 meet what DIF_FFT asks of them, by the values at PI and the double-angle formulas |
| DifFft.FourPoints | external/fft/Dif_fft.c:294-328 | with the twiddle (0, -1), output 1 of four points is x[0] - i*x[1] - x[2] + i*x[3], in components |
| ComplexField.SquareOfMinusI | external/fft/Dif_fft.c:320-323 | the complex product of -i with itself is -1 |
| ComplexField.LengthOfProduct | external/fft/Dif_fft.c:320-327 | re^2 + im^2 of a product is the product of those of its factors |
| DifFft.ButterflyStage | external/fft/Dif_fft.c:304-328 | the two inner loops with the running twiddle turn every block of size LE into its sums followed by its twiddled differences |
| DifFft.StagesAreTransform | external/fft/Dif_fft.c:302-329 | before reordering, place b holds output Reverse(b) of the transform |
| DifFft.OneStageThenRest | external/fft/Dif_fft.c:302-329 | performing one stage on all blocks leaves the outcome of the remaining stages unchanged |
| Dft.DecimationInFrequency | external/fft/Dif_fft.c:316-323 | even outputs are the half-size transform of the sums, odd outputs that of the twiddled differences, root squared |
| BitReversal.ReorderInPlace | external/fft/Dif_fft.c:330-350 | the swap loop applies exactly the bit-reversal permutation |
| BitReversal.Advance | external/fft/Dif_fft.c:343-349 | the inner while loop ends with k >= 1 and adds one to the bit-reversed counter |
| BitReversal.SuccessorOfReverse | external/fft/Dif_fft.c:332-349 | the successor of the reversal of n is the reversal of n + 1, so j - 1 stays the reversal of i - 1 |
| BitReversal.ReverseInvolutive | external/fft/Dif_fft.c:330-350 | bit reversal is its own inverse |
| BitReversal.ReorderedTwice | external/fft/Dif_fft.c:330-350 | reordering twice restores the sequence |
| PageFifo.ReadsInOrderOfReservation | hardware/ccci/ccci_lib.c:842-971 | in every interleaving, the i-th page read by the modem is the i-th reserved, with the length and bytes of the one earlier completion of that reservation, or those it had if it was complete when the run began |
| PageFifo.RunKeepsInv | hardware/ccci/ccci_lib.c:860-961 | every reachable state keeps free <= read <= write <= allocate with at most total-1 pages outstanding, and all published pages completed |
| PageFifo.ReachableInv | hardware/ccci/ccci_lib.c:860-961 | the same for whatever the methods reach, and every delivery is its position's page, length and bytes |
| PageFifo.PageIsFree | hardware/ccci/ccci_lib.c:871-878 | while the ring is not full, the next page is not among those from free to allocate |
| CcbUplink.Uplink.constructor | hardware/ccci/ccci_lib.c:744-750 | with read_index and free_index lagging behind write_index by any distance, setting allocate_index to write_index gives a valid ring whose queue is what is still to be read and freed |
| CcbUplink.Uplink.WriteAlloc | hardware/ccci/ccci_lib.c:842-887 | with the modem moving between the loads: NULL exactly when a guard word is wrong or the ring is full at the last load; otherwise the page at allocate_index, outside free..allocate, becomes ALLOC, one reservation is added, and the address is eight bytes behind the page's start, with what follows in the page and in no page's header |
| CcbUplink.Uplink.DataPart | hardware/ccci/ccci_lib.c:831-836 | page p starts at base + p * page_size and its data eight bytes later, in the page and clear of every header |
| CircularIndex.DataClear | hardware/ccci/ccci_lib.h:17-21 | bytes from the eighth to the last of a page are in no page's first eight |
| CcbUplink.Uplink.CountAvailable | hardware/ccci/ccci_lib.c:860-870 | the computed count is zero exactly when the ring is full at the last load of free_index |
| CcbUplink.AvailableUnderInterference | hardware/ccci/ccci_lib.c:864-870 | three loads of an advancing free_index, with unsigned wrap, still decide fullness at the last load |
| CcbUplink.Uplink.WriteDone | hardware/ccci/ccci_lib.c:889-971 | succeeds exactly for a ready buffer, a length within the page size and the address of an ALLOC page; closes that page's reservation with the length and bytes, and publishes the maximal completed prefix |
| CcbUplink.Uplink.PublishPrefix | hardware/ccci/ccci_lib.c:946-961 | the loop terminates and stops at allocate_index or at a page still ALLOC, with the modem reading and freeing behind it |
| CcbUplink.Uplink.SearchPage | hardware/ccci/ccci_lib.c:918-923 | finds the page whose data part is at the address, or reports that there is none |
| CcbUplink.Uplink.Complete | hardware/ccci/ccci_lib.c:933-934 | status and length stores close exactly the open reservation of that page |
| CcbUplink.Uplink.StatusByWindow | hardware/ccci/ccci_lib.c:873-955 | pages from free to write are WRITE_DONE; a page is ALLOC exactly when it is reserved and not completed |
| CcbDownlink.AvailableIsDistance | hardware/ccci/ccci_lib.c:973-979 | the signed difference of wrapped indices, corrected by the page count, is the number of waiting pages |
| CcbDownlink.Downlink.ReadGet | hardware/ccci/ccci_lib.c:1048-1090 | hands out the next message with its length and data, at the address eight bytes behind the start of the page at read_index; -EAGAIN exactly when none waits; the bad-status exit is unreachable |
| CcbDownlink.Downlink.DataPart | hardware/ccci/ccci_lib.c:831-836 | the same for the pages of the downlink |
| CcbDownlink.Downlink.ReadDone | hardware/ccci/ccci_lib.c:1092-1124 | succeeds exactly when one page is outstanding, and then releases it, with the modem publishing in between |
| CcbDownlink.Downlink.ReadFlush | hardware/ccci/ccci_lib.c:1127-1138 | skips and releases everything published when write_index was loaded; nothing is available unless the modem published since |
| DownlinkQueue.OrderInEveryRun | hardware/ccci/ccci_lib.c:1048-1138 | in every run positions are handed out in strictly increasing order and free never passes read |
| DownlinkQueue.NothingSkipped | hardware/ccci/ccci_lib.c:1066-1083 | without a flush the k-th page handed out is the k-th published |
| DownlinkQueue.TwoOutstandingNeverReleased | hardware/ccci/ccci_lib.c:1109-1122 | once two pages are outstanding no page is released again before a flush, so the modem can fill the ring only once |
| FsMessage.FragmentsOfMessage | external/ccci_fsd/ccci_fsd.c:642-690 | ceil(n/3456) packets, own size and the message's channel, slot and operation id in each, send-again flag on all but the last, data parts concatenating to the payload |
| FsDaemon.FsInfo.PreparePktEx | external/ccci_fsd/ccci_fsd.c:531-561 | the 20 bytes before the data are saved and replaced by the packet's header and id, also where they alias the source header |
| FsDaemon.FsInfo.SendFragments | external/ccci_fsd/ccci_fsd.c:658-690 | the packets written are the fragments of the slot's message, and afterwards the slot's bytes are what they were |
| FsDaemon.FsInfo.PackArgs | external/ccci_fsd/ccci_fsd.c:603-623 | succeeds exactly if every argument passes the space check, and then the slot is the packed message, with sources outside the slot, in place, or elsewhere in the slot; other slots and the header are untouched |
| FsPacking.FitsExactly | external/ccci_fsd/ccci_fsd.c:609-613 | the space check passes if and only if every argument, with eight bytes to its own length, ends at or before byte 16584 behind those before it |
| FsDaemon.FsInfo.WriteToMD | external/ccci_fsd/ccci_fsd.c:577-702 | ceil(n/3456) packets are sent, the fragments of the packed arguments; each has the request's slot, its channel plus one, the low half of its operation id under 0xFFFF, its own size, and the send-again bit unless it is the last; the slot keeps that id; its whole new content; no other slot changes |
| FsDaemon.RepliesAnswer | external/ccci_fsd/ccci_fsd.c:601-690 | those words of every packet, read from the packet and the request |
| FsPacking.RepliedId | external/ccci_fsd/ccci_fsd.c:601 | after the reply the slot's operation id has the request's low half and 0xFFFF above |
| FsPacking.GetPackInfo | external/ccci_fsd/ccci_fsd.c:469-514 | the parsing loop computes Parse |
| FsPacking.ParseExactly | external/ccci_fsd/ccci_fsd.c:469-514 | what is accepted is exactly a chain of at most six positive lengths from behind the count, each four-byte aligned behind the one before modulo 2^32, ending at index 16584 or earlier |
| FsPacking.ParseOfMessage | external/ccci_fsd/ccci_fsd.c:469-623 | parsing a packed message recovers every length and all bytes if and only if there are at most six arguments and none is empty; otherwise it is refused |
| FsPacking.AcceptedWithinSlot | external/ccci_fsd/ccci_fsd.c:480-497 | every entry that the parser accepts ends inside the slot if and only if every accepted length is at most FS_MAX_BUF_SIZE |
| FsPacking.WrappedLengthAccepted | external/ccci_fsd/ccci_fsd.c:486-497 | one argument of stated length 2^32 - 3 wraps the index and is accepted |
| FsPacking.PackLays | external/ccci_fsd/ccci_fsd.c:607-623 | packing stays below FS_MAX_BUF_SIZE, changes nothing outside, and leaves each argument at its place |
| FsPacking.InPlaceOffsets | external/ccci_fsd/ccci_fsd.c:3752 | the offsets computed for CMPT_READ data, and likewise for READ (line 3841) and OTP_READ (line 4119), are where the packer arrives, for every data length |
| FsPacking.OpenHintSource | external/ccci_fsd/ccci_fsd.c:3973-3984 | the bytes of its own request that OPENHINT replies with are ahead of the packer and do not overlap their new place, for every file name |
| FsPacking.MessageValuesAhead | external/ccci_fsd/ccci_fsd.c:607-623 | a source that lies ahead of the packer is sent as it was before packing began |
| FsPacking.RefusalOverwrites | external/ccci_fsd/ccci_fsd.c:601-651 | the reply FS_PARAM_ERROR puts the response id, and the bytes of count 1, length 4 and -2, over bytes 16 to 32 of its slot and changes nothing behind them |
| FsReassembly.SlotsAreIndependent | external/ccci_fsd/ccci_fsd.c:3640-3710 | while every accepted packet is contained on arrival, any inputs to the five slots, refused packets and their replies included, give each slot the outcome of its own events alone |
| FsReassembly.OrderlyBySlot | external/ccci_fsd/ccci_fsd.c:3655-3707 | all packets are contained on arrival if and only if this holds for each slot fed its own events alone |
| FsReassembly.OverrunExactly | external/ccci_fsd/ccci_fsd.c:3667-3707 | an accepted packet changes no other slot unless its slot is waiting and offset + data[1] - 20 exceeds the slot, and then its last byte lands behind the slot |
| FsDelivery.MessageReassembled | external/ccci_fsd/ccci_fsd.c:3664-3707 | the fragments of a message, with refusals before or between them, leave their slot IDLE, offset 0, with operation id and entire payload, or with what a refusal after the first packet left of them |
| FsDelivery.MessageSurvives | external/ccci_fsd/ccci_fsd.c:3646-3707 | operation id and payload are intact if and only if no refusal came after the first packet, or it wrote what was there |
| FsDelivery.InterleavedMessages | external/ccci_fsd/ccci_fsd.c:3640-3710 | the same in runs of the whole machine, whatever else arrives, with only the other slots' packets assumed contained |
| FsDelivery.RefusalBetween | external/ccci_fsd/ccci_fsd.c:3646-3654 | a packet with a wrong channel between the two packets of a message to the slot it names destroys the message |
| FsDelivery.FiveSendAgain | external/ccci_fsd/ccci_fsd.c:3689-3707 | five send-again packets of 3476 bytes, each accepted and inside the block, change slot 1 through slot 0 |
| FsDelivery.OwnPacketsRouted | external/ccci_fsd/ccci_fsd.c:3646-3655 | every fragment of a well-addressed message passes the header check and reaches its slot only |
| FsDelivery.MessageDelivered | external/ccci_fsd/ccci_fsd.c:469-3710 | arguments packed, fragmented, interleaved, reassembled and parsed come back with their lengths and bytes; after a refusal the parser sees one argument of four bytes under the id of a response |
| FsDaemon.FsInfo.Receive | external/ccci_fsd/ccci_fsd.c:3628-3710 | accepted exactly for channel 14 in the low half, a slot below 5 and a size up to 16604; one pass of the reading loop over the shared buffers is one step of the five-slot machine, the reply to a refused packet included |
| FsReassembly.DispatchBytes | external/ccci_fsd/ccci_fsd.c:3655-3707 | every byte of the block, state and offset after an accepted packet, in terms of the packet's bytes and words |
| FsReassembly.RefusedBytes | external/ccci_fsd/ccci_fsd.c:3646-3654 | a refused packet changes nothing without pFsBuf or a slot, and otherwise only 32 bytes of the slot it names, twelve of them given |
| FsDaemon.FsInfo.Accept | external/ccci_fsd/ccci_fsd.c:3655-3707 | the copies, state and offset updates for an accepted packet are those of the IDLE/WAIT machine, with nothing but the end of the block to stop a copy |
| GlobMatch.PatMatchDecides | external/ccci_fsd/ccci_fsd.c:368-385 | the matcher accepts exactly the strings that can be cut into one fitting piece per pattern character |
| NvramCheckSum.CheckSumByChunk | external/libnvram_ext/libnvram.cpp:1581-1664 | the version in use computes the defining sum for a file of any length |
| NvramCheckSum.CheckSumByWord | external/libnvram_ext/libnvram.cpp:1666-1718 | the version it replaced computes the same sum |
| NvramCheckSum.SumOfNothing | external/libnvram_ext/libnvram.cpp:1588-1662 | the empty file has sum 0 |
| NvramCheckSum.SumOfTwoMoreWords | external/libnvram_ext/libnvram.cpp:1632-1645 | little-endian words v and w behind an even number of words turn the sum s into (s ^ v) + w |
| NvramCheckSum.SumOfTrailingBytes | external/libnvram_ext/libnvram.cpp:1648-1658 | one to three bytes behind whole words are added as a little-endian number |
| NvramCheckSum.SumOfLongFile | external/libnvram_ext/libnvram.cpp:1590-1603 | only the bytes that the 32-bit size counts are summed |
| NvramCheckNo.ComputeCheckNo | external/libnvram_ext/libnvram.cpp:3196-3244 | the alternating sum of the covered bytes; fails exactly for an old file shorter than its trailer |
| NvramCheckNo.SumOfTwoMoreBytes | external/libnvram_ext/libnvram.cpp:3222-3232 | bytes a and b behind an even number of bytes turn the sum s into (s + a) ^ b, starting from 0 |
| NvramCheckNo.SetCheckNo | external/libnvram_ext/libnvram.cpp:3325-3370 | in both modes the body is kept and followed by 0xAA and its sum, and the resulting file is one that NVM_CheckFile accepts |
| NvramCheckNo.CheckFile | external/libnvram_ext/libnvram.cpp:3391-3445 | accepts exactly the intact files |
| NvramCheckNo.OneByteChangeDetected | external/libnvram_ext/libnvram.cpp:3217-3445 | an intact file with one byte changed is rejected if and only if the byte is in the trailer or covered by the counter; always below 4 GiB |
| NvramCheckNo.OneByteChangesSum | external/libnvram_ext/libnvram.cpp:3222-3232 | changing one summed byte changes the check byte |
| NvramCheckNo.LongFileChangeMissed | external/libnvram_ext/libnvram.cpp:3217-3221 | a 4 GiB file whose first byte may change unnoticed |
| NvramJournal.Journal.HistoryLog | external/libnvram_ext/libnvram.cpp:5456-5588 | below the sequence wrap: entry n goes to page total - log_block*pages + n % (pages*(log_block-1)), n + 1 to the first page of the last block, on NAND the blocks erased are these two, when begun, and no other page changes; the retained entries are at their pages |
| NvramJournal.PlacesEntry | external/libnvram_ext/libnvram.cpp:5507-5525 | that effect, from the writes of log page and super page |
| NvramJournal.Journal.WriteLogPage | external/libnvram_ext/libnvram.cpp:5501-5572 | erase and write keep every entry of the retention window and never touch the super block |
| NvramJournal.Journal.IncSequenceNum | external/libnvram_ext/libnvram.cpp:5108-5197 | the super page holds the next sequence number; no page before the super block changes |
| NvramJournal.Journal.GetSequenceNum | external/libnvram_ext/libnvram.cpp:5078-5104 | in a journal the number is the count of entries logged so far, and the newest entry is at the page it determines; zero on a device without a journal page in the super block |
| NvramJournal.ReadableExactly | external/libnvram_ext/libnvram.cpp:5501-5525 | entry k of n is on the device exactly if n - k is at most pages*(log_block-1) (eMMC, UFS), or its block is the newest entry's or one of the log_block-2 before it (NAND) |
| NvramJournal.PagePlace | external/libnvram_ext/libnvram.cpp:5507-5512 | entry k is at page total - log_block*pages + k % (pages*(log_block-1)) |
| NvramRestore.RestoreData | external/libnvram_ext/libnvram.cpp:3069-3166 | restores exactly when the free-block check passes, and then byte k of the dat bytes is byte k % size of good block number k / size after the map area |
| NvramRestore.ReadBlocks | external/libnvram_ext/libnvram.cpp:3108-3154 | given enough good blocks the later exit is unreachable and the buffer is their concatenation in increasing order |
| NvramRestore.GoodBlocks | external/libnvram_ext/libnvram.cpp:3070-3091 | the list of good blocks is exactly the blocks marked 0, in increasing order |
| StorageOtp.Otp.Init | external/libstorage_otp/storage_otp.c:75-119 | fails exactly without room for four users or for an unknown user; otherwise four adjacent regions, all inside the partition if and only if otp_start + 4 groups is at most otp_size |
| StorageOtp.RegionsInPartition | external/libstorage_otp/storage_otp.c:75-113 | that condition, for any storage; block numbers count from the start of a partition of otp_size bytes |
| StorageOtp.LastRegionOutside | external/libstorage_otp/emmc.cpp:636-655 | a partition of exactly four groups that starts inside a group is accepted and its last region ends behind it |
| StorageOtp.Otp.GetRegion | external/libstorage_otp/storage_otp.c:146-167 | finds the current user's region |
| StorageOtp.Otp.OpsReadWrite | external/libstorage_otp/storage_otp.c:169-261 | refuses exactly an access in a region past the first block whose last block's number plus one, modulo 2^32, is at least the region's blocks; a write stores exactly the given bytes at the user's offset, a read returns exactly those there, nothing else changes; even with truncated block numbers a write changes only the blocks touched; a write that touches only the user's own region, which for an accepted one means exactly that it keeps inside, changes no byte of another user |
| StorageOtp.RefusedExactly | external/libstorage_otp/storage_otp.c:203-226 | the check by block number and count refuses if and only if the region starts at blk_sz or later and ceil((offset + size)/blk_sz) modulo 2^32 is at least its number of blocks |
| StorageOtp.Otp.AddressPlace | external/libstorage_otp/storage_otp.c:228-258 | where byte offset of the current user lies, in the fields of the device |
| StorageOtp.Otp.InsideExactly | external/libstorage_otp/storage_otp.c:212-259 | an accepted access in a region of whole blocks past the device start touches only that region if and only if it ends inside (byte access) or the 32-bit sum does not wrap (blocks) |
| StorageOtp.Otp.OwnBytesOnly | external/libstorage_otp/storage_otp.c:108-113 | a write inside the current user's region changes no byte of another user |
| StorageOtp.Otp.DirectEscapes | external/libstorage_otp/storage_otp.c:227-237 | by bytes, an access at offset 2^32 blocks is accepted and lies outside the region |
| StorageOtp.Otp.BlocksEscape | external/libstorage_otp/storage_otp.c:227-247 | by blocks, an access at block 2^32 - 1 is accepted and lies outside the region |
| StorageOtp.AcceptedStaysInside | external/libstorage_otp/storage_otp.c:212-232 | an accepted access in a block-aligned region past the device start stays inside it, below its last block, if and only if the 32-bit sum does not wrap |
| StorageOtp.ExactBlocks | external/libstorage_otp/storage_otp.c:193-213 | the 32-bit block numbers denote the covering blocks if and only if both are below 2^32 |
| StorageOtp.InexactOffset | external/libstorage_otp/storage_otp.c:176-213 | an offset of 2^32 blocks is taken for offset zero |
| StorageOtp.AlignedCovers | external/libstorage_otp/storage_otp.c:193-203 | rounding yields whole blocks that cover the access with less than a block to spare on either side |
| StorageOtp.RegionsDisjoint | external/libstorage_otp/storage_otp.c:108-113 | regions of different users have no byte in common |

## Left out

- DifFft.DIF_FFT: float rounding and the cosine and sine calls; 32-bit sizes, which hold every index for Nu up to 30.
- Fixed-point transforms: their saturating primitives are not in the repository.
- CCB registration, mmap, poll, notification ioctl, debug ioctl and logging; the ring is taken as registered, with buffer_id below buffer_num (the code's own test also admits an id equal to it).
- CcbUplink.Uplink.WriteAlloc: the two stores of a grant count as one step, since the modem reads neither before write_index passes the page; memory barriers are not modelled.
- CcbUplink.Uplink.WriteDone: the result of the notification ioctl is not modelled; `Notified` means that it is reached.
- CcbDownlink: rings of a single page, where read_done succeeds on an empty ring, and page counts from 2^31 on.
- CcbUplink.Uplink.constructor: pages left in ALLOC by an earlier user, which registration does not reset and which `ccci_ccb_write_done` would still accept.
- FsDaemon.FsInfo.WriteToMD: the mode without stream support, and failed or partial device writes, where the loop ends without undoing the overlay; sources inside the slot that overlap the place they are copied to, for which memcpy is undefined.
- FsDaemon.FsInfo.PackArgs: argument lengths from 2^31 on, which no object in memory has.
- FsDaemon.FsInfo.Receive: packets whose copies leave the packet buffer or the whole block of slots, where the source is undefined; runs require the same, and go past the end of a slot.
- FsReassembly.SlotsAreIndependent: serving a request is taken to write its own slot only; pFsBuf has no initial value in the source, so that a machine may start with or without answering refused packets.
- PatiMatch, which differs from PatMatch only by case folding.
- File operations of the daemon that wrap system calls, and ccci_rpcd, which repeats the packing and reassembly code.
- NvramCheckNo: open, stat and read failures other than a file that is too short; char is taken as unsigned, as on ARM, so that the 0xFF failure flag compares equal.
- NvramCheckSum.CheckSumByChunk: open and stat failures.
- NvramJournal.Journal.HistoryLog: pages stand for write units and hold the entry as one value; time stamps, text formatting, device errors and the wrap of the sequence number are not modelled.
- NvramRestore.RestoreData: the search for the bad-block map, reading the map file, and device errors.
- StorageOtp.Otp.OpsReadWrite: failing block reads and writes, allocation failure, locking; 64-bit wrap of offset and size; for inexact block numbers only what stays unchanged is promised.
- NVRAM partition discovery, ownership, encryption, and the per-platform header offsets.
- Thermal, sensor, ion, performance, fuel gauge and power code.
