# Models of hekate's allocator, page tables, codes, ciphers and boot protocols

This project models seven parts of hekate in Dafny and proves what they are for. Each part that
changes state in place is a class or a method over arrays; every such method is proved against a
specification on values, and the laws are lemmas about that specification, over all inputs, all
call sequences or all runs.

| modules | part of hekate | main results |
|---|---|---|
| `HeapSpec`, `Heap` | first-fit allocator in the memory it manages | the list tiles the heap after any calls, live payloads are disjoint and never written by other calls, freeing everything leaves one node |
| `FuseEcc`, `FuseChain` | error-correcting code of the bootrom patch fuses and its three chain readers | one flip is corrected and two are detected in groups of any length; exact output of a damaged chain |
| `Smmu` | two-level page tables | the walk refines a plain map, across domains and through lazily made tables |
| `Gf128`, `Xts`, `XtsNx`, `Cmac` | AES modes built on the security engine | both doublings are multiplication by x; both XTS variants; CMAC |
| `RtcCalendar` | epoch and date conversion in 32 bits | both closed forms agree with a day-by-day calendar and invert each other |
| `Autokeys`, `BootSelect` | automatic key dumping across reboots; choice of the boot entry | when Lockpick starts and why it does not start twice; which section is selected |
| `Pllc4` | PLL shared by four SDMMC controllers | no enabled controller is ever clocked from a stopped PLL, at no single register write |
| `Bits` | | exclusive or, shifts and parity on numbers |

Five properties turned out not to hold in full. Each has a concrete failing input and the exact
condition under which the code does what is wanted:

- A flip that makes a raw next-size field zero ends the chain walk before the field is corrected
  (bdk/soc/fuse.c:388). `FuseChain.SingleErrorLosesWords` shows a chain that loses a word;
  `FuseChain.DamagedChainReport` gives the condition.
- README.md of hekate says that failed or interrupted key dumps do not repeat by themselves. They do
  when the attempt marker is there but cannot be read (bootloader/main.c:751-762):
  `Autokeys.UnreadableMarkerRepeats` is such a run, `Autokeys.StartCondition` the condition.
- A request file is removed after a failed launch, but stays when closing it failed, because the boot
  then ends at once (bootloader/main.c:796-797): `Autokeys.RequestGoneIff`.
- The hash of the empty message differs from RFC 4493, because its block is neither padded nor xored
  with K2: `Cmac.EmptyMessage` and `Cmac.EmptyMessageDiffers`.
- The hash of a message above 0xfffffff0 bytes covers its partial last block alone, because the block
  count wraps around (bdk/sec/se.c:696): `Cmac.HashEngine.HashCmac`, `Cmac.SkippedBlocks` and
  `Cmac.SkippedBlocksDiffer`.

Where a comment and the code disagree the model follows the code: the comment at
bdk/soc/fuse.c:307 names the mask 0xfff00000, while the code keeps the low twenty bits.

Addresses, sizes and words are natural numbers with the source's widths and wrap-arounds written out.
Blocks are byte sequences and the block cipher is any function with an inverse. The procedure of XTS
is that of sections 5.2 to 5.4 of IEEE Std 1619-2007, except that the code writes the sector number
with its highest byte first and that one of its two variants doubles with the highest byte first.
CMAC is that of sections 2.3 and 2.4 of RFC 4493. Card operations, engine operations and power losses
are parameters that may take any outcome.

## Model

| member | source | states |
|---|---|---|
| HeapSpec.Align | bdk/mem/heap.c:39 | the aligned size is the least multiple of the header that is not below the request, and zero for requests above 0xffffffe0, which wrap around |
| HeapSpec.FirstFitIsFirst | bdk/mem/heap.c:61-100 | no node before the one found is free and large enough |
| HeapSpec.AllocKeepsWellFormed | bdk/mem/heap.c:34-114 | after an allocation the nodes still tile the heap, sizes are header multiples and no two free nodes touch; the extent grows just when no free node fits |
| HeapSpec.AllocLive | bdk/mem/heap.c:60-113 | exactly one live node is added, new, large enough and less than four headers too large, and all others stay where and as large as they were |
| HeapSpec.ServedIs | bdk/mem/heap.c:65-113 | where the served node stands and how large it is: cut to the request when four headers remain, whole otherwise, and appended at just the request when no free node fits |
| HeapSpec.FreeKeepsWellFormed | bdk/mem/heap.c:116-155 | after a free the nodes tile the same extent and no two free nodes touch |
| HeapSpec.FreeLive | bdk/mem/heap.c:127-153 | merging removes exactly the freed node from the live ones and moves or resizes no other |
| HeapSpec.FreedLive | bdk/mem/heap.c:116-155 | the same for a free by address, live or not |
| HeapSpec.LiveDisjoint | bdk/mem/heap.c:34-155 | two nodes of a tiled list never overlap |
| HeapSpec.FreeAllLeavesOneNode | bdk/mem/heap.c:130-153 | freeing all live payloads in any order leaves one free node that spans the heap |
| HeapSpec.AllocThenFree | bdk/mem/heap.c:65-93 | freeing what was just allocated restores the exact list if and only if a free node served the allocation |
| HeapSpec.RunKeepsWellFormed | bdk/mem/heap.c:34-155 | the list is well formed after any calls |
| HeapSpec.RunIsSafe | bdk/mem/heap.c:34-155 | after any calls live payloads are pairwise disjoint, aligned and inside the heap |
| Heap.Allocator.constructor | bdk/mem/heap.c:26-31 | the heap starts empty, at any word-aligned address that leaves room for a header below it |
| Heap.CarveLinked | bdk/mem/heap.c:65-93 | the header writes of a split turn a linked list in memory into that of the split nodes |
| Heap.Allocator.Search | bdk/mem/heap.c:60-101 | the loop over the links ends at the first fit, or at the last node |
| Heap.Allocator.Split | bdk/mem/heap.c:65-93 | the split at a node writes what the memory description of the split says |
| Heap.Allocator.AppendNode | bdk/mem/heap.c:103-113 | the new node lies right behind the last one |
| Heap.Allocator.FirstAlloc | bdk/mem/heap.c:42-54 | the first node holds the request at the start of the heap |
| Heap.Allocator.Malloc | bdk/mem/heap.c:34-114 | memory keeps a well-linked list, the list is that of a first-fit allocation, the payload returned is the served node's and no word of a live payload changes |
| Heap.Allocator.MarkFree | bdk/mem/heap.c:120-126 | only the one node becomes free |
| Heap.Allocator.Absorb | bdk/mem/heap.c:134-138 | relinking joins a free node with its free successor, as at lines 148-152 |
| Heap.Allocator.Merge | bdk/mem/heap.c:130-153 | both merges around the freed node, in the code's order |
| Heap.Allocator.Free | bdk/mem/heap.c:116-155 | the list is that of a free, and no word of another live payload changes; addresses the guard rejects change nothing |
| Heap.Allocator.Zalloc | bdk/mem/heap.c:172-177 | like malloc, and every word of the aligned request is zero |
| Heap.Allocator.ClientWrite | bdk/mem/heap.c:34-155 | a client that writes an aligned word inside its live payload cannot damage the list |
| Heap.Allocator.Monitor | bdk/mem/heap.c:189-218 | the walk counts all nodes and the used ones, and its total is the extent of the heap |
| Heap.BytesAddUp | bdk/mem/heap.c:198-217 | the used and the free bytes make up the heap, and there are as many used nodes as live ones |
| FuseEcc.Parity32Even | bdk/soc/fuse.c:231-245 | the folded word is the parity of all bits of the group |
| FuseEcc.HashWords | bdk/soc/fuse.c:291-304 | the loop xors the positions of all set bits |
| FuseEcc.RepairBit | bdk/soc/fuse.c:321-337 | in-place repair of the bit that the check value names |
| FuseEcc.RepairInPlace | bdk/soc/fuse.c:310-337 | the four verdicts and what each leaves in the buffer |
| FuseEcc.PatchHashMulti | bdk/soc/fuse.c:284-338 | the buffer and the status are those of the code's correction, and words behind the group stay |
| FuseEcc.SyndromeFlip | bdk/soc/fuse.c:291-305 | flipping one bit moves the check value by that bit's column, whatever the group |
| FuseEcc.GroupParityFlip | bdk/soc/fuse.c:231-245 | flipping one bit flips the parity |
| FuseEcc.CleanGroup | bdk/soc/fuse.c:310-313 | a valid group is accepted unchanged |
| FuseEcc.SingleErrorCorrected | bdk/soc/fuse.c:284-338 | in a valid group of any length, any one flipped protected bit gives status 1 and the original protected bits |
| FuseEcc.DoubleErrorDetected | bdk/soc/fuse.c:284-338 | any two flipped protected bits give status 3 |
| FuseEcc.StatusMeaning | bdk/soc/fuse.c:310-337 | what each status says of any group: 0 no error, 3 an even number of errors, 1 a single error or a check value that is misread for one, 2 any other odd number |
| FuseEcc.NextFieldError | bdk/soc/fuse.c:284-338 | a flip in the unprotected next-size field gives status 1 and costs only the parity bit |
| FuseEcc.PatchHashOne | bdk/soc/fuse.c:247-282 | status and word are those of the code's correction of the next-size field |
| FuseEcc.FieldErrorCorrected | bdk/soc/fuse.c:247-282 | any one flipped bit of the field is put back |
| FuseEcc.FieldUntouched | bdk/soc/fuse.c:247-282 | flips below the field leave it accepted |
| FuseEcc.FieldDoubleErrorDetected | bdk/soc/fuse.c:247-282 | any two flipped bits of the field give status 3 |
| FuseEcc.FieldStatusMeaning | bdk/soc/fuse.c:260-281 | the same of any field, with no misreading: status 1 just when one flipped bit explains it, and then the field is valid again |
| FuseChain.LoadGroup | bdk/soc/fuse.c:358-368 | the buffer holds the next group of fuse words, read downwards |
| FuseChain.ReadIpatch | bdk/soc/fuse.c:340-398 | status and patches are those of the walk over the groups; each patch has an even address and its half and the data make up the word |
| FuseChain.DecodeIsPatch | bdk/soc/fuse.c:379-381 | a word has exactly one such patch |
| FuseChain.WalkEnds | bdk/soc/fuse.c:354-356 | a group that would reach the end of the buffer is not read, and that is no error |
| FuseChain.StopsAtDoubleError | bdk/soc/fuse.c:371-372 | two flipped protected bits in a group end the walk there with status 1 |
| FuseChain.StopsAtDamagedSize | bdk/soc/fuse.c:388-392 | two flipped bits in a next-size field end the walk behind the group with status 3, unless the raw field reads zero |
| FuseChain.ReadEvpThunk | bdk/soc/fuse.c:400-485 | without instructions the thunk area is untouched; otherwise it is the template followed by exactly the instructions of the walk, with its length in bytes |
| FuseChain.CheckPatchedRcm | bdk/soc/fuse.c:493-514 | for chains inside the fuse array, which they may fill to its last word, the in-place walk answers whether some group patches 0x769A |
| FuseChain.DamagedGroup | bdk/soc/fuse.c:247-338 | one flip anywhere in a group leaves its payload, patch count and next size readable |
| FuseChain.DamagedChainOutput | bdk/soc/fuse.c:340-398 | with at most one flip a group, a reader outputs exactly the original words up to the first group whose raw next size reads zero |
| FuseChain.DamagedChainReport | bdk/soc/fuse.c:388-394 | its report is that of the error-free chain if and only if none of its words lies behind such a group |
| FuseChain.SingleErrorsHarmless | bdk/soc/fuse.c:340-398 | without a next size made zero, the readers see no difference |
| FuseChain.SingleErrorLosesWords | bdk/soc/fuse.c:388 | a chain and one flip that loses a word |
| FuseChain.CleanChainReport | bdk/soc/fuse.c:374-385 | from an error-free chain a reader takes all it owns |
| FuseChain.EachWordOneReader | bdk/soc/fuse.c:447-467 | on an error-free chain each payload word goes to exactly one of the two readers, and once |
| FuseChain.RcmCheckAgrees | bdk/soc/fuse.c:494-514 | on an error-free chain the check finds 0x769A exactly when the ipatch reader emits that address |
| Smmu.InstallTable | bdk/mem/smmu.c:215-231 | a new table in a slot without permissions changes no translation in any domain |
| Smmu.WritePte | bdk/mem/smmu.c:245-246 | a table entry changes the translation of its page and of no other page in any domain |
| Smmu.WriteRegion | bdk/mem/smmu.c:262-265 | a region entry changes the translations of its slot and of nothing else |
| Smmu.AddDirectory | bdk/mem/smmu.c:85-94 | a new directory translates nothing and disturbs no other domain |
| Smmu.HugeIsPages | bdk/mem/smmu.h:32-59 | mapping regions is mapping all their pages |
| Smmu.HugeMapsLikePages | bdk/mem/smmu.c:238-272 | regions and their pages make the same translation of a page exactly when the page is outside the range, its slot held no permitted region, or that region has the requested frame and permissions already |
| Smmu.MapsAddresses | bdk/mem/smmu.c:238-253 | in bytes: the address iova + k translates to iopa + k with the requested permissions, or not at all when there are none |
| Smmu.MapsHugeAddresses | bdk/mem/smmu.c:255-272 | the same for regions |
| Smmu.MapsNothingElse | bdk/mem/smmu.c:238-272 | pages outside the range and other domains keep their translations |
| Smmu.Mmu.PageZalloc | bdk/mem/smmu.c:75-83 | a fresh zeroed page, and no other page changes |
| Smmu.Mmu.PdirAlloc | bdk/mem/smmu.c:85-94 | a fresh directory whose slots carry their own frame and no permission |
| Smmu.Mmu.DomainInit | bdk/mem/smmu.c:167-180 | a new domain that keeps the page structure consistent |
| Smmu.Mmu.GetTable | bdk/mem/smmu.c:207-236 | finding or making the table of a slot changes no translation; a permitted region is returned as if it were a table |
| Smmu.Mmu.MapPage | bdk/mem/smmu.c:243-246 | one page gets its frame and permissions and nothing else changes |
| Smmu.Mmu.Map | bdk/mem/smmu.c:238-253 | every page of the range gets the requested frame and permissions, and every other page of every domain keeps its translation |
| Smmu.Mmu.MapHuge | bdk/mem/smmu.c:255-272 | the same for 4MB regions |
| Gf128.LeftShiftBE | bdk/sec/se.c:38-52 | the byte loop computes the double of the block |
| Gf128.ShiftWord | bdk/sec/se.c:59-64 | shifting a word with carry shifts its bytes |
| Gf128.LeftShiftLE | bdk/sec/se.c:54-68 | the word loop computes the little-endian double of the block |
| Gf128.DoubleBEIsTimesX | bdk/sec/se.c:38-52 | coefficient by coefficient, the double is the product with x modulo x^128 + x^7 + x^2 + x + 1 |
| Gf128.DoubleLEIsTimesX | bdk/sec/se.c:54-68 | the same for the little-endian routine |
| Gf128.DoublesAgreeReversed | bdk/sec/se.c:38-68 | the two routines agree under byte reversal |
| Xts.WriteSector | bdk/sec/se.c:389-393 | the tweak holds the 64-bit sector number, highest byte first |
| Xts.BigEndianValue | bdk/sec/se.c:389-393 | those bytes have the number's value |
| Xts.SectorBlockValue | bdk/sec/se.c:389-393 | the block of a sector number is the one block with that value |
| Xts.Engine.Start | bdk/sec/se.c:137-140 | operations above the size limit of bdk/sec/se_t210.h:54-56, 0xffff80 bytes, fail without being started |
| Xts.Engine.CryptEcb | bdk/sec/se.c:322-338 | a successful operation puts every block of the stretch through the cipher and touches nothing outside; an empty one starts nothing |
| Xts.Engine.XtsBlocks | bdk/sec/se.c:398-412 | the loop is XTS block by block with a tweak that doubles |
| Xts.Engine.CryptXtsSec | bdk/sec/se.c:381-415 | a sector is XTS from the encrypted sector number, in place or not; it fails exactly when an engine operation fails |
| Xts.Engine.CryptXts | bdk/sec/se.c:469-479 | sectors in sequence with rising sector numbers, nothing outside the buffer changed |
| Xts.XtsRoundTrip | bdk/sec/se.c:381-415 | decryption undoes encryption for any tweak and length |
| Xts.XtsSectorsRoundTrip | bdk/sec/se.c:469-479 | decryption undoes encryption for any sector number, size and count |
| Xts.XtsSplit | bdk/sec/se.c:398-412 | a call on the whole buffer is one on each part, the second with the tweak carried over |
| Xts.XtsStandard | bdk/sec/se.c:400-407 | under its tweak a coded block is the cipher of the plain block under the tweak, section 5.3 of IEEE Std 1619-2007 |
| Xts.TweaksByX | bdk/sec/se.c:409 | the first tweak is the sector's and each next one x times the one before, coefficient by coefficient |
| Xts.SectorOfRun | bdk/sec/se.c:474-476 | sector j of a run is processed under sector number sec + j in 64 bits |
| XtsNx.XorWordsInto | bdk/sec/se.c:444-445 | xoring four words is xoring sixteen bytes |
| XtsNx.XorTweaks | bdk/sec/se.c:442-450 | a pass xors block i with the i-th tweak and leaves the tweak behind the last |
| XtsNx.RegenTweak | bdk/sec/se.c:423-432 | the tweak is the encrypted sector number, or the operation failed |
| XtsNx.MoveTweak | bdk/sec/se.c:434-436 | the tweak is doubled 32 times a skipped sector, counted in 32 bits |
| XtsNx.PrepareTweak | bdk/sec/se.c:423-439 | the tweak is the fresh or carried one, moved on by 32 doublings a skipped sector |
| XtsNx.FirstTweak | bdk/sec/se.c:423-432 | without skipped sectors the start tweak is the encrypted sector number or the carried tweak |
| XtsNx.TwoPassesAreXts | bdk/sec/se.c:442-464 | masking, one engine operation and masking again is XTS block by block |
| XtsNx.TwoPasses | bdk/sec/se.c:441-464 | both passes and the operation between them make the buffer the XTS of what it was and leave the tweak for the next call |
| XtsNx.CryptXtsSecNx | bdk/sec/se.c:417-467 | the batched call is block-by-block XTS, carries the tweak on, and succeeds exactly when the size is allowed and no engine operation fails |
| XtsNx.CarriedTweak | bdk/sec/se.c:417-467 | two calls, the second without a fresh tweak, are one call on the whole buffer |
| XtsNx.SkippedSectors | bdk/sec/se.c:434-436 | skipping k sectors is what a call on the whole run does behind its first 32k blocks, a number counted in 32 bits; below k = 2^27 these are k sectors of 512 bytes |
| Cmac.HashEngine.ClearIv | bdk/sec/se.c:302-310 | both vectors of the slot are zero |
| Cmac.HashEngine.Execute | bdk/sec/se.c:137-179 | the announced blocks are chained from the selected vector, and the end of the chain is left for the next operation |
| Cmac.HashEngine.Subkey | bdk/sec/se.c:681-690 | K1 for whole blocks and K2 otherwise |
| Cmac.SubkeysByX | bdk/sec/se.c:686-690 | K1 and K2 are x and x^2 times the encrypted zero block |
| Cmac.LastBlockIs | bdk/sec/se.c:708-718 | a whole last block goes with K1, a partial or missing one is padded and goes with K2 |
| Cmac.HashEngine.InitialBlocks | bdk/sec/se.c:695-706 | the next operation goes on from the chain over all blocks but the last |
| Cmac.FillLast | bdk/sec/se.c:708-715 | the last block of the message, padded when it is partial |
| Cmac.HashEngine.FinalBlock | bdk/sec/se.c:708-723 | the result chains the last block, with the subkey xored in, behind what came before |
| Cmac.HashEngine.HashCmac | bdk/sec/se.c:674-731 | for every non-empty message of at most 0xfffffff0 bytes the hash is AES-CMAC of section 2.4 of RFC 4493, above that it is that of the partial last block alone; it succeeds exactly when the size is at most 0xffff80 or above 0xfffffff0 and no operation fails, and on failure the output is untouched |
| Cmac.ChainContinues | bdk/sec/se.c:696-725 | a chain split across two operations is the whole chain |
| Cmac.SkippedBlocks | bdk/sec/se.c:695-706 | where the block count wraps around, the hash has the RFC 4493 value if and only if the chain over the whole blocks comes back to zero |
| Cmac.SkippedBlocksDiffer | bdk/sec/se.c:695-706 | messages of any such length for which it has not |
| Cmac.EmptyMessage | bdk/sec/se.c:708-718 | the empty message has the RFC 4493 value if and only if K1 equals the padded empty block under K2 |
| Cmac.EmptyMessageDiffers | bdk/sec/se.c:708-718 | a family of ciphers for which it has not |
| RtcCalendar.DateToEpoch | bdk/rtc/max77620-rtc.c:138-163 | the closed form without any intermediate wrap-around but the final one at 32 bits |
| RtcCalendar.DayOfDate | bdk/rtc/max77620-rtc.c:143-157 | the day number, with nothing wrapping around |
| RtcCalendar.EpochToDate | bdk/rtc/max77620-rtc.c:96-132 | the closed form of the date and the time, with no overflow of a 32-bit operation |
| RtcCalendar.NextDayNumber | bdk/rtc/max77620-rtc.c:154-157 | the day after any real date has the next number, across months, leap days and centuries |
| RtcCalendar.DateOfDayNumber | bdk/rtc/max77620-rtc.c:154-157 | counting n days from 1 January 1970 gives the date with number n |
| RtcCalendar.RealDateIsReached | bdk/rtc/max77620-rtc.c:154-157 | every real date is reached by counting |
| RtcCalendar.DayNumberIncreases | bdk/rtc/max77620-rtc.c:143-157 | later dates have larger numbers |
| RtcCalendar.SecondNumberIncreases | bdk/rtc/max77620-rtc.c:138-163 | later times have larger second counts, and larger 32-bit epochs as long as both counts wrap around equally often, as all in the 32-bit range do |
| RtcCalendar.DateFromDayNumber | bdk/rtc/max77620-rtc.c:108-127 | the backward closed form finds the date of a day number |
| RtcCalendar.EpochIsNaiveDate | bdk/rtc/max77620-rtc.c:96-132 | every 32-bit epoch gives the real date that day-by-day counting gives, a real time of day, and its own epoch back |
| RtcCalendar.DateRoundTrip | bdk/rtc/max77620-rtc.c:96-163 | a real time in range converts to an epoch and back to itself |
| RtcCalendar.EpochRoundTrip | bdk/rtc/max77620-rtc.c:96-163 | every 32-bit epoch converts to a date and back to itself |
| Autokeys.StartCondition | bootloader/main.c:764-804 | Lockpick starts if and only if it is enabled and present, this revision was seen neither completed nor attempted, both markers could be written and the launch works |
| Autokeys.StartWhenAllWorks | bootloader/main.c:764-804 | the same in terms of the files alone, when no operation goes wrong |
| Autokeys.OnlyMarkersChange | bootloader/main.c:764-805 | a boot changes no file but the two markers, and an attempt marker that could be written and closed is the exact one, launched or not |
| Autokeys.RequestRemoved | bootloader/main.c:794-804 | what is left of the request when Lockpick was not started |
| Autokeys.RequestGoneIff | bootloader/main.c:794-804 | the request goes after a failed launch if and only if closing it worked or left nothing |
| Autokeys.StartedMarked | bootloader/main.c:788-804 | when it starts, the exact attempt marker and the request were written and closed by this boot |
| Autokeys.MarkedBoot | bootloader/main.c:773-784 | a boot that finds the exact marker changes nothing and starts nothing, unless it sees completion, cannot read the marker or is of another revision |
| Autokeys.AfterMark | bootloader/main.c:781-784 | with the exact attempt marker on the card, from an attempt that was launched or not, no start comes before such a break |
| Autokeys.CompletionClears | bootloader/main.c:766-779 | completion is seen if and only if key dumping may run, a key file is not empty and the exact completion marker can be read; each marker whose removal works is then gone, and no other file changes |
| Autokeys.StartsAreSpaced | bootloader/main.c:764-805 | over every run of boots, failures, power losses, payloads and outside changes, two starts of a revision have between them an outside change of the marker, a seen completion, another revision's marker or an unreadable marker |
| Autokeys.OneStart | README.md:28 | without one of these a revision starts Lockpick once at most |
| Autokeys.RepeatsJustWhenUnreadable | bootloader/main.c:783-784 | with the exact marker there, a boot starts Lockpick again if and only if it may start and opening or reading the marker fails |
| Autokeys.UnreadableMarkerRepeats | bootloader/main.c:751-762 | a run of two boots that starts Lockpick twice that way |
| Autokeys.Card.MarkerMatches | bootloader/main.c:751-762 | the marker matches exactly when it can be read and its content is the revision and nothing more |
| Autokeys.Card.FindKeys | bootloader/main.c:769-771 | one of the two key files was found and is not empty |
| Autokeys.Card.WriteAndLaunch | bootloader/main.c:788-804 | files and events from the creation of the attempt marker on |
| Autokeys.Card.AutokeysRun | bootloader/main.c:764-805 | files and events are those of the boot, operation by operation |
| BootSelect.Launcher.ReadEntry | bootloader/main.c:900-911 | the last key of each kind wins |
| BootSelect.Launcher.GetIniSecFromId | bootloader/main.c:661-689 | selects a section just when its first id key is the identifier; otherwise resets what it read |
| BootSelect.Launcher.ReadConfig | bootloader/main.c:854-878 | every known setting is that of its last key |
| BootSelect.Launcher.TakeConfig | bootloader/main.c:853-884 | the settings are those of the section, with the number and the list flag of the boot configuration when it overrides them |
| BootSelect.SettingsOfConfig | bootloader/main.c:854-884 | under an override the number is b_cfg.autoboot and the list flag b_cfg.autoboot_list; every other setting is that of its last key and nothing else changes |
| BootSelect.SeesConfigIs | bootloader/main.c:849-914 | when the section named config is reached |
| BootSelect.LastIs | bootloader/main.c:854-878 | the value of a key is that of its last occurrence |
| BootSelect.CStringIs | bootloader/main.c:826-828 | the identifier ends before its first terminator |
| BootSelect.Launcher.MainSections | bootloader/main.c:843-917 | the loop selects the section of the specification and sets what belongs to it, with or without `config` first |
| BootSelect.Launcher.ListSections | bootloader/main.c:934-963 | the same for the list, where sections named `config` do not count |
| BootSelect.Launcher.AutoLaunch | bootloader/main.c:819-968 | the selection over both sources, for every outcome of parsing |
| BootSelect.NumberedEntry | bootloader/main.c:843-963 | with `config` first, number n, that of the boot configuration under an override and of the file otherwise, selects exactly the n-th later choice, or the n-th of the list when the list flag is set, or none |
| BootSelect.EntryAtPosition | bootloader/main.c:843-917 | wherever `config` stands, a section is selected by number if and only if it is a choice with that many choices before it, `config` among them |
| BootSelect.EntryById | bootloader/main.c:892-963 | an identifier selects the first matching section across both sources |
| BootSelect.NothingLeaks | bootloader/main.c:661-689 | logo, emuMMC path and its disabling come from the selected section alone |
| BootSelect.OneIdIsWhole | bootloader/main.c:665-673 | a selected section with one id key is read to its end |
| BootSelect.ScanSplit | bootloader/main.c:665-673 | where the scan stops, and that it passes an id key just when the first one matches |
| BootSelect.AutokeysEnabled | bootloader/main.c:726-746 | the last `autokeys` of the first `config` section, or enabled |
| BootSelect.AutokeysReadersAgree | bootloader/main.c:872-873 | both readers of that key agree |
| Pllc4.ListedRateGivesItsClock | bdk/soc/clock.c:739-800 | every listed rate announces the frequency its register value gives, and that is the requested one or up to a twentieth slower |
| Pllc4.ListedRates | bdk/soc/clock.c:739-800 | which rates are listed, which need the PLL and which take its low-jitter path |
| Pllc4.StepController | bdk/soc/clock.c:819-957 | enabling leaves a controller active at the requested rate, a new rate keeps it on or off, disabling takes it off the clock and into reset |
| Pllc4.StepFrame | bdk/soc/clock.c:819-957 | a call leaves every other controller as it was |
| Pllc4.StepInv | bdk/soc/clock.c:730-957 | every call keeps the invariant on mask, cache and registers |
| Pllc4.RunInv | bdk/soc/clock.c:586-957 | after any calls, from a start with the PLL on or off, every enabled controller with a PLLC4 source holds its use bit and the PLL runs with its dividers set, as it does while any use bit is set |
| Pllc4.UseBitsAreHolders | bdk/soc/clock.c:586-625 | a use bit is set just when the history of calls makes its controller hold the PLL |
| Pllc4.PoweredWhileHeld | bdk/soc/clock.c:586-626 | the PLL runs while some controller holds it, is powered down when none does any more, and is as it was found when none ever did |
| Pllc4.NeverAsked | bdk/soc/clock.c:805-807 | calls that never ask for 100 MHz, 200 MHz or 400 MHz leave the PLL as it was found |
| Pllc4.ActiveClock | bdk/soc/clock.c:802-814 | an active controller is clocked at the frequency its table entry announces |
| Pllc4.CachedIsReprogrammed | bdk/soc/clock.c:819-823 | a cached answer equals reprogramming if and only if the rate needs no PLL or the controller still holds it |
| Pllc4.ClockDriver.StartPll | bdk/soc/clock.c:593-606 | the PLL runs with its dividers set, and nothing hung on it during the writes |
| Pllc4.ClockDriver.SwitchClock | bdk/soc/clock.c:674-707 | a clock is switched on only when its source runs |
| Pllc4.ClockDriver.EnablePllc4 | bdk/soc/clock.c:586-609 | sets the use bit and leaves the PLL running; no controller loses its clock on the way |
| Pllc4.ClockDriver.DisablePllc4 | bdk/soc/clock.c:611-626 | powers the PLL down only with the last use bit |
| Pllc4.ClockDriver.ConfigClockHost | bdk/soc/clock.c:730-817 | programs the rate, caches it and sets the use bit before the source |
| Pllc4.ClockDriver.ConfigClockSource | bdk/soc/clock.c:819-847 | a listed request is answered with the clock its register gives, at most a twentieth below the request, cached or not; safe after every register write |
| Pllc4.ClockDriver.EnableClock | bdk/soc/clock.c:927-950 | the controller is active at the requested rate; safe after every register write |
| Pllc4.ClockDriver.DisableClock | bdk/soc/clock.c:952-958 | is the step of the specification, safe after every register write |

## Left out

- `_heap.last`, which the modelled build never reads, `heap_set`, `calloc` and the printing of `heap_monitor`; `heap_monitor` needs a non-empty heap.
- The build with `BDK_MALLOC_NO_DEFRAG`, which the Makefile of hekate selects for the bootloader; the allocator is that of the build without it.
- Heap.Allocator.Malloc: assumes that addresses do not wrap around; the source has no limit on the heap's size.
- Heap.Allocator.Free: an address whose preceding word happens to hold the used magic without being a live payload is the caller's fault, as in the source.
- The address jump of the T210B01 fuses (bdk/soc/fuse.c:361-367) and the template's relocation.
- FuseChain.ReadEvpThunk: a group whose patch count reaches its size ends the walk with a status of its own, where the source copies with a length that wrapped around.
- The first test of `fuse_check_patched_rcm`, on the chip and the software reserve word (bdk/soc/fuse.c:489-491).
- FuseChain.CheckPatchedRcm: chains that leave the fuse array are outside its precondition, since the source reads other registers there.
- Enabling and disabling the SMMU, its registers, flushes and heap reset, and `smmu_domain_bypass`.
- Smmu.Mmu.Map: as in Smmu.Mmu.MapPage, where a slot holds a permitted 4MB region the source writes into that region's memory; the model drops the request there and requires that the region is not the table heap.
- Smmu.Mmu.MapPage: see Smmu.Mmu.Map; the region's frame must not be a page of the table heap.
- The security engine's registers, key slots other than the one in use, caches and waits; an engine operation works, or fails and leaves its destination in any state.
- Partial blocks, which the source rules out for XTS by assumption.
- The weekday, which is computed from the day of the month, the RTC registers and the 12-hour mode.
- The parser of ini files, `atoi`, and everything `_auto_launch` does with the selected entry.
- BootSelect.NothingLeaks: sections with several id keys, for which BootSelect.ScanSplit says how far they are read.
- The check for a power-off requested by the operating system (bootloader/main.c:919-920) and the corruption protection of the bootloader directory.
- What Lockpick does beyond leaving the attempt marker alone (res/lockpick-autokeys.patch).
- Pllc4.RunInv: a controller left enabled on PLLC4 before the first call is outside its precondition, since bdk/soc/clock.c:597 stops the PLL under it.
- The frequency relaxation of the system clock, delays, and the waits for the PLL lock; the register writes of the legacy timeout clock are one write.
