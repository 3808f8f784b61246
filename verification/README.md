# Verified models of the stateful parts of U-Boot

This project models, in Dafny, the components of the tree that keep state and are hard to get right,
and proves what they are for. `dafny verify dfyconfig.toml` checks everything.

| files | component |
|---|---|
| `HeapLayout` `HeapRings` `HeapTiles` `HeapModel` `HeapMoves` `HeapOps` `HeapSearch` `HeapResize` `Allocator` `HeapTheorems` `HeapClient` | the allocator `dlmalloc.c`: malloc, free, realloc, memalign, malloc_trim, extending `top` |
| `EnvFlash` | the environment in two flash sectors, safe against power failure |
| `EnvStore` `EnvSpi` | the packed environment buffer with setenv and getenv, and its persistence in SPI flash |
| `Kermit` | the Kermit receiver of `loadb` |
| `BadBlocks` | the bad block mapping table of the NAND driver |
| `FlashBanks` | sector selection, protection and writing of NOR flash |
| `CommandLine` `DosPartitions` `ItemLists` | separators, quotes and macros; DOS partition chains; lists without duplicates |

## How the models are built

**Allocator.** Memory is a map from byte addresses, multiples of 4, to words; the routines of
`class Allocator` store to it in the order of the original. `av_` is at address 8. `Heap` adds the tiling
and the bin lists that memory encodes; `Consistent` in `HeapModel` is the invariant: chunks tile the arena
and are aligned and at least MINSIZE long, boundary tags and footers agree with the tiling, no free chunk
borders another one or `top`, every free chunk is in the bin it belongs to or is the last remainder, bins
are rings in descending order of size, and a block of bins with a chunk is marked in `binblocks`. `HeapOK`
says the same in a recursive form, which keeps it folded in proofs. SIZE_SZ is 4, MINSIZE 16, pages have
4096 bytes, HAVE_MMAP is not defined, `top_pad` is 0. `sbrk` is that of `lib_mips/board.c`; nobody else
calls it. It reports failure with 0 although `malloc_extend_top` compares with -1; failure is noticed
because 0 is below the old end. Blocks of bins are addressed by bit position in the search, where the
original shifts a one-bit mask. MALLOC_COPY is modelled as copying words upwards.

**Environment in flash.** The two sectors, the flags (programming can only clear bits) and the order of the
flash operations are modelled; power may fail before every operation or in the middle of it. A torn erase,
data or checksum write leaves a sector that fails its checksum; writing a flag byte is atomic; an erased
sector fails its checksum; the checksum function is arbitrary otherwise. A save takes effect when its
checksum is complete. (Data whose checksum is the erased word takes effect one operation earlier; the
definition `Commits` says so.) When both copies have good checksums but flags that no branch of env_init
covers, the global data keep their cleared values and the default environment is used.

**Environment buffer.** The buffer is an array of characters. Names have no NUL and no '=', values no NUL.
`CONFIG_ENV_OVERWRITE` is not defined in `include/configs/rt2880.h`, so "serial#" and "ethaddr" can be set
only once. `env_crc_update` sums 0x1000-4 bytes, the loaders ENV_SIZE; with the CFG_ENV_SIZE of that
configuration these are the same, and the model has one length.

**Kermit.** The input is the sequence of characters on the line. The receiver writes data while a packet
comes in; the theorems say that memory nevertheless ends up right for every pattern of duplicates and of
damage that is noticed after the sequence number, provided the last copy of each packet is good. Characters
are integers; those of a packet are bytes (`Kermit.EncodedBytes`), and the original masks what it adds up
with 0xff and what it tests for a control character with 0xE0, so that the sign of its `char` has no effect.

**Bad blocks.** Whether the n-th operation of the device fails, depending on its block, and what a failing
operation leaves behind are arbitrary functions. Marking a block bad takes effect, reading succeeds, and a page can be written only
once after an erase.

## Where the code does not do what it is meant to do

Each of these is part of a contract or a lemma of its own.

- `request2size` turns requests above 0x7FFFFFF4 into minimal chunks (`HeapLayout.Request2SizeFits`).
- realloc's test for room in `top` always passes when the padded size is 0x7FFFFFF0 or more
  (`HeapLayout.TopTestWraps`); for a block next to `top` the heap is then destroyed
  (`HeapTheorems.TopTestBreaks`).
- memalign's padded request can wrap (`HeapLayout.AlignedRequestRoom`); the chunk is then always too small
  (`HeapTheorems.UnfitTooSmall`).
- malloc_trim computes the amount to give back in unsigned arithmetic. When the padding exceeds `top` by
  2^31 - 16 bytes or more (`AllocatorModel.TrimAmount`), the amount can be a page or more. If it leaves a minimal
  chunk, only the padding is lost (`AllocatorModel.Allocator.Trim`). If not, a wrong size of `top` is stored and
  the heap is destroyed (`HeapTheorems.TrimBreaks`); a failure of `sbrk` goes unnoticed, because it is 0 and not -1
  (`AllocatorModel.Allocator.TrimUnnoticed`). `AllocatorModel.TrimCases` has a padding of each kind.
- Flags that are not 0, 1 or 0xFF, in two good copies, make the redundant environment fall back to the
  default (`EnvFlash.UnsoundFails`); saving repairs that (`EnvFlash.CommittedFound`).
- A Kermit error before the sequence number, or a damaged last copy, loses an acknowledged packet
  (`Kermit.EarlyErrorLoses`, `Kermit.SentRuns`). A packet whose length says 1 or 2, too short for a block check, is
  taken for one without data (`Kermit.WireHeader`).
- `find_available_block` tests the wrong variable when it erases the pool: the block of the table is erased
  too (`BadBlocks.Table.ErasePool`), and until the table is rewritten a start finds none
  (`BadBlocks.Table.BadIsLost`). If that erase fails, the block is marked bad and the table written to it all
  the same. (With the table in the first block of the pool nothing is erased; but it is there only when no
  other block can be taken, which is part of `Valid`.)
- `update_bmt` for a mapped pool block may choose that failing block as the new place of the table, because
  it is marked bad only afterwards. `BadBlocks.Table.Sure` says before the call when neither can happen on any
  device, `BadBlocks.Table.Unlucky` that otherwise some device makes it happen, and
  `BadBlocks.LostAfterTwoFailures` is a run that does.
- `flash_write` does not see the protection of a sector that ends at the last address (`FlashBanks.TouchedIs`) and
  writes to it (`FlashBanks.Flash.WritesProtected`, `FlashBanks.ProtectedIsWritten`). A range that wraps around to
  an earlier bank is reported as written although nothing is (`FlashBanks.Flash.FlashWrite`).
- `flash_fill_sect_ranges` accepts a range that ends behind the last bank (`FlashBanks.FineExactly`), and goes on at
  address 0 behind a sector that ends at the last address (`FlashBanks.WrapsToZero`, and
  `FlashBanks.OutsideExactly` for the exact condition).
- `process_macros` does not terminate an output that fills the buffer (`CommandLine.ProcessMacros`).

## Model

| member | source | states |
|---|---|---|
| HeapClient.Client.Run | uboot/common/dlmalloc.c:2133-2839 | over every run of malloc, memalign, realloc, free and stores by the program, up to an operation whose arithmetic goes wrong, the heap stays consistent, the blocks hold step by step what a store of independent arrays would hold, and a request fails if and only if the heap has no room for it |
| HeapClient.Client.Step | uboot/common/dlmalloc.c:2133-2839 | one such operation changes only the named slot of the store of independent arrays; an allocation leaves its slot empty, and a resize its block as it was, if and only if there is no room |
| HeapClient.Client.IsSafe | uboot/common/dlmalloc.c:2596-2773 | the two sums that can go wrong, a resize next to `top` and an aligned request, are recognised before the call |
| HeapClient.UnnamedKept | uboot/common/dlmalloc.c:2133-2839 | in every run, a block that no operation names has its contents unchanged at the end |
| HeapClient.Client.Read | uboot/common/dlmalloc.c:2133-2839 | reading a word of a live block gives what the program last stored there |
| HeapClient.Client.AllReleased | uboot/common/dlmalloc.c:2394-2483 | when every block has been freed, the arena is a single `top` chunk again |
| HeapTheorems.OnlyTopRemains | uboot/common/dlmalloc.c:1619-1734 | a heap without live blocks consists of `top` alone and all bins are empty |
| HeapTheorems.ArenaTiled | uboot/common/dlmalloc.c:1619-1734 | every address of the arena is in exactly one chunk, the walk over the chunks visits all of them and their sizes add up to `sbrked_mem` |
| HeapTheorems.NoFreeNeighbours | uboot/common/dlmalloc.c:1640-1675 | no two free chunks touch and none borders `top` |
| HeapTheorems.ChecksPass | uboot/common/dlmalloc.c:1619-1707 | every chunk of a heap that satisfies the invariant passes do_check_chunk, and do_check_free_chunk or do_check_inuse_chunk by its kind |
| HeapTheorems.ChecksMalloced | uboot/common/dlmalloc.c:1709-1734 | the result of malloc passes do_check_malloced_chunk |
| HeapTheorems.MallocPromise | uboot/common/dlmalloc.c:2133-2366 | a result of malloc is 8-aligned, lies inside the arena with its end at least 12 bytes below the break, is disjoint from every live block, has room for the request if and only if that is at most 0x7FFFFFF4, and no live block moved or changed |
| HeapTheorems.LiveDisjoint | uboot/common/dlmalloc.c:1619-1734 | the user bytes of two live blocks never overlap |
| HeapTheorems.TopTestBreaks | uboot/common/dlmalloc.c:2596-2606 | for a block that borders `top` and any size whose sum with MINSIZE reaches 2^31, the test of realloc passes, and what is stored then is no consistent heap of this arena |
| HeapTheorems.UnfitTooSmall | uboot/common/dlmalloc.c:2772-2837 | for every power of two, whenever the sum of memalign does not fit, the chunk that it obtains is smaller than the request |
| HeapTheorems.InitialOK | uboot/common/dlmalloc.c:1440-1490 | bins linked to themselves, an empty block index and one `top` chunk satisfy the heap invariant |
| HeapLayout.Request2SizeFits | uboot/common/dlmalloc.c:1297-1300 | the padded size is a legal chunk size with room for the request if and only if the request is at most 0x7FFFFFF4; above that it is MINSIZE |
| HeapLayout.Request2SizeLeast | uboot/common/dlmalloc.c:1297-1300 | for every request up to 0x7FFFFFF4 the padded size is the least multiple of 8, from MINSIZE on, that has room for it |
| HeapLayout.Request2SizeWraps | uboot/common/dlmalloc.c:1297-1300 | a request of 0x7FFFFFF5 bytes is given 12 usable bytes |
| HeapLayout.BinIndexMonotone | uboot/common/dlmalloc.c:1515-1522 | larger chunks never go to a lower bin, all sizes go to bins 2 to 126, and a bin below 64 holds one size only |
| HeapLayout.BinIsNarrow | uboot/common/dlmalloc.c:1515-1522 | the bins for sizes 8, 64, 512, 4096, 32768 and 262144 bytes apart begin at the sizes the macro means them to, the last one at half a megabyte, and the sizes in any other one are closer together than that |
| HeapLayout.SetBitIs | uboot/common/dlmalloc.c:1558-1562 | setting or clearing the bit of a block of bins changes that bit only |
| HeapLayout.PowerCompares | uboot/common/dlmalloc.c:2252 | comparing the bit of a block with `binblocks` asks whether a block at or above it is marked |
| HeapLayout.TopTestWraps | uboot/common/dlmalloc.c:2598-2600 | the signed test of realloc for room in `top` is right if and only if the padded size plus MINSIZE stays below 2^31; beyond that it always passes although there is no room |
| HeapLayout.MaskRounds | uboot/common/dlmalloc.c:2797 | masking with the negation of a power of two rounds down to a multiple of it |
| HeapLayout.AlignedRequestRoom | uboot/common/dlmalloc.c:2772-2773 | the request memalign passes on is refused or leaves room for the block at any offset if and only if its sum neither wraps nor lands in the requests that request2size gets wrong; otherwise a minimal chunk is allocated for it |
| HeapSearch.LastFitIsSmallest | uboot/common/dlmalloc.c:2280-2305 | the first chunk that fits, walking a bin from its small end, is the smallest one that fits among all binned chunks once the lower bins have none |
| HeapSearch.HigherBinsFit | uboot/common/dlmalloc.c:2247-2253 | every chunk in a bin above that of the request is large enough |
| HeapSearch.SkipBin | uboot/common/dlmalloc.c:2280-2309 | a bin without a fitting chunk can be passed over |
| HeapSearch.SkipUnmarked | uboot/common/dlmalloc.c:2255-2267 | an unmarked block of bins holds no chunk and can be passed over |
| HeapSearch.NoneMarked | uboot/common/dlmalloc.c:2252 | when no block at or above the request is marked, no binned chunk fits |
| HeapSearch.SearchChosen | uboot/common/dlmalloc.c:2247-2337 | the chunk found by the block search is the smallest fitting chunk of the heap malloc started with |
| HeapSearch.NothingChosen | uboot/common/dlmalloc.c:2247-2337 | when the block search finds nothing, no free chunk but `top` fits |
| HeapSearch.FreeServes | uboot/common/dlmalloc.c:2157-2337 | a free chunk that was chosen was large enough, so that `top` is used only when there is none |
| HeapSearch.RefiledReady | uboot/common/dlmalloc.c:2242-2245 | putting the last remainder in a bin does not change which chunks fit |
| HeapSearch.PagesLeast | uboot/common/dlmalloc.c:1976-1984 | what the arena is extended by is the least number of whole pages that holds the request and a minimal chunk |
| AllocatorModel.Allocator.constructor | uboot/common/dlmalloc.c:1440-1490 | an arena with one `top` chunk and empty bins is a consistent heap without live blocks |
| AllocatorModel.Allocator.Malloc | uboot/common/dlmalloc.c:2133-2366 | keeps the heap invariant; a result is a new block of at least the padded size and less than MINSIZE more, all other blocks untouched; it comes from the smallest fitting binned chunk, a last remainder that fits, or `top` when nothing else fits; 0 if and only if the request is negative as a `long`, or no free chunk fits, `top` is too small and the arena cannot grow by the pages needed; then no block has changed; the break moves, by the pages needed, if and only if no free chunk fits and `top` is too small |
| AllocatorModel.Allocator.Serve | uboot/common/dlmalloc.c:2157-2365 | the same for a padded size: exact fit, last remainder, block search, then `top`; nothing is found if and only if there is no room |
| AllocatorModel.Allocator.UseTop | uboot/common/dlmalloc.c:2340-2364 | the front of `top` serves the request, extended first if it must be; it fails if and only if `top` is too small and the arena cannot grow by the pages needed |
| AllocatorModel.Allocator.SmallFit | uboot/common/dlmalloc.c:2159-2185 | takes a chunk of exactly the size or the next one, or proves that the bins up to there have no fit |
| AllocatorModel.Allocator.LargeFit | uboot/common/dlmalloc.c:2186-2213 | takes a fit without remainder from the bin of the size, or says from which bin on to search |
| AllocatorModel.Allocator.TryLastRemainder | uboot/common/dlmalloc.c:2215-2245 | splits, exhausts or bins the last remainder; if it does not serve, the set of fitting chunks is the same and the last remainder bin is empty |
| AllocatorModel.Allocator.ScanBlock | uboot/common/dlmalloc.c:2269-2309 | scans the bins of one block; takes the smallest fit or leaves only higher bins |
| AllocatorModel.Allocator.ClearIfEmpty | uboot/common/dlmalloc.c:2311-2322 | clears the bit of a block only if all of its bins are empty |
| AllocatorModel.Allocator.SearchBlocks | uboot/common/dlmalloc.c:2269-2337 | finds the smallest fitting binned chunk or proves that there is none |
| AllocatorModel.Allocator.FirstMarked | uboot/common/dlmalloc.c:2252-2267 | moves to the first marked block without passing over a fitting chunk |
| AllocatorModel.Allocator.FirstFit | uboot/common/dlmalloc.c:2191-2209 | walks a bin from its small end to the first chunk that fits |
| AllocatorModel.Allocator.UseFront | uboot/common/dlmalloc.c:2285-2295 | the front of the chunk goes into use, the rest becomes the last remainder, the invariant is kept |
| AllocatorModel.Allocator.UseFrontOfRemainder | uboot/common/dlmalloc.c:2222-2231 | the front of the last remainder goes into use and the rest takes its place |
| AllocatorModel.Allocator.UseWhole | uboot/common/dlmalloc.c:2174-2181 | a whole binned chunk goes into use |
| AllocatorModel.Allocator.RefileRemainder | uboot/common/dlmalloc.c:2233-2245 | the last remainder moves to the bin of its size, in size order |
| AllocatorModel.Allocator.Frontlink | uboot/common/dlmalloc.c:1766-1793 | links a chunk into its bin ahead of the chunks that are not larger, behind the larger ones, and marks the block |
| AllocatorModel.Allocator.FindPlace | uboot/common/dlmalloc.c:1779-1788 | the place it finds keeps the bin in descending order |
| AllocatorModel.Allocator.Unlink | uboot/common/dlmalloc.c:1798-1804 | the two neighbours point at each other and nothing else changes |
| AllocatorModel.Allocator.LinkLastRemainder | uboot/common/dlmalloc.c:1808-1812 | the bin of the last remainder and the chunk point at each other |
| AllocatorModel.Allocator.Sbrk | uboot/lib_mips/board.c:495-505 | moves the break within the arena or fails without a change |
| AllocatorModel.Allocator.ExtendTop | uboot/common/dlmalloc.c:1959-2065 | if the pages for the request fit between the break and the end of the arena, the break moves up by them and `top` has room for the request; otherwise nothing changes |
| AllocatorModel.Allocator.CarveTop | uboot/common/dlmalloc.c:2340-2365 | the front of `top` goes into use and the rest stays `top` |
| AllocatorModel.Allocator.Free | uboot/common/dlmalloc.c:2394-2483 | free(0) changes nothing; otherwise exactly that block goes out of use, every other block keeps its place and contents, and the invariant is kept. A block that does not border `top` is one free chunk afterwards with the free chunks around it, the last remainder if one of them was and in the bin of its size otherwise, and the break stays; a block that does joins `top`, and if that becomes 128 kB large, whole pages are given back up to one page and a minimal chunk |
| AllocatorModel.Allocator.FreeToTop | uboot/common/dlmalloc.c:2430-2447 | a block at the end joins `top`, with the free chunk before it if there is one |
| AllocatorModel.Allocator.FreeToBin | uboot/common/dlmalloc.c:2449-2483 | a block joins its free neighbours and is filed as the last remainder if one of them was, and otherwise in the bin of its size |
| AllocatorModel.Allocator.JoinBackward | uboot/common/dlmalloc.c:2453-2463 | joins the free chunk before the block, which leaves its bin unless it is the last remainder |
| AllocatorModel.Allocator.JoinBinned | uboot/common/dlmalloc.c:2465-2476 | joins the free chunk after the block and takes it out of its bin |
| AllocatorModel.Allocator.Trim | uboot/common/dlmalloc.c:2974-3027 | for every padding for which the heap stays sound (TrimSound: the amount is below a page, or leaves a minimal `top`): gives back whole pages, touches no block and says whether anything was released; the padding is kept if and only if TrimFits holds; then something is released if and only if `top` is more than a page larger than padding and MINSIZE, and at most a page more is left |
| AllocatorModel.TrimCases | uboot/common/dlmalloc.c:2984-2990 | for a `top` of ten pages, a padding that breaks the heap, and one that is merely not kept |
| AllocatorModel.Allocator.TrimUnnoticed | uboot/common/dlmalloc.c:3001-3020 | `sbrk` refuses the amount exactly when the arena is not that long, with 0, which is not the -1 that malloc_trim compares with |
| HeapTheorems.TrimBreaks | uboot/common/dlmalloc.c:3001-3020 | TrimSound is necessary: for any larger amount, what malloc_trim stores as the size of `top` is no consistent heap of this arena, wherever the break is |
| AllocatorModel.TrimAmount | uboot/common/dlmalloc.c:2984-2990 | the amount computed in unsigned arithmetic is a number of pages; it leaves the padding and a minimal chunk if and only if the padding does not exceed `top` by 2^31 - 16 bytes or more (up to where nothing is given back anyway), and then no further page could be given back |
| AllocatorModel.Allocator.Realloc | uboot/common/dlmalloc.c:2526-2720 | the block has room for the new size, less than MINSIZE more than the padded one, and keeps the first min(old usable, requested) bytes on every path; it stays where it is if it has room there, with the chunk behind it if need be, and else moves into the free chunk before it if that gives room, all other blocks are untouched and the invariant is restored; 0 if and only if the size is negative as a `long`, or neither the block with its neighbours nor any other chunk has room; then no block has changed |
| AllocatorModel.Allocator.GrowForward | uboot/common/dlmalloc.c:2590-2622 | grows into `top` or the free chunk after the block if and only if they have room, else leaves the heap alone |
| AllocatorModel.Allocator.GrowBackward | uboot/common/dlmalloc.c:2624-2675 | moves the block, with its contents, back into the free chunk before it, alone or together with what follows, if and only if there is room, else leaves the heap alone |
| AllocatorModel.Allocator.GrowBothWays | uboot/common/dlmalloc.c:2631-2663 | backward and forward at once, if and only if all three chunks together have room |
| AllocatorModel.Allocator.GrowIntoTop | uboot/common/dlmalloc.c:2598-2607 | the block takes the front of `top` and keeps its contents |
| AllocatorModel.Allocator.MoveBackIntoTop | uboot/common/dlmalloc.c:2636-2650 | moves back and takes the front of `top` |
| AllocatorModel.Allocator.MoveDown | uboot/common/dlmalloc.c:2659-2660 | an overlapping move towards lower addresses copies every word of the old contents |
| AllocatorModel.Allocator.GrowElsewhere | uboot/common/dlmalloc.c:2677-2697 | allocates, then merges with the new block if it follows the old one, or copies and frees; on failure the old block is intact |
| AllocatorModel.Allocator.SplitOff | uboot/common/dlmalloc.c:2701-2716 | what is beyond the new size is freed if it is a chunk, and the contents up to the new size stay |
| AllocatorModel.Allocator.CopyWords | uboot/common/dlmalloc.c:2644 | copies words upwards, correctly also when the ranges overlap and the target is lower |
| AllocatorModel.Allocator.Memalign | uboot/common/dlmalloc.c:2745-2839 | for every power of two: the result is a multiple of it, a new block with room for the request and less than MINSIZE more, leader and trailer are given back, all other blocks are untouched and the invariant is restored; it lies in the chunk that malloc takes for the larger request, at its start if that is aligned and otherwise at the first multiple that leaves room for a chunk before it; 0 if and only if the larger request fails; then no block has changed |
| AllocatorModel.Allocator.LeadSize | uboot/common/dlmalloc.c:2797-2801 | the part to skip is the least one, from MINSIZE on, that leads to a multiple of the alignment |
| AllocatorModel.Allocator.MaskDown | uboot/common/dlmalloc.c:2797-2799 | the mask gives the multiple of the alignment at or below an address |
| AllocatorModel.Allocator.FreeLeader | uboot/common/dlmalloc.c:2800-2819 | cuts the leader off, at least MINSIZE long, and frees exactly it |
| AllocatorModel.Allocator.FreeTail | uboot/common/dlmalloc.c:2824-2834 | frees exactly what is beyond the padded size |
| EnvFlash.CrashAtomic | uboot/common/env_flash.c:100-256 | for every run of boots and saves, each cut by power failure at any flash operation, from flash with usable flags: the next boot selects exactly the data of the last save that took effect, or what it selected before |
| EnvFlash.CommittedFound | uboot/common/env_flash.c:100-256 | from any contents of the flash, once a save has taken effect the boot selects the data of the last such save, never a torn copy and never the default |
| EnvFlash.UnsoundFails | uboot/common/env_flash.c:118-145 | the condition on the initial flags is necessary: for all others there is a run without an effective save after which the boot finds something else |
| EnvFlash.SaveCommits | uboot/common/env_flash.c:208-216 | from the moment the checksum is written, the boot selects the new data wherever power fails afterwards |
| EnvFlash.SaveAborts | uboot/common/env_flash.c:197-210 | a save cut before that changes nothing a boot can see |
| EnvFlash.BootKeeps | uboot/common/env_flash.c:363-413 | repairing the flags, interrupted or not, does not change what is selected |
| EnvFlash.BootArms | uboot/common/env_flash.c:363-413 | after any complete boot the current copy cannot be mistaken for a fresh one |
| EnvFlash.EnvInit | uboot/common/env_flash.c:100-151 | a selected sector always passes its checksum, and nothing is selected exactly when env_valid stays 0 |
| EnvFlash.EnvInitPrefers | uboot/common/env_flash.c:118-145 | a copy alone with a good checksum is selected; of two good ones the one flagged 0xFF, else the active one beside an obsolete one; with equal flags the first one; with any other flags none |
| EnvFlash.RedundantEnv.SaveEnv | uboot/common/env_flash.c:154-256 | the flash afterwards is, for every moment of power failure, the one given by the steps erase, data, checksum, old flag, new flag; the sectors swap roles only if all were done |
| EnvFlash.RedundantEnv.EnvRelocateSpec | uboot/common/env_flash.c:363-413 | retires the other copy before it activates this one, and loads this one |
| EnvFlash.RedundantEnv.Boot | uboot/common/env_common.c:203-266 | the environment in memory is the data env_init selects, or the default, with a matching checksum |
| EnvFlash.RedundantEnv.Play | uboot/common/env_flash.c:100-413 | any number of sessions: what the next boot selects is the data of the last save that took effect |
| EnvFlash.RedundantEnv.PlayAndBoot | uboot/common/env_flash.c:100-413 | after any run with an effective save, a boot loads the data of the last one |
| EnvFlash.ProgramErased | uboot/common/env_flash.c:205-210 | programming erased flash stores the data as it is |
| EnvStore.SetVarMeaning | uboot/common/cmd_nvedit.c:157-336 | setting a variable gives it the joined value, or deletes it when there is no value or no room; every other variable is as before, names stay unique; the code is 1 if and only if the variable is there and is serial# or ethaddr, or the lengths of the other variables, the name and the values with their separators exceed the size |
| EnvStore.JoinParts | uboot/common/cmd_nvedit.c:325-331 | in the joined value each value lies behind the lengths of the earlier ones, with a blank before it |
| EnvStore.RemoveFacts | uboot/common/cmd_nvedit.c:185-282 | deleting a name forgets it and nothing else |
| EnvStore.RemoveAll | uboot/common/cmd_nvedit.c:185-282 | deleting keeps all other entries in their order |
| EnvStore.DoubleNul | uboot/common/cmd_nvedit.c:305-306 | in a packed environment a double NUL is found only at the end |
| EnvStore.EntryAt | uboot/common/cmd_nvedit.c:177-183 | each entry is in the buffer where the lengths of the entries before it say, followed by a NUL |
| EnvStore.Environment.EnvMatch | uboot/common/cmd_nvedit.c:603-613 | gives the index of the value if and only if the names are equal |
| EnvStore.Environment.GetEnv | uboot/common/cmd_nvedit.c:532-552 | finds the value of the variable in the ordered map, as a NUL-terminated string in the buffer, or nothing if the map has none |
| EnvStore.Environment.FindVar | uboot/common/cmd_nvedit.c:177-183 | finds the entry with the name, or proves that there is none |
| EnvStore.Environment.DeleteAt | uboot/common/cmd_nvedit.c:267-281 | the buffer then holds the other entries, in order, ended by a double NUL |
| EnvStore.Environment.MoveDown | uboot/common/cmd_nvedit.c:274-281 | the overlapping move copies everything up to the double NUL |
| EnvStore.Environment.FindEnd | uboot/common/cmd_nvedit.c:305-308 | the place for a new entry is right behind the last one |
| EnvStore.Environment.Needed | uboot/common/cmd_nvedit.c:313-317 | the length computed for the overflow test is that of the encoding |
| EnvStore.Environment.Append | uboot/common/cmd_nvedit.c:302-336 | the entry is appended last if and only if the whole encoding fits, else nothing is written and 1 is returned |
| EnvStore.Environment.WriteEntry | uboot/common/cmd_nvedit.c:322-333 | name, '=', the values joined with blanks, and a double NUL are written behind the old entries |
| EnvStore.Environment.SetEnv | uboot/common/cmd_nvedit.c:157-336 | the buffer goes from the encoding of one ordered map to that of the map with the variable set, deleted, or left alone if it may be set only once; 1 is returned if and only if the lengths exceed the buffer or then (Refused), else 0; the checksum is current after 0 and untouched otherwise |
| EnvSpi.Board.SaveEnv | uboot/common/env_spi.c:81-130 | the environment window of the flash holds checksum and data, every other byte is unchanged |
| EnvSpi.Board.Boot | uboot/common/env_spi.c:58-77 | memory holds the saved data if its checksum matches, else the default environment |
| EnvSpi.Board.SaveAndBoot | uboot/common/env_spi.c:58-140 | an environment with a current checksum is the same ordered map after saving and a reboot |
| EnvSpi.Board.SetMany | uboot/common/cmd_nvedit.c:157-336 | any run of setenv calls leaves the buffer encoding the map those calls describe, with a current checksum if the last one returned 0; that is 1 if and only if the last call is refused on what the earlier ones left |
| EnvSpi.Board.SetSaveBoot | uboot/common/env_spi.c:58-140 | any run of setenv calls whose last one returned 0 survives saving and a reboot, and bytes outside the window are unchanged |
| EnvSpi.WordRoundTrip | uboot/common/env_spi.c:66-72 | the stored checksum word is read back |
| Kermit.TransferCorrect | uboot/common/cmd_load.c:819-995 | for every transfer with consecutive numbers mod 64 and any duplicated or damaged copies, memory at break holds the unquoted data of every packet exactly once, and the answers are, copy by copy, a nack to a damaged one, the parameters to a send packet and an ack to any other one, each with the number of its packet |
| Kermit.FileArrives | uboot/common/cmd_load.c:819-995 | a quoted file, cut into data packets anywhere, is in memory at the end, the size is its length, and every copy was answered |
| Kermit.SentRuns | uboot/common/cmd_load.c:899-991 | of any number of copies of a packet, the packet counts if and only if the last copy is good; each copy is answered as it deserves |
| Kermit.BreakRuns | uboot/common/cmd_load.c:975-991 | the first good copy of a break packet ends the transfer, adds nothing and is the last one answered |
| Kermit.CopyHandled | uboot/common/cmd_load.c:899-991 | a good copy adds what the packet adds to what was there before its first copy, a damaged one nothing; the one is acknowledged, the other one refused |
| Kermit.EarlyErrorLoses | uboot/common/cmd_load.c:884-897 | an error before the sequence number takes back a packet that was acknowledged: its bytes are missing after the next packet; it is refused with the number of that packet, and the next packet is acknowledged all the same |
| Kermit.FeedWrites | uboot/common/cmd_load.c:709-724 | data characters write exactly what they stand for from the current address on, and nothing below it |
| Kermit.UnquoteConcat | uboot/common/cmd_load.c:709-724 | a quote character at the end of a packet applies to the first character of the next one |
| Kermit.QuoteRoundTrip | uboot/common/cmd_load.c:588-596 | unquoting undoes the quoting of every byte |
| Kermit.KtransByte | uboot/common/cmd_load.c:588-596 | a byte after the quote character stands for a byte |
| Kermit.KtransBits | uboot/common/cmd_load.c:588-596 | the translation is the one on bits |
| Kermit.QuoteMustBePlain | uboot/common/cmd_load.c:588-596 | this needs a quote character that the translation leaves alone, and no more |
| Kermit.EncodeParses | uboot/common/cmd_load.c:883-975 | a packet with its block checks, short or extended, is read back exactly and completely |
| Kermit.AcceptsWire | uboot/common/cmd_load.c:883-975 | whatever is accepted begins with a header that announces the data, short or extended with its own check, has printable characters only, and ends in the block check of all of it and the end character |
| Kermit.WireAccepted | uboot/common/cmd_load.c:883-975 | and everything of that form is accepted, with what follows left to read |
| Kermit.FlippedIsBad | uboot/common/cmd_load.c:949-980 | a packet in which one bit of the data is flipped is not accepted; it is a damaged copy in the sense of TransferCorrect |
| Kermit.CheckBits | uboot/common/cmd_load.c:945-971 | the block check is the low six bits of the sum plus its bits six and seven, cut to six bits |
| Kermit.CancelStops | uboot/common/cmd_load.c:871-882 | ^C before a packet cancels the transfer, and noise alone is waited out |
| Kermit.EncodedBytes | uboot/common/cmd_load.c:437-438 | every character of a packet on the line is a byte, so that neither the masks of the code nor the sign of `char` make a difference |
| Kermit.ParseStable | uboot/common/cmd_load.c:883-975 | what is read of a packet does not depend on what follows |
| Kermit.Loader.ReadData | uboot/common/cmd_load.c:949-966 | reads the announced number of characters, passing data on as it comes, and stops at a control character |
| Kermit.Loader.ReadExtended | uboot/common/cmd_load.c:925-948 | reads and checks an extended length |
| Kermit.Loader.ReadEnd | uboot/common/cmd_load.c:967-975 | accepts exactly a matching block check and the end character |
| Kermit.Loader.CheckSequence | uboot/common/cmd_load.c:899-916 | a repeated number returns to the checkpoint, a new one sets it |
| Kermit.Loader.ReadPacket | uboot/common/cmd_load.c:883-975 | reads a packet to its end or to the first error, with the effects on memory and state up to there |
| Kermit.Loader.EndPacket | uboot/common/cmd_load.c:975-991 | an error returns to the checkpoint and is refused, a good packet is acknowledged, a break ends the transfer; Kermit.CopyHandled says what that means |
| Kermit.Loader.HandleSendPacket | uboot/common/cmd_load.c:732-781 | the quote character is the sixth parameter, or '#' if there are fewer |
| Kermit.Loader.OnePacket | uboot/common/cmd_load.c:854-993 | one turn of the main loop is one step of the run |
| Kermit.Loader.KRecv | uboot/common/cmd_load.c:819-995 | the state at the end is that of the run of the packet machine over the input; the size is the number of bytes stored, 0 when cancelled |
| Kermit.Loader.LoadFile | uboot/common/cmd_load.c:819-995 | on the line of a transfer that carries a file, memory holds the file, its length is returned, and the replies are the answers to the copies |
| BadBlocks.PhysicalInjective | uboot/drivers/MT7620_bmt.c:975-995 | different system blocks are always in different places |
| BadBlocks.RoomLeft | uboot/drivers/MT7620_bmt.c:945-950 | as long as a pool block is free the table has room, so mapped_count stays within the pool |
| BadBlocks.ChecksumIs | uboot/drivers/MT7620_bmt.c:306-323 | the checksum is the sum of version, count and all bytes of the entries, cut to a byte |
| BadBlocks.FillIs | uboot/drivers/MT7620_bmt.c:375-396 | the table in flash has the entries of as many blocks as the pool has and 0xFF behind them, the signature, version 1 and the count |
| BadBlocks.FillReloads | uboot/drivers/MT7620_bmt.c:343-458 | a table written by fill_nand_bmt_buffer passes valid_bmt_data and reloads to the same mapping of every block |
| BadBlocks.OneByteNoticed | uboot/drivers/MT7620_bmt.c:306-323 | damage to any single byte of the table is noticed by the checksum |
| BadBlocks.DamageRefused | uboot/drivers/MT7620_bmt.c:343-373 | a copy of a written table with one wrong byte, in the signature, version, count, checksum or any entry, is not accepted |
| BadBlocks.ValidPlaces | uboot/drivers/MT7620_bmt.c:355-368 | a valid table leaves a block of the device where it is or sends it to a pool block |
| BadBlocks.UsedIs | uboot/drivers/MT7620_bmt.c:337-341 | a page counts as used exactly if its spare area is not blank |
| BadBlocks.AddEntry | uboot/drivers/MT7620_bmt.c:945-950 | a new entry moves only its block and keeps the mapping one-to-one |
| BadBlocks.ReplaceEntry | uboot/drivers/MT7620_bmt.c:930-944 | a replaced entry moves only its block and keeps the mapping one-to-one |
| BadBlocks.Table.IsBlockMapped | uboot/drivers/MT7620_bmt.c:326-335 | finds the entry that maps to a block, or proves that there is none |
| BadBlocks.Table.GetMapping | uboot/drivers/MT7620_bmt.c:975-995 | gives the place of a block |
| BadBlocks.Table.ErasePool | uboot/drivers/MT7620_bmt.c:475-512 | no block with data is erased; unless the table is in the first pool block, every good unmapped pool block ends up erased, the one of the table too, or is marked bad; nothing healthy is marked, a block that fails throughout is; if the table is in the first block, which it is only when no block can be taken, nothing is erased |
| BadBlocks.Table.FindAvailableBlock | uboot/drivers/MT7620_bmt.c:467-550 | returns the first or the last good, unmapped pool block that does not hold the table, 0 if and only if there is none; a healthy block that can be taken is never passed over from the start |
| BadBlocks.Table.MigrateFromBad | uboot/drivers/MT7620_bmt.c:566-634 | ends under every pattern of write and erase failures; the target holds the given data at the failing page and a copy of every other used page, no block with data is touched, 0 only if no block is left |
| BadBlocks.Table.MigratedHolds | uboot/drivers/MT7620_bmt.c:584-629 | what that means page by page: the given data at the failing page, the data of every page whose spare area is in use, with the number of the failing block of the system in the spare area, and blank pages elsewhere |
| BadBlocks.Table.CopyPages | uboot/drivers/MT7620_bmt.c:584-629 | one attempt: a complete copy, or the target is marked bad |
| BadBlocks.Table.WriteBmtToFlash | uboot/drivers/MT7620_bmt.c:636-680 | ends under every pattern of failures; the table is recorded where it was, with no block marked, or its old block is marked bad and it is in the last good unmapped pool block; it fails only if no block is left; a healthy block of the table keeps it |
| BadBlocks.Table.Remap | uboot/drivers/MT7620_bmt.c:929-950 | the failing block is replaced for its system block only, and the table stays valid |
| BadBlocks.Table.UpdateBmt | uboot/drivers/MT7620_bmt.c:900-960 | keeps the table valid; the system block moves to the first pool block that can be written, with its contents and the new page after a failed write, erased after a failed erase; all others stay where they were with their contents; it fails only if no block is left; the failing block is marked bad and, if the block of the table is good, the table is recorded there. That block is good whenever Sure holds before the call, whatever the device does; and, when the table is safe before the call (TableSafe: it has no block yet, or a good one that does not fail when the pool is erased), whenever Kept holds; then, without failures of the device, it is good if and only if Kept holds; and with the failures of Loses it is bad |
| BadBlocks.Table.Unlucky | uboot/drivers/MT7620_bmt.c:900-960 | Sure is necessary: in every valid state without it there is a device, the same up to now, on which the update succeeds and leaves the table in a bad block |
| BadBlocks.Table.Forgets | uboot/drivers/MT7620_bmt.c:398-960 | on a device that loses the table (Loses) the update reports success and the failing block, if TableSafe held, is the one recorded for the table; no pool block offers a table any more, and a start finds none; the device that Unlucky supplies is of this kind |
| BadBlocks.FirstFailure | uboot/drivers/MT7620_bmt.c:398-960 | a new device with one block and three to replace it takes a first failure: the block moves to the first pool block, the table is in a good block, and Sure does not hold for a second failure |
| BadBlocks.LostAfterTwoFailures | uboot/drivers/MT7620_bmt.c:398-960 | from there: both updates report success, blocks 0 and 1 are marked bad, the table is recorded in the failing block 1, no pool block offers one and a start finds none |
| BadBlocks.Table.BadIsLost | uboot/drivers/MT7620_bmt.c:398-512 | a table in a bad block, or one erased with the pool and not rewritten yet, is not found at a start |
| BadBlocks.Table.RecordedIsFound | uboot/drivers/MT7620_bmt.c:398-458 | a recorded table in a good block is the one the next start finds, if the pool is erased and no block with data looks like a table |
| BadBlocks.Table.BlockFails | uboot/drivers/MT7620_bmt.c:900-995 | seen from above: after a failure a system block is where it was with its old contents, or elsewhere, with its old contents and the new page after a failed write and erased after a failed erase; all others are untouched; and when the table survives |
| BadBlocks.Table.Run | uboot/drivers/MT7620_bmt.c:398-995 | over every run of failures and starts, up to a start that does not find the table in memory, the mapping stays one-to-one and blocks that did not fail keep place and contents |
| BadBlocks.Table.FindTable | uboot/drivers/MT7620_bmt.c:398-458 | finds the last good pool block with a valid table, or proves that there is none |
| BadBlocks.Table.DamagedIsSkipped | uboot/drivers/MT7620_bmt.c:398-458 | a block whose table has one wrong byte is passed over by the search |
| BadBlocks.Table.MarkReplaced | uboot/drivers/MT7620_bmt.c:443-450 | exactly the replaced blocks are marked bad besides those that were |
| BadBlocks.Table.Restart | uboot/drivers/MT7620_bmt.c:786-884 | a table that can be found is found at the next start, every block is where it was and nothing is written; the replaced blocks are marked bad, and no other one that was not |
| BadBlocks.Table.FailsThenStarts | uboot/drivers/MT7620_bmt.c:398-995 | a failure after which the table survives, followed by a start: the failing block is found at its replacement with its contents, every other one where it was |
| BadBlocks.Table.WillBeFound | uboot/drivers/MT7620_bmt.c:398-458 | decides whether a start would find the table that is in memory |
| FlashBanks.RangeTiled | uboot/common/cmd_flash.c:99-182 | in contiguous banks, for a range that ends inside flash: if nothing is wrong and something is chosen, the chosen sectors cover exactly the range |
| FlashBanks.FineExactly | uboot/common/cmd_flash.c:99-182 | in contiguous banks, for all ranges: nothing is wrong and something is chosen if and only if a sector begins where the range begins, and one ends where it ends or it ends behind the last bank |
| FlashBanks.SectorsTiled | uboot/common/cmd_flash.c:99-182 | then the sectors chosen are exactly those inside the range, if it ends inside flash |
| FlashBanks.UnknownSkipped | uboot/common/cmd_flash.c:122-124 | banks whose flash was not identified make no difference |
| FlashBanks.NeverOutside | uboot/common/cmd_flash.c:99-182 | for all banks, no chosen sector reaches outside the range if that ends before the last address |
| FlashBanks.OutsideExactly | uboot/common/cmd_flash.c:99-182 | for all banks and ranges, without an error something outside the range is chosen if and only if the range ends at the last address, does not begin at 0, bank after bank is chosen up to one that reaches the end, and a later bank begins at 0 |
| FlashBanks.WrapsToZero | uboot/common/cmd_flash.c:164-166 | with a bank at the end of the address space and one at 0, all of the second is chosen as well |
| FlashBanks.Flash.FillSectRanges | uboot/common/cmd_flash.c:99-182 | the sectors bank by bank, the return code and the count of the selection; in contiguous banks 0 and a count if and only if the range begins and ends at sector boundaries |
| FlashBanks.Flash.FlashSectProtect | uboot/common/cmd_flash.c:494-541 | sets or clears exactly the chosen sectors, or nothing with return code 1; in contiguous banks 0 if and only if the range begins and ends at sector boundaries, and then, if it ends inside flash, the sectors inside the range are set or cleared and no others |
| FlashBanks.Flash.FlashSectErase | uboot/common/cmd_flash.c:315-350 | with a flash_erase that may fail: nothing but chosen sectors changes; 0 means that all of them are erased; without failures 0 if and only if the selection succeeds and is not empty, in contiguous banks if and only if the range begins and ends at sector boundaries; otherwise 1 and nothing is erased; 0 in contiguous banks, for a range that ends inside flash, means that exactly its bytes are erased |
| FlashBanks.Flash.FlashProtect | uboot/common/flash.c:48-100 | sets or clears exactly the sectors of the bank that the range touches |
| FlashBanks.Flash.Addr2Info | uboot/common/flash.c:105-127 | the first bank that contains the address, or none has it |
| FlashBanks.TouchedIs | uboot/common/flash.c:165-173 | the test for a touched sector is right if and only if the sector does not end at the last address; there it never finds one |
| FlashBanks.Flash.BlockedIs | uboot/common/flash.c:164-175 | in contiguous banks, a touched protected sector that ends before the last address is in one of the banks from the first to the last address |
| FlashBanks.Flash.FlashWrite | uboot/common/flash.c:142-195 | for contiguous banks, wherever they end: refused without a write if and only if an end is outside flash, or a touched sector that ends before the last address is protected; otherwise, if the driver works, OK; OK means that the range holds the source; nothing outside the range ever changes; a range that wraps around to an earlier bank is reported as OK and not written |
| FlashBanks.Flash.WritesProtected | uboot/common/flash.c:142-195 | in any contiguous banks, a byte of a protected sector that ends at the last address is written all the same |
| FlashBanks.ProtectedIsWritten | uboot/common/flash.c:142-195 | the bank of 0x100000 bytes at 0xFFF00000 is such a case |
| FlashBanks.Flash.Run | uboot/common/flash.c:48-195 | over every run of writes and protection changes on contiguous banks, a sector that is protected and never cleared, and does not end at the last address, keeps every byte |
| CommandLine.MacrosExpand | uboot/common/main.c:587-691 | on text without escapes the character machine replaces macros and quotes as the recursive definition does |
| CommandLine.EscapeUndone | uboot/common/main.c:609-617 | macro processing of escaped text gives the text back |
| CommandLine.MacroReplaced | uboot/common/main.c:631-668 | a macro in either kind of brackets is replaced by the value of the variable, by nothing if it is not defined; its name is all up to the first closing bracket, backslashes included |
| CommandLine.EscapedKept | uboot/common/main.c:610-617 | a backslash makes the character after it stand for itself, whatever it is |
| CommandLine.QuotedKept | uboot/common/main.c:669-678 | text in quotes is kept as it is, with its backslashes and the quotes behind them |
| CommandLine.TokensOfJoined | uboot/common/main.c:766-793 | escaped commands joined with ';' are taken apart again, in order |
| CommandLine.ProcessMacros | uboot/common/main.c:587-691 | the output is the replaced text cut at the size of the buffer, with a terminator if and only if the buffer is not full |
| CommandLine.FindSeparator | uboot/common/main.c:768-782 | the first ';' that is not the first character, has no backslash before it and an even number of unescaped quotes, or the end of the line |
| CommandLine.SeparatorIs | uboot/common/main.c:768-782 | what the scan finds, in terms of the number of unescaped quotes before a place |
| CommandLine.TokensAre | uboot/common/main.c:766-793 | a line is cut at the first such place, and the rest of it likewise |
| CommandLine.RunCommand | uboot/common/main.c:748-802 | every command of the line, after macro processing, in order; nothing if the line is empty or too long |
| CommandLine.QuotingRoundTrip | uboot/common/main.c:587-802 | any list of non-empty commands without backslashes, escaped and joined, comes out exactly as it was |
| DosPartitions.WalkersAgree | uboot/disk/part_dos.c:106-263 | on every finite chain of regular tables, looking up a number gives a start and size exactly when the printer lists a data partition of that number with them |
| DosPartitions.PartitionFound | uboot/disk/part_dos.c:170-274 | on a disk with four entries in the first table and a chain of logical partitions: the numbers 1 to 4 find the data entries of that table by position, the numbers from 5 on the logical partitions in the order of the chain, with their places on the disk, and every other number finds nothing |
| DosPartitions.ChainListed | uboot/disk/part_dos.c:106-165 | the printer lists such a chain partition by partition, with these numbers and places |
| DosPartitions.LayoutRegular | uboot/disk/part_dos.c:106-263 | a disk of this layout has a finite regular chain |
| DosPartitions.NoTable | uboot/disk/part_dos.c:197-208 | a FAT disk without a table: one partition from the start for the lookup, if reserved sectors and FATs are there, and one as large as the disk for the printer |
| DosPartitions.NumbersDiffer | uboot/disk/part_dos.c:106-165 | no two listed partitions share a number |
| DosPartitions.TableAgrees | uboot/disk/part_dos.c:132-149 | the same within one table |
| DosPartitions.PrintExtended | uboot/disk/part_dos.c:106-165 | lists a table and then the tables of its extended entries |
| DosPartitions.GetPartitionInfo | uboot/disk/part_dos.c:170-263 | searches a table and then the table of its first extended entry |
| ItemLists.FirstsAreFirst | uboot/common/lists.c:615-638 | for a comparison that is an equivalence, what is left is exactly the first item of each class in the original order |
| ItemLists.List.RemoveDuplicates | uboot/common/lists.c:615-638 | terminates although the list shrinks during the scan, and leaves exactly the first occurrence of each class |
| ItemLists.List.RemoveEqual | uboot/common/lists.c:621-636 | removes all later equals of an item and nothing else |
| ItemLists.List.FindItem | uboot/common/lists.c:645-671 | the first equal item from the start on, or 0 if none is: from -1 all items are looked at, from 0 only the last one, from k > 0 the items from the k-th on |
| ItemLists.List.RemoveItem | uboot/common/lists.c:472-475 | exactly one item is gone: the first for -1, the last for 0, the k-th for k > 0 |
| ItemLists.List.RemoveItems | uboot/common/lists.c:479-506 | the items from the first, the last or the k-th one on are handed over, and the items behind them close the gap in place |
| ItemLists.List.MoveDown | uboot/common/lists.c:498-503 | the overlapping move in the array: the items arrive unchanged and all others stay |

## Left out

- dlmalloc: mmap and mremap, foreign callers of `sbrk` with fenceposts, the first extension of an empty heap with its second `sbrk`, calloc, statistics and mallopt; the model starts from an arena whose `top` exists.
- AllocatorModel.Allocator.Realloc: requires, for a block that borders `top`, that the padded size plus MINSIZE stays below 2^31; HeapTheorems.TopTestBreaks shows that beyond it the heap is always destroyed.
- AllocatorModel.Allocator.Memalign: requires the exact condition of HeapLayout.AlignedRequestRoom (HeapTheorems.UnfitTooSmall for the rest) and, as the original documents, an alignment that is a power of two.
- AllocatorModel.Allocator.Trim: requires TrimSound, the exact condition for a consistent heap afterwards (HeapTheorems.TrimBreaks for the rest); the only caller in the model passes 0.
- AllocatorModel.Allocator.constructor: the arena is smaller than 0x7FFFF000 bytes and does not end at the last address, so that sizes are positive as `long`.
- HeapClient.Client.Run: stops before an operation whose sizes are in the windows above; HeapClient.Client.IsSafe recognises it.
- Redundant environment: restoring the rest of the sector behind the environment, errors reported by the flash as opposed to power failure, and sector protection around the save.
- EnvStore.Environment.SetEnv: the side effects of setting console, baud rate, Ethernet and load address variables, and the refusal to delete console variables.
- EnvSpi.Board.SaveEnv: SPI operations succeed; their error returns are not modelled.
- env_flash.c without redundancy, environment in NVRAM, EEPROM and NAND.
- Kermit.Loader.HandleSendPacket: only the quote character of the negotiated parameters, since it alone affects the data; the contents of acknowledgements are reduced to their kind and number.
- Kermit: S-records, baud rates, timing.
- BadBlocks.Table.MigrateFromBad: a null data pointer is not modelled; reconstruct_bmt is left out because it looks a bad index up among mapped ones.
- BadBlocks.Table.UpdateBmt: promises the contents of the replacement if the pool is erased or will be, which every operation keeps.
- BadBlocks.Table.Restart: requires that the last valid table in the pool is the current one; BadBlocks.Table.RecordedIsFound gives that for data that do not look like a table.
- BadBlocks.Table.Run: stops at a start that does not find the table in memory, where the original would reconstruct one.
- FlashBanks.Flash.FlashWrite: for banks that are not contiguous, and for a range that wraps around within one bank or to a later one, promises only that the bytes outside the range stay.
- FlashBanks.Flash.Run: requires that the sector does not end at the last address; FlashBanks.Flash.WritesProtected shows that it is false there.
- CommandLine: parse_line, looking up and executing commands, `bootd` recursion, interruption.
- CommandLine.RunCommand: the character before the line, which the original reads when a line begins with a quote, is a parameter.
- DosPartitions.GetPartitionInfo: requires a finite chain, as the recursion of the original does; for a FAT disk without a table the size, which the original does not set, is given as 0.
- DosPartitions: starts and sizes are unbounded integers; `le32_to_int` and the sums of part_dos.c are 32 bits wide and can wrap, which is not modelled.
- ItemLists: items are values of one type in an array, not bytes; allocation, insertion, sorting and binary search.
- Drivers for USB, Ethernet, I2C and PHY, networking, booting, FAT and the console: register accesses, delays and plumbing.
