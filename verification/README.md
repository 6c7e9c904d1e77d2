# Verified model of the xkern kernel

A Dafny model of the parts of the xkern x86_64 kernel whose correctness does
not follow from reading one function: virtual memory, crypto, the framebuffer,
the PCI scan, ext3 file reads, and the arithmetic and memory primitives below
them. `dafny verify dfyconfig.toml` checks the whole project.

Code that changes memory in place is modelled by classes and by methods on
arrays; each such method is proved equal to a function on values, and the
properties are proved about that function. Code that only computes is modelled
by functions. What these functions read and write in words, images, blocks,
rows and packets is stated a second time by index and by literal value.

- **Virtual memory** (`PageEntry`, `PageTables`, `MapPageProof`,
  `AddressSpaces`, `Ownership`, `Regions`, `Pmm`, `Paging`, `ElfImage`, `ElfHeaders`,
  `ElfPages`, `Elf`). Physical memory is a map from frame numbers to tables of 512 words; `Walk`
  is the four-level walk of section 4.5 of the Intel SDM, volume 3A. The state invariant `Vm.Ok` says that
  tables form a forest under the PML4 tables and that free, table and data frames
  are disjoint. The central results are that one `paging_map_page` changes exactly
  one page (`MapPageTranslates`) or, out of frames, none (`MapPageFails`); that
  clones stay isolated over every later run (`RunIsolated`) and own their user frames
  (`RunPrivate`); and that a loaded ELF image reads back through the page tables
  (`Loader.Load`).
- **Crypto** (`Gf256`, `Sbox`, `Aes`, `AesBytes`, `AesModes`, `CbcBytes`, `Hash`,
  `HashBytes`). AES decryption undoes encryption for every round-key array, from field
  arithmetic up, and every round is that of FIPS 197 byte for byte; CBC and CTR round
  trips and laws by index; streaming hashes independent of how the message is cut, and HMAC.
- **Graphics** (`Screen`, `ScreenPixels`, `Framebuffer`, `Line`). The double-height back buffer with
  its sliding window and dirty interval refines a plain screen over every run;
  Bresenham's loop draws the closed-form nearest pixels.
- **PCI, scheduler, files** (`Pci`, `PciRaw`, `Sched`, `Ext3`). The recursive scan visits
  exactly the reachable buses; round robin is fair; file reads are slices of the
  block-mapped contents.
- **Primitives** (`Memmove`, `Udiv`, `Checksum`, `Arith`, `Common`).

Where the code and its comments or the usual meaning of its interface disagree,
the model follows the code, and the exact condition is a theorem:

- The kernel half is described as shared with clones. It is copied word by word, so
  a kernel slot that had no table at clone time stays private (`CloneSeesLater`,
  `CloneMissesLater`).
- `paging_alloc_and_map` returns a frame even when the mapping itself failed
  (`AllocAndMapExact`, `AllocAndMapSilent`).
- Tables that `paging_map_page` creates lack the user bit, so `PAGE_USER` takes effect
  only below tables that already have it; in a fresh clone's user slots it never does
  (`CloneNeverUser`).
- `paging_map_region` counts pages from an unaligned address, as ACPI tables have, and
  can leave the last bytes unmapped (`RegionCovers`, `RegionMisses`).
- `pmm_init` computes its loop bound in unsigned arithmetic that can wrap (`BoundExact`,
  `BoundWraps`); `pmm_reserve` of no bytes can remove a frame, and of a range whose end
  wraps none (`ReserveOverlaps`, `ReserveNothingTakes`, `ReserveAllTakesNothing`).
- The bounds tests of `elf_load` add in 64 bits and accept wrapped sums (`BoundedExact`,
  `TableStrays`, `SegmentStrays`); `e_phentsize` is checked, but headers are read at the
  structure's size (`StrideExact`, `SegmentMisread`).
- `elf_load` maps segments at addresses the processor refuses and then faults on them
  (`Loader.Load`, `HighSegments`); a mapping failure of its last page goes unnoticed
  (`GoesExact`, `LastKeeps`).
- CTR decryption refuses partial blocks that CTR encryption produces
  (`CtrDecryptExact`, `CtrDecryptDrops`); the reported ciphertext length can wrap
  (`CiphertextLenExact`, `CiphertextLenWraps`).
- The hash length field is read after the padding has been counted
  (`LengthFieldNeverStandard`).
- `framebuffer_putpixels` copies colours unmasked in the canonical layout
  (`PutPixelsExact`, `PutPixelsDiffers`).
- `framebuffer_scroll_up` leaves the back buffer between one and two screens of lines,
  and from two screens on keeps old rows that a later scroll shows (`ScrollShows`,
  `ScrollClean`, `StaleRowReturns`, `WindowLeaves`).
- The PCI multifunction test reads bit 7 of the cache-line-size byte, because the
  configuration read aligns its offset (`DeclaredExact`, `DeclaredMissed`); for the
  same reason `pci_add_device` records that byte as the header type.
- ext3 `seek` and `read` work in 32 bits (`SeekExact`, `CountExact`).

## Model

| member | source | states |
|---|---|---|
| `PageTables.PathOfVa` | osfmk/vm/paging.c:93-96 | two 64-bit addresses take the same path if and only if their bits 47..12 agree, and avoid slot 511 if and only if those bits are below it; canonical kernel-half addresses included |
| `PageTables.CanonicalUnique` | osfmk/vm/paging.c:93-96 | canonical addresses are determined by the bits the path uses and the offset in the page |
| `PageTables.PathSpells` | include/paging.h:24-27 | the four index fields, shifted back to bits 39, 30, 21 and 12, spell the low 48 bits of the address |
| `PageTables.WalkBits` | osfmk/vm/paging.c:91-168 | the walk from literal bits of the words it reads: bit 0 at every level, bits 1 and 2 the conjunction over the levels, bits 3 and 4 of the last word, bit 7 of the directory word for a 2 MiB leaf |
| `PageEntry.WordBits` | include/paging.h:7-11 | present, writable, user, caching and leaf are bits 0, 1, 2, 3 to 4 and 7 of the word |
| `PageEntry.StoredBits` | osfmk/vm/paging.c:108-165 | every word the editor stores, bit for bit: tables t plus 3, pages with the caller's flags without bit 7 and with bit 0, split directories with the leaf's rights |
| `PageEntry.SplitBits` | osfmk/vm/paging.c:136-157 | word i of a split is frame i of the leaf with its five flag bits, the caller's caching bits taking the place of the leaf's where given |
| `PageEntry.RawFields` | osfmk/vm/paging.c:136-136 | rounding the 64-bit word to 4 KiB and to 2 MiB gives the addresses of its frame and of the leaf's first frame |
| `PageEntry.SplitTableWordFields` | osfmk/vm/paging.c:134-165 | the word that replaces a split 2 MiB leaf is present, writable and keeps the leaf's user bit |
| `MapPageProof.AttachEmpty` | osfmk/vm/paging.c:104-126 | hanging a zeroed table under an absent word changes no translation of any space |
| `MapPageProof.AttachSplit` | osfmk/vm/paging.c:134-165 | replacing a 2 MiB leaf by a table of 512 words keeps every frame and right in every space; only the caching bits may change, and only if the caller passes some |
| `MapPageProof.MapPageConserves` | osfmk/vm/paging.c:91-168 | every call keeps the forest invariant (free, table and data frames pairwise disjoint, one parent per table) and takes exactly min(needed, free) frames off the free stack, none lost and none invented |
| `MapPageProof.MapPageTranslates` | osfmk/vm/paging.c:91-168 | with enough free frames the page translates to the given frame with the effective rights, in exactly the spaces sharing its PML4 slot, and every other page of every space keeps its translation, even when a 2 MiB leaf is split (neighbours are recached only on request); rights and caching from literal bits of the flags |
| `MapPageProof.FirstWords` | osfmk/vm/paging.c:101-165 | into an empty slot: the exact frames and bits of the four words stored, from the top of the allocator's stack down |
| `MapPageProof.FirstMapping` | osfmk/vm/paging.c:101-165 | and so the page is found with the given frame, writable exactly with bit 1 of the flags, never a user's |
| `MapPageProof.FirstSample` | osfmk/vm/paging.c:101-165 | one page mapped with flags 3 into a fresh space is writable |
| `MapPageProof.MapPageFails` | osfmk/vm/paging.c:91-168 | with too few free frames no translation of any space changes, wherever the allocation fails |
| `AddressSpaces.CloneTranslates` | osfmk/vm/paging.c:213-239 | a clone translates slot 0 and slots 256..510 as its parent, nothing in slots 1..255, and creating it changes no other space |
| `AddressSpaces.VforkTranslates` | osfmk/vm/paging.c:246-269 | a vfork child agrees with its parent on every slot below 511, and creating it changes no other space |
| `AddressSpaces.NewSlots` | osfmk/vm/paging.c:228-265 | every slot of the new table of a clone and of a vfork child, slot 511 holding the table's own frame plus 3, and no other table changed |
| `AddressSpaces.RunOk` | osfmk/vm/paging.c:91-269 | the forest invariant holds after every run of mappings, clones and vforks |
| `AddressSpaces.MapPageSlots` | osfmk/vm/paging.c:101-109 | a call writes no PML4 word except an absent one of its own, which becomes a present, writable word t plus 3 without the user bit, with a frame nothing used before |
| `AddressSpaces.RunIsolated` | osfmk/vm/paging.c:91-269 | whatever a family of spaces maps or spawns in slots it does not share, no translation of an outside space ever changes |
| `AddressSpaces.CloneIsolated` | osfmk/vm/paging.c:208-239 | over every later run in user slots, a fresh clone cannot change its parent's translations, nor the parent the clone's |
| `Ownership.EmptyPrivate` | osfmk/vm/paging.c:213-239 | the starting point: when no space has a user slot filled, every user page is owned and private |
| `Ownership.StepPrivate` | osfmk/vm/paging.c:91-269 | when user slots are filled by paging_alloc_and_map alone, every step keeps this: two user pages in one frame are the same page through the same table, and every user page is in a frame the allocator gave out |
| `Ownership.RunPrivate` | osfmk/vm/paging.c:91-269 | over every such run of all spaces, two spaces that share no user table never translate user pages to the same frame |
| `Ownership.ClonePrivate` | osfmk/vm/paging.c:208-239 | a fresh clone and its parent never share a user frame, whatever both do later |
| `Elf.WriteUnseen` | osfmk/vm/paging.c:91-269 | a byte one space writes to a user address is never read by a space apart from it, at any user address |
| `AddressSpaces.CloneSeesLater` | osfmk/vm/paging.c:222-231 | a later kernel mapping of the parent reaches the clone if and only if the slot already had a table when it was cloned |
| `AddressSpaces.CloneMissesLater` | osfmk/vm/paging.c:231-234 | a concrete state in which a kernel page mapped later in the parent is missing from the clone |
| `AddressSpaces.RunNoUser` | osfmk/vm/paging.c:101-141 | a family whose user slots hold no user-accessible table never gets one, over every run of mappings, clones and vforks |
| `AddressSpaces.CloneNeverUser` | osfmk/vm/paging.c:101-141 | whatever is mapped in a fresh clone's slots 1..255, with PAGE_USER or without, no page there is ever user accessible |
| `AddressSpaces.AllocAndMapExact` | osfmk/vm/paging.c:198-206 | with the needed tables on the stack every space gets exactly the outcome of mapping the returned frame; otherwise no translation of any space changes |
| `AddressSpaces.AllocAndMapSilent` | osfmk/vm/paging.c:198-206 | a concrete state in which a frame is returned and nothing is mapped |
| `Regions.MapAllKeeps` | osfmk/vm/paging.c:192-193 | pages that are not among a run of mappings keep frame and rights, in every space, however the allocations go |
| `Regions.MapAllMaps` | osfmk/vm/paging.c:192-193 | each page ends up, in every space, with the frame and rights its last mapping gave it, or as it was if that mapping found too few frames |
| `Regions.RegionTranslates` | osfmk/vm/paging.c:170-196 | page i of a region, for any address and byte size, ends up in every space as its own mapping left it; with three free frames a page it is frame i of the physical range |
| `Regions.RegionAddress` | osfmk/vm/paging.c:170-196 | byte k of a region whose addresses have the same offset in their pages translates to physical address pa + k |
| `Regions.RegionNumbers` | osfmk/vm/paging.c:192-193 | the pages the loop visits are consecutive, so none is visited twice |
| `Regions.RegionKeeps` | osfmk/vm/paging.c:192-193 | every page the loop does not visit keeps frame and rights, in every space |
| `Regions.RegionCovers` | osfmk/vm/paging.c:172-193 | every byte of [va, va + size) lies in a visited page if and only if size is 0 or va % 4096 + size <= 4096 * ceil(size / 4096) |
| `Regions.RegionMisses` | osfmk/vm/paging.c:172-193 | at va 0x1800 with size 0x1000 one page is visited and byte 0x2000 is not in it |
| `Paging.Editor.ZeroTable` | osfmk/vm/paging.c:83-89 | the in-place loop empties the table and no other |
| `Paging.Editor.FillSplit` | osfmk/vm/paging.c:150-157 | the in-place loop fills the table with the leaf's 512 pages |
| `Paging.Editor.MapPage` | osfmk/vm/paging.c:91-168 | for every address whose PML4 index is not 511, the in-place editor on the frame stack refines the specified mapping and keeps the invariant |
| `Paging.Editor.MapRegion` | osfmk/vm/paging.c:170-196 | the byte loop, with its 64-bit sums, refines the specified region mapping and ends |
| `Paging.Editor.AllocAndMap` | osfmk/vm/paging.c:198-206 | refines the specification; the frame address is returned, 0 when the stack is empty |
| `Paging.Editor.ClonePd` | osfmk/vm/paging.c:213-239 | the in-place clone refines the specified clone; 0 when the stack is empty |
| `Paging.Editor.VforkClone` | osfmk/vm/paging.c:246-269 | the in-place vfork clone refines the specified one; 0 when the stack is empty |
| `Paging.Boot` | osfmk/vm/pmm.c:67-105 | from a sane memory map, pmm_init and a well-formed boot space give a page-table editor whose invariant holds and whose frames are all good |
| `Pmm.BoundExact` | osfmk/vm/pmm.c:83-99 | for every usable entry, the page loop visits only whole pages of it if and only if the rounded start does not exceed the rounded stop or the stop is at least the top guard (otherwise the unsigned difference wraps and the loop bound with it) |
| `Pmm.BoundWraps` | osfmk/vm/pmm.c:87-99 | a concrete 256-byte entry whose bound wraps: every page address up to almost 2^64 is taken although none lies inside it |
| `Pmm.FreeListExact` | osfmk/vm/pmm.c:67-105 | an address is freed at start-up if and only if it is a non-zero page outside the kernel inside the visited range of an available entry below 3 GiB |
| `Pmm.EntryExact` | osfmk/vm/pmm.c:72-101 | the frames of one entry by address: whole pages of kind 1 below 3 GiB, not frame 0, not the kernel, and of more than 32 MiB not the last 16 |
| `Pmm.PagesAscend` | osfmk/vm/pmm.c:94-98 | lower frames are pushed first |
| `Pmm.CappedExact` | osfmk/vm/pmm.c:27-33 | the first 65536 of them stay |
| `Pmm.InitBooks` | osfmk/vm/pmm.c:67-105 | on a sane map the stack starts with distinct, non-zero, aligned, available frames outside the kernel |
| `Pmm.PopBooks` | osfmk/vm/pmm.c:35-40 | popping hands out a non-zero frame nobody owns and keeps the books: free and owned are disjoint parts of the pool |
| `Pmm.PushBooks` | osfmk/vm/pmm.c:27-33 | giving back an owned frame always finds room and keeps the books |
| `Pmm.FreeExact` | osfmk/vm/pmm.c:27-33 | the books survive freeing an arbitrary address if and only if it is 0, the stack is full, or it is a frame of the pool that is not free |
| `Pmm.RemoveRangeElems` | osfmk/vm/pmm.c:42-58 | the swap-remove loops remove exactly the frames of the span |
| `Pmm.ReserveExact` | osfmk/vm/pmm.c:42-58 | a free frame survives pmm_reserve if and only if it lies wholly before addr or at or after the 64-bit sum of addr and size, for every addr and size |
| `Pmm.ReserveOverlaps` | osfmk/vm/pmm.c:42-58 | the frames removed are exactly those overlapping the range if and only if, without a wrap, the size is not 0 or addr is aligned or the frame around addr is not free, and, with a wrap, no free frame lies at or above both the page of addr and the wrapped sum |
| `Pmm.ReserveNothingTakes` | osfmk/vm/pmm.c:42-58 | reserving 0 bytes at 8193 removes frame 8192 |
| `Pmm.ReserveAllTakesNothing` | osfmk/vm/pmm.c:42-58 | reserving 2^64 - 4096 bytes at 4096 removes nothing, although frame 8192 overlaps |
| `Pmm.SpanMeets` | osfmk/vm/pmm.c:42-58 | a page frame is among the scanned ones if and only if it starts before the end and ends after addr |
| `Pmm.RunGood` | osfmk/vm/pmm.c:27-105 | after pmm_init on a sane map and any run of alloc, reserve and free of owned frames, free frames are distinct, none is also owned, and all are non-zero aligned available pages below 3 GiB outside the kernel |
| `Pmm.FrameStack.Init` | osfmk/vm/pmm.c:67-105 | the stack array holds exactly the specified frames, cut at its capacity; on a sane map the books are valid and every frame of the pool is good |
| `Pmm.FrameStack.Alloc` | osfmk/vm/pmm.c:35-40 | pops the last frame, moves it to the owned set, or returns 0 on the empty stack |
| `Pmm.FrameStack.Release` | osfmk/vm/pmm.c:27-33 | for any address, exactly what pmm_free pushes and exactly when the books stay valid; an owned frame is never dropped |
| `Pmm.FrameStack.Reserve` | osfmk/vm/pmm.c:42-58 | the in-place loops leave exactly the specified list, with the 64-bit sum as the end, and the books stay valid |
| `ElfImage.CopiedReads` | bsd/kern/elf/elf.c:107-129 | after the copy pass every loadable range reads as file bytes followed by zeros, also when two segments share a page |
| `ElfImage.CopiedKeeps` | bsd/kern/elf/elf.c:107-129 | bytes outside every loadable range are unchanged |
| `ElfImage.BoundedExact` | bsd/kern/elf/elf.c:79-92 | of the ranges the 64-bit bounds test accepts, exactly those whose sum does not wrap lie in the image |
| `ElfImage.TableStrays` | bsd/kern/elf/elf.c:79-80 | a concrete image whose program-header table passes the test and lies outside the image |
| `ElfImage.SegmentStrays` | bsd/kern/elf/elf.c:89-90 | a segment at offset 2^64 - 16 with 32 file bytes passes the test on every image of 16 bytes or more and lies outside it |
| `Elf.BoundsExact` | bsd/kern/elf/elf.c:118-128 | lo and hi bound every loadable range and are attained |
| `ElfHeaders.PhdrDecoded` | bsd/kern/elf/elf.h:29-38 | for every image that holds the 56 bytes of a program header, field by field in the order of the structure, elf_load reads its type, offset, address and two sizes as written |
| `ElfHeaders.EhdrDecoded` | bsd/kern/elf/elf.h:12-27 | for every image that starts with the 64 bytes of a file header, the fields read are those written, and the checks pass if and only if they describe a 64-bit x86-64 executable with a header table the wrapped bound test accepts |
| `ElfHeaders.ImageDecoded` | bsd/kern/elf/elf.c:62-92 | for every image that holds a header and its program headers, the segments seen are exactly those written |
| `ElfHeaders.ProgramAccepted` | bsd/kern/elf/elf.c:84-92 | an ordinary program with a .bss is accepted, with its file bytes and zeros |
| `Elf.ProgramLoads` | bsd/kern/elf/elf.c:62-133 | it meets every condition of a load, with exact bounds and one page visited |
| `ElfImage.VisitsExact` | bsd/kern/elf/elf.c:94-98 | the pages mapped for a segment are exactly those of the bytes from the start of its first page to its end |
| `ElfPages.NextRights` | bsd/kern/elf/elf.c:98-101 | a page is mapped writable and for users as far as the tables on its path allow |
| `ElfPages.MapPagesShows` | bsd/kern/elf/elf.c:84-102 | with enough frames every visited page gets a data frame of its own, and pages mapped before keep theirs |
| `ElfPages.GoesExact` | bsd/kern/elf/elf.c:98-101 | the mapping pass goes through if and only if every page finds its frame and tables, or all but the last do and one frame is left for it: a silent failure drains the stack |
| `ElfPages.LastKeeps` | bsd/kern/elf/elf.c:98-101 | in that silent case no translation of any space changes and the stack is empty |
| `ElfPages.FourEnough` | bsd/kern/elf/elf.c:98-101 | four free frames a page are always enough |
| `Elf.HighSegments` | bsd/kern/elf/elf.c:94-111 | a segment at 0x8000_0000_0000 passes every test and is not canonical; one at 0xffff_8000_0000_0000 is in slot 256 and canonical |
| `Elf.LoadedReads` | bsd/kern/elf/elf.c:104-129 | a copied image with disjoint segments reads back through the page tables, also where two segments share a page |
| `ElfImage.StrideExact` | bsd/kern/elf/elf.c:82-87 | over all images with a given e_phentsize and e_phnum, the headers read are the declared ones if and only if e_phentsize is 56 or there is one header |
| `ElfImage.SegmentMisread` | bsd/kern/elf/elf.c:82-87 | a concrete image with e_phentsize 64 whose loadable second segment is read as not loadable |
| `Elf.Loader.MapSegment` | bsd/kern/elf/elf.c:84-105 | the page loop succeeds if and only if the stack never runs dry, and then leaves exactly the specified space |
| `Elf.Loader.Load` | bsd/kern/elf/elf.c:62-133 | for every number of free frames: rejected if and only if a 64-bit test fails, the mapping pass runs dry or nothing is loadable; with the frames the pages need, loaded if and only if all file bytes are in the image, something is loadable and every loadable byte is canonical, and otherwise it faults or strays; when loaded, entry and bounds are exact and, for disjoint segments, every loadable byte reads back through the page tables |
| `Gf256.Xmul` | bsd/crypto/crypto_cipher.cpp:40-49 | the shift-and-add loop computes the field product |
| `Gf256.MulBilinear` | bsd/crypto/crypto_cipher.cpp:40-49 | multiplication distributes over addition in both factors |
| `Gf256.MulSamples` | bsd/crypto/crypto_cipher.cpp:42-49 | the products worked out in section 4.2 of FIPS 197 |
| `Gf256.MixIsCirculant` | bsd/crypto/crypto_cipher.cpp:73-84 | the xtime formulas are the circulant matrix product of section 5.1.3 of FIPS 197 |
| `Gf256.InvMixMix` | bsd/crypto/crypto_cipher.cpp:73-84 | mix_columns_inv undoes mix_columns on every column |
| `Gf256.MixInvMix` | bsd/crypto/crypto_cipher.cpp:116-126 | mix_columns undoes mix_columns_inv on every column |
| `Sbox.InvSubSub` | bsd/crypto/crypto_cipher.cpp:86-107 | the inverse table undoes the forward table |
| `Sbox.SubInvSub` | bsd/crypto/crypto_cipher.cpp:15-32 | the forward table undoes the inverse table |
| `Sbox.SubIsInversion` | bsd/crypto/crypto_cipher.cpp:15-32 | the table is field inversion followed by the affine map, for all 256 bytes |
| `Aes.ShiftRowsIsRotation` | bsd/crypto/crypto_cipher.cpp:66-71 | row r of the state moves r columns to the left |
| `Aes.DecryptEncrypt` | bsd/crypto/crypto_cipher.cpp:169-205 | decryption undoes encryption for every block, every round-key array and every number of rounds |
| `Aes.EncryptDecrypt` | bsd/crypto/crypto_cipher.cpp:169-205 | encryption undoes decryption, so the cipher is a permutation |
| `AesBytes.KeyWord` | bsd/crypto/crypto_cipher.cpp:51-59 | the four bytes taken from a key word spell it, most significant first |
| `AesBytes.AddRoundKeyByte` | bsd/crypto/crypto_cipher.cpp:51-59 | byte 4c + k of the state is combined with byte k of word c of the round key |
| `AesBytes.StartByte` | bsd/crypto/crypto_cipher.cpp:169-174 | the state starts as the input combined with round key 0 |
| `AesBytes.RoundByte` | bsd/crypto/crypto_cipher.cpp:61-84 | every byte of every round, from four substituted and rotated bytes of the round before, field products by 2 and 3, and its key byte |
| `AesBytes.LastByte` | bsd/crypto/crypto_cipher.cpp:169-186 | every byte of the ciphertext from the last round, without mixing |
| `AesBytes.LastKeyMatters` | bsd/crypto/crypto_cipher.cpp:169-186 | schedules that differ in one word of the last round key encrypt every block differently |
| `Aes.AddRoundKeyInPlace` | bsd/crypto/crypto_cipher.cpp:51-59 | the in-place loop adds the round key |
| `Aes.SubBytesInPlace` | bsd/crypto/crypto_cipher.cpp:61-64 | the in-place loop substitutes every byte |
| `Aes.ShiftRowsInPlace` | bsd/crypto/crypto_cipher.cpp:66-71 | the in-place cycles are the row rotation |
| `Aes.MixColumnsInPlace` | bsd/crypto/crypto_cipher.cpp:73-84 | the in-place loop mixes every column |
| `Aes.InvShiftRowsInPlace` | bsd/crypto/crypto_cipher.cpp:109-114 | the in-place cycles are the inverse rotation |
| `Aes.InvMixColumnsInPlace` | bsd/crypto/crypto_cipher.cpp:116-126 | the in-place loop applies the inverse mix to every column |
| `Aes.BlockEncrypt` | bsd/crypto/crypto_cipher.cpp:169-186 | the in-place rounds compute the specified encryption |
| `Aes.BlockDecrypt` | bsd/crypto/crypto_cipher.cpp:188-205 | the in-place rounds compute the specified decryption |
| `AesModes.CbcRoundTrip` | bsd/crypto/crypto_cipher.cpp:244-263 | CBC decryption of CBC encryption returns the message and its length, for every length, key schedule and IV |
| `CbcBytes.PaddedBytes` | bsd/crypto/crypto_cipher.cpp:255-259 | the padded message is the message and up to sixteen bytes, each equal to their count |
| `CbcBytes.CbcBlock` | bsd/crypto/crypto_cipher.cpp:243-262 | ciphertext block b is the encryption of block b of the padded message, each byte ^ that of ciphertext block b - 1, or of the IV for b = 0 |
| `CbcBytes.CbcDecryptByte` | bsd/crypto/crypto_cipher.cpp:307-323 | every byte of the decrypted message by index, and its length from the last byte |
| `CbcBytes.FirstBlockVector` | bsd/crypto/crypto_cipher.cpp:243-251 | the first ciphertext blocks under two IVs are equal if and only if the IVs are |
| `AesModes.UnpaddedPadded` | bsd/crypto/crypto_cipher.cpp:250-262 | removing the padding byte count restores every message length |
| `AesModes.CiphertextLenExact` | bsd/crypto/crypto_cipher.cpp:212-214 | the reported length is the written length if and only if the 32-bit sum does not wrap |
| `AesModes.CiphertextLenWraps` | bsd/crypto/crypto_cipher.cpp:212-214 | for 2^32 - 16 bytes the reported length is 0 |
| `AesModes.IncAddsOne` | bsd/crypto/crypto_cipher.cpp:272-276 | the byte-wise counter step adds one modulo 2^(8n) |
| `AesModes.IncBytes` | bsd/crypto/crypto_cipher.cpp:275-277 | the last byte steps, and carries exactly from 0xff |
| `AesModes.CounterValue` | bsd/crypto/crypto_cipher.cpp:265-279 | the k-th counter block is IV + k modulo 2^128 |
| `AesModes.CountersDistinct` | bsd/crypto/crypto_cipher.cpp:265-279 | no two counter blocks less than 2^128 apart are equal |
| `AesModes.CtrTwice` | bsd/crypto/crypto_cipher.cpp:265-279 | CTR encryption applied twice is the identity for every length |
| `AesModes.CtrByte` | bsd/crypto/crypto_cipher.cpp:265-279 | every output byte is the input byte masked with the encrypted counter block of its position |
| `AesModes.CtrDecryptExact` | bsd/crypto/crypto_cipher.cpp:325-339 | aes_decrypt in CTR mode undoes aes_encrypt if and only if the length is a multiple of 16 |
| `AesModes.CtrDecryptDrops` | bsd/crypto/crypto_cipher.cpp:291 | a message of one byte does not come back |
| `AesModes.CbcEncryptInto` | bsd/crypto/crypto_cipher.cpp:244-263 | the in-place loop writes the specified padded chain and nothing else |
| `AesModes.CbcDecryptInto` | bsd/crypto/crypto_cipher.cpp:307-323 | the in-place loop recovers the specified text and length; an empty or ragged input gives nothing, and a padding byte outside 1..16 leaves the text unstripped |
| `AesModes.CtrInto` | bsd/crypto/crypto_cipher.cpp:265-279 | the in-place loop writes the specified key-stream sum, for every length, also where the length test wraps |
| `Hash.BlocksConcat` | bsd/crypto/crypto_hash.cpp:88-110 | compressing a concatenation equals compressing the first part, then its remainder with the second |
| `Hash.AbsorbTwice` | bsd/crypto/crypto_hash.cpp:88-110 | two updates equal one update with the concatenation: state, buffered bytes and total |
| `Hash.AnySplit` | bsd/crypto/crypto_hash.cpp:88-110 | any split of a message into updates gives the same context as one update |
| `Hash.FinishEmpties` | bsd/crypto/crypto_hash.cpp:112-132 | padding and length field end on a block boundary for every buffer fill |
| `Hash.FinishIsHash` | bsd/crypto/crypto_hash.cpp:112-139 | absorbing a message and finishing computes the hash function H of it |
| `HashBytes.PadByte` | bsd/crypto/crypto_hash.cpp:113-120 | one byte 0x80 and zeros, up to eight bytes before the end of a block |
| `HashBytes.FieldByte` | bsd/crypto/crypto_hash.cpp:122-128 | byte j of the length, from the end of the field for the big-endian algorithms |
| `HashBytes.BlocksLast` | bsd/crypto/crypto_hash.cpp:88-110 | blocks of 64 bytes are compressed in order |
| `HashBytes.ShortHash` | bsd/crypto/crypto_hash.cpp:112-132 | the one block that a message below 56 bytes becomes |
| `HashBytes.TrailerByte` | bsd/crypto/crypto_hash.cpp:112-132 | everything appended to a message of any length, byte by byte |
| `HashBytes.RestIs` | bsd/crypto/crypto_hash.cpp:88-110 | what stays buffered is the end of the message, its length modulo 64 |
| `Hash.LengthFieldNeverStandard` | bsd/crypto/crypto_hash.cpp:118-126 | the length field written never is the message's bit length, because it is taken after the padding was counted |
| `Hash.Digest.Update` | bsd/crypto/crypto_hash.cpp:88-110 | the in-place update refines the specified absorption and keeps fewer than 64 buffered bytes |
| `Hash.Digest.Final` | bsd/crypto/crypto_hash.cpp:112-132 | the in-place finish refines the specified finish |
| `Hash.HashOnce` | bsd/crypto/crypto_hash.cpp:134-139 | the one-shot call computes H |
| `Hash.HmacInto` | bsd/crypto/crypto_hash.cpp:372-404 | the result is the hash of the outer pad and the hash of the inner pad and the data, long keys hashed first |
| `HashBytes.HmacPads` | bsd/crypto/crypto_hash.cpp:372-404 | the two pads byte by byte: key byte ^ 0x36 inside, key byte ^ 0x5c outside |
| `Screen.PutRowClipped` | iokit/IOGraphicsFamily/fb.c:273-300 | a run of single pixels rewrites exactly one row, clipped at the right edge |
| `Screen.PutPixelsExact` | iokit/IOGraphicsFamily/fb.c:273-300 | framebuffer_putpixels draws what single pixels would if and only if the layout is not the copied one or no visible colour has a top byte |
| `Screen.PutPixelsDiffers` | iokit/IOGraphicsFamily/fb.c:286-299 | a concrete black pixel with a top byte that the two ways draw differently |
| `Screen.PutRectRow` | iokit/IOGraphicsFamily/fb.c:307-332 | a rectangle of single pixels is its first row rewritten, then the rest |
| `ScreenPixels.PackLayouts` | iokit/IOGraphicsFamily/fb.c:26-33 | 0x00RRGGBB in the 5-6-5, 5-5-5 and two 8-8-8 layouts, bit for bit |
| `ScreenPixels.PixelByte` | iokit/IOGraphicsFamily/fb.c:109-127 | a stored pixel is the low bytes of its word, least significant first |
| `ScreenPixels.PutPixelAt` | iokit/IOGraphicsFamily/fb.c:259-271 | one pixel changes, none off the screen |
| `ScreenPixels.PutPixelsAt` | iokit/IOGraphicsFamily/fb.c:273-305 | exactly the visible pixels of the run change, to their colours or, in the copied layout, to the bytes given |
| `ScreenPixels.PutRectAt` | iokit/IOGraphicsFamily/fb.c:384-409 | exactly the visible pixels of the rectangle change, to the colour |
| `ScreenPixels.ScrollRow` | iokit/IOGraphicsFamily/fb.c:417-470 | every byte of every row after a scroll |
| `Framebuffer.ScrollShows` | iokit/IOGraphicsFamily/fb.c:422-436 | in back-buffer mode the window stays inside the buffer if and only if lines <= height or lines >= 2 * height, and then shows what a plain screen would |
| `Framebuffer.ScrollClean` | iokit/IOGraphicsFamily/fb.c:422-436 | the rows below the window stay blank if and only if lines <= height, or lines >= 2 * height and the part of the screen in the lower half of the buffer was blank |
| `Framebuffer.StaleRowReturns` | iokit/IOGraphicsFamily/fb.c:423-436 | a concrete run on a one-row screen after which a scrolled-off row is visible again |
| `Framebuffer.WindowLeaves` | iokit/IOGraphicsFamily/fb.c:431-434 | height + 1 lines put the window past the end of the buffer, on every screen of two rows or more |
| `Framebuffer.WindowAdvance` | iokit/IOGraphicsFamily/fb.c:423-440 | advancing the window over blank rows is scrolling the visible rows |
| `Framebuffer.Display.PutPixel` | iokit/IOGraphicsFamily/fb.c:259-271 | the visible screen gets exactly that pixel, and the dirty interval still covers every row that differs from the hardware |
| `Framebuffer.Display.PutPixels` | iokit/IOGraphicsFamily/fb.c:273-300 | the visible screen changes as specified, dirty tracking kept |
| `Framebuffer.Display.FillRowFast` | iokit/IOGraphicsFamily/fb.c:307-332 | four pixels a turn plus the tail equals one pixel at a time |
| `Framebuffer.Display.FillRect` | iokit/IOGraphicsFamily/fb.c:384-409 | equals single pixels over the clipped rectangle, and marks its rows |
| `Framebuffer.Display.Flush` | iokit/IOGraphicsFamily/fb.c:228-257 | copies the dirty rows: the whole hardware screen then equals the window |
| `Framebuffer.Display.Clear` | iokit/IOGraphicsFamily/fb.c:411-415 | fills the screen and puts hardware and window in step |
| `Framebuffer.Display.FreePast` | iokit/IOGraphicsFamily/buffer.c:99-114 | moving the window to the top of the buffer keeps what is visible and blanks all rows below it |
| `Framebuffer.Display.ScrollUp` | iokit/IOGraphicsFamily/fb.c:417-455 | for every number of lines: whether the window stays inside, the exact new buffer, the visible screen of the direct path whenever it does, and exactly when the invariant survives |
| `Framebuffer.Display.RunAll` | iokit/IOGraphicsFamily/fb.c:48-455 | over every run of draws, flushes and scrolls that keep the invariant by the exact conditions above, the visible screen is that of a plain screen, and a flush shows it on the hardware |
| `Pci.MarkBit` | iokit/IOPCIFamily/pci.c:113-116 | setting one bit of the bitmap marks that bus and no other |
| `Pci.ClosedReaches` | iokit/IOPCIFamily/pci.c:75-120 | a bus set closed under enumerated bridges contains everything reachable from it |
| `Pci.ScanComplete` | iokit/IOPCIFamily/pci.c:122-136 | a finished scan's buses are exactly the reachable ones and its log exactly their enumerated functions, each once |
| `PciRaw.AddressFields` | iokit/IOPCIFamily/pci.c:14-18 | the address word spells bus, device, function and aligned offset |
| `PciRaw.EnumeratedExact` | iokit/IOPCIFamily/pci.c:94-111 | the functions recorded, from doublewords 0x00 and 0x0c |
| `PciRaw.EdgeExact` | iokit/IOPCIFamily/pci.c:75-92 | bus c hangs under bus b if and only if an enumerated function of b has class 0x0604, header type 1 and c != 0 in bits 15..8 of doubleword 0x18 |
| `PciRaw.RootExact` | iokit/IOPCIFamily/pci.c:122-136 | the scan starts at bus 0, or at every bus with bit 7 of doubleword 0x0c of 0:0.0 |
| `PciRaw.DescribeExact` | iokit/IOPCIFamily/pci.c:32-60 | every identification field of a recorded device from its bits |
| `PciRaw.ResourcesExact` | iokit/IOPCIFamily/pci.c:61-73 | base addresses and interrupt line by doubleword |
| `PciRaw.BehindBridge` | iokit/IOPCIFamily/pci.c:75-92 | with a bridge to bus 1 at 0:1.0, bus 1 is scanned |
| `Pci.DeclaredExact` | iokit/IOPCIFamily/pci.c:94-111 | a device is enumerated as its header-type byte declares if and only if that bit agrees with the cache-line-size bit the aligned read tests, or nothing lies beyond function 0 |
| `Pci.DeclaredMissed` | iokit/IOPCIFamily/pci.c:94-111 | a concrete two-function device whose second function is never recorded |
| `Pci.Scanner.AddDevice` | iokit/IOPCIFamily/pci.c:32-73 | the table holds the descriptions of the first 512 checked functions, in order |
| `Pci.Scanner.CheckFunction` | iokit/IOPCIFamily/pci.c:75-92 | records the function once, scans the bus behind a bridge, and disturbs no other position of the scan |
| `Pci.Scanner.CheckDevice` | iokit/IOPCIFamily/pci.c:94-111 | every enumerated function of the device is recorded and every bus behind it marked |
| `Pci.Scanner.ScanBus` | iokit/IOPCIFamily/pci.c:113-120 | terminates by the unmarked buses; marks only buses reachable from this one and adds only their functions |
| `Pci.Scanner.Scan` | iokit/IOPCIFamily/pci.c:122-136 | marks exactly the buses reachable from the roots, checks exactly their enumerated functions without repetition, and returns min(512, number of functions) |
| `Line.MinorExact` | game/gfx.c:99-110 | the rounded minor coordinate is within half a pixel of the ideal line and is the only such integer |
| `Line.Advance` | game/gfx.c:99-110 | Bresenham's two tests lead from one rounded pixel to the next, and 2 * err stays within three times the length |
| `Line.LineEnds` | game/gfx.c:88-112 | the line starts at (x0, y0) and reaches (x1, y1) at pixel max(dx, dy) and no earlier |
| `Line.LineSteps` | game/gfx.c:99-110 | consecutive pixels differ by at most one on each axis, towards the end, and by one on the long axis |
| `Line.LineError` | game/gfx.c:99-110 | every pixel has twice the distance of j*dx and i*dy <= max(dx, dy) and stays in the box of the ends |
| `Line.LineNearest` | game/gfx.c:99-110 | no pixel of the same column (row, if steep) is nearer to the ideal line than the one drawn |
| `Line.NearFits` | game/gfx.c:90-108 | ends at most 715827882 apart on each axis never overflow |
| `Line.FlatExact` | game/gfx.c:90-108 | a horizontal line overflows if and only if it has 2^30 pixels or more to go |
| `Line.Draw` | game/gfx.c:88-112 | wherever its signed arithmetic is defined, terminates and draws exactly the max(dx, dy) + 1 pixels of the closed form |
| `Ext3.Locate` | bsd/ext3/src/inode.cpp:94-118 | finds the device block of a logical block: direct, through the indirect block, or a hole |
| `Ext3.WithinBlock` | bsd/ext3/src/inode.cpp:86-92 | bytes that stay in one block come from that block |
| `Ext3.Le32Bytes` | bsd/ext3/src/inode.cpp:108-111 | the words of an indirect block are little-endian |
| `Ext3.FileByte` | bsd/ext3/src/inode.cpp:79-131 | every byte of a file from the block that word k of i_block, or word k - 12 of the indirect block, names; zero in holes |
| `Ext3.ReadData` | bsd/ext3/src/inode.cpp:74-131 | delivers exactly the slice of the block-mapped contents (holes as zeros), cut at the end of file, touches nothing else of the buffer, and fails only if the device does |
| `Ext3.SeekWraps` | bsd/ext3/src/fs.cpp:227-256 | seek lands on the target modulo 2^32 and refuses exactly the residues past the end |
| `Ext3.SeekExact` | bsd/ext3/src/fs.cpp:227-256 | every seek goes to its target, or is refused when that lies outside the file, if and only if the file is smaller than 2 GiB |
| `Ext3.CountExact` | bsd/ext3/src/inode.cpp:130 | the result of a read is the number of bytes delivered if and only if that is below 2 GiB |
| `Ext3.FileSystem.AllocFd` | bsd/ext3/src/fs.cpp:155-165 | takes the lowest free descriptor and changes no other |
| `Ext3.FileSystem.Open` | bsd/ext3/src/fs.cpp:167-194 | succeeds if and only if mounted, resolved, readable and a descriptor is free; the new file is at position 0 and no open file changes |
| `Ext3.FileSystem.Close` | bsd/ext3/src/fs.cpp:196-206 | frees exactly an open descriptor |
| `Ext3.FileSystem.Read` | bsd/ext3/src/fs.cpp:208-225 | delivers the next bytes and advances over them; in every reachable state what was delivered since open or seek is the slice of the file up to the position, and pos <= size |
| `Ext3.FileSystem.Seek` | bsd/ext3/src/fs.cpp:227-256 | moves only within the file and changes no other descriptor |
| `Ext3.FileSystem.Unmount` | bsd/ext3/src/fs.cpp:75-92 | closes every file, so no open descriptor outlives its device |
| `Checksum.FoldStep` | iokit/IONetFamily/ipv4.c:35-36 | one folding step keeps the residue modulo 65535 and gets smaller |
| `Checksum.IpChecksum` | iokit/IONetFamily/ipv4.c:24-39 | the accumulate and fold loops compute the ones'-complement checksum, odd tail included, in network order |
| `Checksum.CheckZero` | iokit/IONetFamily/ipv4.c:115 | the receiver's test holds if and only if the word sum is a positive multiple of 65535 |
| `Checksum.WordAtBytes` | iokit/IONetFamily/ipv4.c:29-33 | words and addresses are read most significant byte first |
| `Checksum.SumBytes` | iokit/IONetFamily/ipv4.c:29-33 | even places weigh 256, odd places 1, the last odd byte included |
| `Checksum.RfcExample` | iokit/IONetFamily/ipv4.c:24-40 | the example of section 3 of RFC 1071 |
| `Checksum.Verifies` | iokit/IONetFamily/ipv4.c:41-55 | storing the checksum of a packet whose checksum word is zero makes it verify, for every length below the accumulator's wrap |
| `Checksum.OneWord` | iokit/IONetFamily/ipv4.c:115 | a verified packet with one 16-bit word changed still verifies if and only if the words are equal modulo 65535 and the changed packet does not sum to 0 |
| `Checksum.HeaderVerifies` | iokit/IONetFamily/ipv4.c:41-55 | every header hdr_fill builds has checksum 0 |
| `Checksum.HeaderBytes` | iokit/IONetFamily/ipv4.c:42-56 | every byte of the header but the checksum, by offset and value |
| `Checksum.FillHeader` | iokit/IONetFamily/ipv4.c:41-55 | writes exactly the 20 header bytes into the frame |
| `Checksum.Receive` | iokit/IONetFamily/ipv4.c:98-124 | accepts a packet if and only if it is a whole option-free IPv4 packet for this host whose header words sum to a positive multiple of 65535, and hands on protocol, payload and source |
| `Checksum.HeaderAccepted` | iokit/IONetFamily/ipv4.c:98-124 | everything up to the MTU that is sent with hdr_fill's header is accepted at its destination and comes out as it was sent, also behind link padding |
| `Checksum.ReplyVerifies` | iokit/IONetFamily/icmp.c:40-48 | every echo reply has checksum 0, odd lengths included, and keeps code, identifier, sequence and data |
| `Checksum.EchoReply` | iokit/IONetFamily/icmp.c:19-51 | an echo request, and nothing else, is answered with that reply |
| `Checksum.EchoRequest` | iokit/IONetFamily/icmp.c:53-71 | the request carries type, identifier, sequence and data, and has checksum 0 |
| `Memmove.MovedMore` | libkern/libkern/string.c:10-24 | a forward copy that never overtakes its source extends by one word of any width |
| `Memmove.MovedLower` | libkern/libkern/string.c:41-43 | a backward copy extends downwards by one byte, the source being above what was written |
| `Memmove.MemCpy` | libkern/libkern/string.c:5-27 | 8-, 4- and 1-byte copying together move the bytes and change nothing else, whenever the destination does not lie inside the source ahead of it |
| `Memmove.MemMove` | libkern/libkern/string.c:29-45 | the destination gets the original source bytes and nothing else changes, for every overlap and alignment |
| `Udiv.Align` | libkern/libkern/udivdi3.c:9-12 | the first loop shifts without losing a bit and ends above half the dividend |
| `Udiv.Turn` | libkern/libkern/udivdi3.c:14-21 | one turn of the second loop keeps dividend = rest + divisor * quotient, adds a clear bit, and shifts right without losing one |
| `Udiv.UDivMod` | libkern/libkern/udivdi3.c:1-24 | the exact quotient and remainder for all 64-bit operands; 0 for division by zero |
| `Udiv.TruncUnique` | libkern/libkern/udivdi3.c:34-71 | truncation toward zero determines the quotient |
| `Udiv.Div` | libkern/libkern/udivdi3.c:34-52 | truncates toward zero for all operands except the minimum value |
| `Udiv.Mod` | libkern/libkern/udivdi3.c:54-71 | the remainder of truncation, with the sign of the dividend |
| `Sched.TickNearer` | bsd/kern/init_ram_getty/proc.c:33-44 | a runnable task is selected by a tick or comes strictly nearer |
| `Sched.PanicExact` | bsd/kern/init_ram_getty/proc.c:46-47 | a tick panics if and only if no task at all is runnable, so never while pid 0 is |
| `Sched.Fair` | bsd/kern/init_ram_getty/proc.c:22-48 | over every history of the other tasks, a task that stays runnable is selected within task_count - 1 ticks (task_count for the current one) |
| `Sched.Table.Tick` | bsd/kern/init_ram_getty/proc.c:22-48 | the in-place tick selects as specified, counts the tick, and panics exactly as specified |

## Left out

- Slot 511: the recursive window makes a PML4 its own child, so every statement about translations is for slots 0..510; 1 GiB leaves do not occur in well-formed spaces.
- Port I/O, memory-mapped I/O, interrupts, `cr3` loads, `invlpg` and the TLB: `cr3` is a field and walks read memory directly; tables are reached by frame number rather than through the identity map.
- Accessed, dirty, global and PAT bits: stored in words, not part of a translation.
- Paging.Editor.MapRegion: the loop does not end for a region that reaches the last page of the address space; such a region enters slot 511 and is outside the statement.
- pmm_total_memory: a statistic.
- Pmm.FrameStack.Reserve: not for a range that ends in the last page of the address space, where the loop of the source does not end.
- Elf.Loader.Load: the image is a value, so it does not lie in pages the load remaps, and what stray reads outside it return is not modelled; segment addresses do not wrap and avoid slot 511; kernel stores ignore the write bit, as CR0.WP is clear; when the last page was silently not mapped, what a copy through an older translation leaves in memory is not stated.
- AES key expansion: the round keys are arbitrary, so the block theorems hold for any schedule; ECB mode, whose tail handling loses bytes, is not modelled.
- AesModes.CbcEncryptInto: for lengths below 2^32 - 16, from which on the block loop of the source does not end.
- AesModes.CbcDecryptInto: the output buffer holds the padded text, which the source does not check, and does not overlap the input.
- AesModes.CtrInto: where the length test wraps, the output buffer must hold the message; the source would write past it.
- Equality of digests with FIPS 180-4 and RFC 1321: the compression functions are a parameter of the hash model.
- Hash.HmacInto: needs a digest of at most 64 bytes, as all three algorithms have.
- Framebuffer.Display.ScrollUp: once the window is past the buffer, what the flush copies from there is not modelled. Display initialisation, modes above 32 bits, colour masks wider than 8 bits and 32-bit modes whose pitch is not a multiple of 4 are left out.
- Line.Draw: not for ends whose signed arithmetic overflows, which the language leaves undefined; circles and filled shapes are left out as easier.
- Configuration space is a function that does not change during a PCI scan; `pci_find_class` and the other look-ups are left out as easy.
- Double and triple indirect ext3 blocks read as zeros, as in the code; path resolution, directories, inode and superblock decoding and the sector device are inputs (`Open`, `Mount`, `Disk.ReadBlock`).
- Ext3.FileSystem.Read: the caller's buffer is not the descriptor table itself.
- Ext3.FileSystem.Seek: negating the most negative offset is taken to wrap, which the language leaves undefined.
- Checksum.Verifies: for packets up to 131074 bytes, below the wrap of the 32-bit accumulator; the UDP checksum, ARP, routing and link framing are not modelled.
- Checksum.EchoReply: for packets that fit the 1500-byte reply buffer, as all received ones do.
- Memmove.MemCpy: for ranges where the C contract of memcpy, or memmove's delegation, allows it; addresses do not wrap.
- Udiv.Div: not for the minimum value, whose negation overflows.
- Sched.Table.Tick: the tick counter is unbounded; vfork exclusion and the rest of process management are not modelled.
- The games, desktop, installer, audio, HID, ACPI and boot code: interface and device plumbing.
