# MajorPrivacy: verified models of its storage, header, encoding and change-tracking cores

This project models five parts of MajorPrivacy in Dafny and proves what they promise.

**RAM disks and image files.** `VirtualMemoryIO` and `PhysicalMemoryIO` are classes with the fields and loops
of `CVirtualMemoryIO` and `CPhysicalMemoryIO`: a table of blocks that are allocated on their first non-zero write
and freed when they become all zero. Both are proved against one specification (`SparseDisk`), and that
specification against a flat array of bytes, call by call (`SparseDiskBytes`) and over whole runs (`RamDiskRuns`),
denied memory included. The page-frame store works through one window that shows one block at a time
(`AddressWindow`); `StorePair` drives both stores side by side. `DataSearch` holds the zero scans with their
sentinel. `ImageFileIO` holds the unaligned file access.

**The encrypted volume header.** `VolumeHeader`, `HeaderOpen` and `HeaderCredentials` say how a header is sealed,
who can open it, and that nobody else can. `KeySlots`, `PasswordChange` and `CredentialRuns` follow key slots
through every run of password changes; `HeaderCreation` says what a new header holds, `HeaderBackup`, `HeaderEdit`
and `HeaderEditor` add backup, restore and editing.
`CryptoIO` is the class with the methods of `CCryptoIO`, `HeaderFiles` holds its static ones, and `CryptoData` the
sector-by-sector data path. Ciphers, key derivations and checksums are functions about which only the laws in
`VolumeHeader.Lawful` and `CryptoData.Bijective` are used; `CryptoLaws` shows that the former can be met. What a
key schedule takes of a key is modelled as it is: a prefix whose length depends on the cipher.

**The Variant format.** `VariantCodec`, `VariantForms` and `VariantTree` give the wire format and its round trips, `VariantLookup`
the searches, the iterator and the builder of the Go side, `VariantInPlace` and `VariantInPlaceRuns` the builder
of the C side on the caller's buffer. `VariantItems` says what a reader makes of entries that builder has lost.

**Loader initialisation.** `LoaderInit` is the compare-and-swap protocol of `EntrypointC` as a state machine over
any number of threads.

**Pending changes.** `PendingChanges` is the fold of the event log behind the commit and discard dialog.

## Findings

Properties that the code does not have everywhere are stated with the exact condition under which it has them.

- A RAM-disk request that straddles the end of the table can run past it, and one that does not can leave a disk
  size short of its end: `SparseDiskTable.WalkStaysInTable`; inputs `SparseDiskBytes.StraddleRunsPast` and
  `SparseDiskBytes.SizeFallsShort`.
- An aligned read of an image file returns true although the file ends inside the range, an unaligned one does
  not: `ImageFileIO.ImageFileIO.DiskRead`; input `ImageFileIO.ShortReads`.
- An update of the extended header alone is copied to the offset on the disk, which nothing checks. It can run past
  the end of the header or over the master key: `HeaderEdit.CopyStaysInTail`; inputs
  `HeaderEditInputs.CopyPastTheEnd` and `HeaderEditInputs.CopyOverTheKey`.
- An update can bring a negative footer count, which nothing checks. The header checksum then covers slots, is taken
  over their bytes and tested over what they decrypt to, and no password opens the volume again:
  `HeaderEdit.SetHeaderReadable` with `VolumeHeader.SumHoldsExactly`; guard `HeaderEdit.SumGuard`; input
  `HeaderEditInputs.FooterOverSlots`.
- A change of header version does not check that the slots fit: `HeaderEdit.SetHeaderReadable`; input
  `HeaderEditInputs.SlotsPastTheEnd`. Its check against downgrading a long header can never fail, the length check
  before it refuses the same updates.
- The search for a slot's password takes slots to be 192 bytes apart, setting a slot does not:
  `KeySlots.SlotFoundExactly`; input `HeaderEditInputs.LargeSlotsMissed`. In shorter slots a key runs over its
  neighbour: `KeySlots.SetKeepsOthers`.
- An update that changes the header's version keeps nothing of its slots but what their bytes decrypt to, and nothing
  past the first 2048 bytes: `HeaderEditor.VersionSwitched`.
- A comment in `ImBox/dc/volume_lib/crypto_head.c` (lines 94 to 98) has the password search reproduce the derivations
  of an earlier release, 1001 to 1100, but neither search order holds them: such a volume opens only for a password
  that names its derivation, or by way of another one: `HeaderCredentials.SelectorOpens` and
  `HeaderCredentials.PasswordOpensExactly`.
- Formatting with a password that names a slot writes the header and then fails: the contract of
  `CryptoIO.CryptoIO.InitCrypto` with `CryptoIO.CryptoIO.CreatedNamed`.
- Re-encoding a value can give other bytes: `VariantCodec.RewrittenSame`; input `VariantCodec.RewrittenLonger`. A tree
  can outgrow its length field that way: `VariantTree.Reencoded`; input `VariantTree.Outgrown`. A name longer than
  255 bytes does not come back: `VariantTree.KeyExactly`.
- The capacity checks of the in-place builder do not count the header of a value: the contract of
  `VariantInPlace.CVariant.InsertRaw` and its siblings; `VariantInPlace.HeaderNotCounted`.
- An entry that has no type when it is finished, or was given a call of the wrong type, leaves its key behind, and its
  container reports nothing: `VariantInPlaceRuns.BuildContainer` with `VariantItems.ReadsExactly`; inputs
  `VariantInPlaceRuns.EntriesToLose`, run by `VariantInPlaceRuns.EnterLost`.

## Model

| member | source | states |
|---|---|---|
| DataSearch.SearchStd | ImBox/ImDiskIO.cpp:712-725 | for every size that is a multiple of 4: stops at its sentinel, returns true exactly when some byte of the range is not zero, and leaves the whole buffer byte for byte as it was |
| DataSearch.SearchSse2 | ImBox/ImDiskIO.cpp:730-744 | the same with words of 16 bytes |
| DataSearch.SearchAvx | ImBox/ImDiskIO.cpp:746-760 | the same with words of 32 bytes |
| DataSearch.Search | ImBox/ImDiskIO.cpp:712-760 | whichever variant is picked, the answer on an aligned size is the same |
| SparseDiskTable.WalkStaysInTable | ImBox/VirtualMemoryIO.cpp:92-124 | a request never runs past the table if and only if it lies inside it, starts past its end, or straddles the end with the part inside no longer than (offset + size - 1) mod the block size: the loop expands to an offset that has not been advanced and a size that has already shrunk; a request that stays inside leaves a table that holds it, and the disk size given by Growth |
| SparseDiskTable.WriteWalks | ImBox/VirtualMemoryIO.cpp:92-124 | how far a write grows the table depends on offset and size alone, never on the data or on refused memory |
| SparseDiskTable.ReadWalks | ImBox/VirtualMemoryIO.cpp:135-147 | a read grows the table exactly as a write of the same range does |
| SparseDiskTable.ReadPads | ImBox/VirtualMemoryIO.cpp:129-150 | a read changes nothing but the size of the table, and the new blocks are zero |
| SparseDiskTable.WriteKeepsShape | ImBox/VirtualMemoryIO.cpp:80-127 | every write, refused or not, keeps the table covering the disk size in blocks of one size |
| SparseDiskTable.WalkKeepsCeil | ImBox/VirtualMemoryIO.cpp:57-78 | every walk leaves the table exactly as long as the disk size needs |
| SparseDiskFlat.WriteFromSettles | ImBox/VirtualMemoryIO.cpp:92-126 | every block of the grown table ends as the request wants it, but for those that were all zero, were to take data and were denied memory, which stay as they were; true is returned exactly when there is none of those |
| SparseDiskFlat.SettleStep | ImBox/VirtualMemoryIO.cpp:95-123 | one turn of the loop brings the blocks nearer to that outcome without changing it |
| SparseDiskBytes.WriteSplices | ImBox/VirtualMemoryIO.cpp:80-127 | a write inside the table returns true exactly when the flat disk becomes the grown one with the buffer spliced in |
| SparseDiskBytes.ReadSlices | ImBox/VirtualMemoryIO.cpp:129-150 | a read inside the table returns the slice of the flat disk |
| SparseDiskBytes.TrimZeros | ImBox/VirtualMemoryIO.cpp:152-183 | a trim of any list of ranges writes zeros to the parts inside the table and changes nothing else |
| SparseDiskBytes.FlatInjective | ImBox/VirtualMemoryIO.cpp:80-127 | the flat bytes determine the blocks, so nothing is lost by looking at the disk flat |
| SparseDiskBytes.StraddleRunsPast | ImBox/VirtualMemoryIO.cpp:92-94 | 8192 bytes written from the start of a disk of 4096 run past the table |
| SparseDiskBytes.SizeFallsShort | ImBox/VirtualMemoryIO.cpp:92-94 | 1536 bytes written at 3584 of a disk of 4096 are all stored, and the disk size is 4608 instead of 5120 |
| RamDiskRuns.ServeRefines | ImBox/VirtualMemoryIO.cpp:57-183 | one request, served by the blocks and by a flat array: same bytes, size, data and result |
| RamDiskRuns.WriteRefines | ImBox/VirtualMemoryIO.cpp:80-127 | a write, whatever memory is denied: the data is spliced in except into blocks denied memory, and the result is false exactly when there is one |
| RamDiskRuns.GrantedSplices | ImBox/VirtualMemoryIO.cpp:109-119 | with no memory denied that is a plain splice |
| RamDiskRuns.RunRefines | ImBox/VirtualMemoryIO.cpp:57-183 | over every run of writes, reads and trims that stay in the table, straddling ones included, with memory granted or denied at will, the sparse disk is a growing flat array: same bytes, same size, same data read, same results |
| LiveBlocks.PutTurnLive | ImBox/VirtualMemoryIO.cpp:95-119 | how one turn changes the number of blocks that hold a non-zero byte |
| LiveBlocks.LivePad | ImBox/VirtualMemoryIO.cpp:57-78 | growing the table changes that number by nothing |
| LiveBlocks.ChunkAligned | ImBox/VirtualMemoryIO.cpp:95-100 | aligned requests make every slice given to the zero scan aligned |
| LiveBlocks.ZeroOutside | ImBox/VirtualMemoryIO.cpp:100 | a block is all zero after clearing a range exactly when both scanned sides of the range are |
| LiveBlocks.BlockShift | ImBox/VirtualMemoryIO.cpp:25-28 | the shift asked for if it is 12 to 30, and otherwise the nearer of the two |
| VirtualMemoryIO.VirtualMemoryIO.constructor | ImBox/VirtualMemoryIO.cpp:19-55 | a new disk is all zero blocks, of the size the shift gives after clamping it to 12 to 30, enough of them for the disk size |
| VirtualMemoryIO.VirtualMemoryIO.GetAllocSize | ImBox/VirtualMemoryIO.cpp:42-45 | is the number of blocks holding a non-zero byte times the block size: a function of the contents, whatever the history |
| VirtualMemoryIO.VirtualMemoryIO.Expand | ImBox/VirtualMemoryIO.cpp:57-78 | keeps the contents and appends zero blocks; shrinking does nothing |
| VirtualMemoryIO.VirtualMemoryIO.DiskWrite | ImBox/VirtualMemoryIO.cpp:80-127 | the loop over table entries does what the specification of the write does, result and growth included, keeps a table entry non-null exactly when its block holds a non-zero byte and the counter equal to the number of such entries, and leaves the buffer as it was |
| VirtualMemoryIO.VirtualMemoryIO.WriteOne | ImBox/VirtualMemoryIO.cpp:93-119 | one turn: expand if needed, store, clear, free or allocate the block, refused memory reported |
| VirtualMemoryIO.VirtualMemoryIO.PutBlock | ImBox/VirtualMemoryIO.cpp:95-119 | the five cases of a block, each keeping the canonical form |
| VirtualMemoryIO.VirtualMemoryIO.DataOutside | ImBox/VirtualMemoryIO.cpp:100 | the two scans find data exactly when clearing the range would leave some |
| VirtualMemoryIO.VirtualMemoryIO.DiskRead | ImBox/VirtualMemoryIO.cpp:129-150 | fills the buffer with the slice, and changes no block |
| VirtualMemoryIO.VirtualMemoryIO.TrimProcess | ImBox/VirtualMemoryIO.cpp:152-183 | does what the specification of the trim does, freeing exactly the blocks that become zero |
| AddressWindow.Window.Map | ImBox/PhysicalMemoryIO.cpp:142-142 | the window shows exactly the frames mapped, in order; what was written through it before is in its frames |
| AddressWindow.Window.Allocate | ImBox/PhysicalMemoryIO.cpp:160-169 | hands out frames that are new, distinct and zero |
| AddressWindow.Window.Free | ImBox/PhysicalMemoryIO.cpp:148-150 | takes away exactly the frames freed |
| AddressWindow.GatherScatter | ImBox/PhysicalMemoryIO.cpp:142-144 | bytes written through a mapping of distinct frames are what the same mapping shows later |
| AddressWindow.ScatterApart | ImBox/PhysicalMemoryIO.cpp:142-144 | and they are seen through no mapping of other frames |
| FrameTable.FreeKeepsOthers | ImBox/PhysicalMemoryIO.cpp:147-151 | freeing one block's frames changes no other block |
| FrameTable.AllocateKeepsBlocks | ImBox/PhysicalMemoryIO.cpp:159-173 | giving frames to one block changes no other block |
| PhysicalMemoryIO.PhysicalMemoryIO.constructor | ImBox/PhysicalMemoryIO.cpp:24-82 | a new store is all zero blocks and holds no frame |
| PhysicalMemoryIO.PhysicalMemoryIO.Open | ImBox/PhysicalMemoryIO.cpp:52-82 | fails without the privilege, and for blocks smaller than a page; otherwise the store is open and all zero |
| PhysicalMemoryIO.PhysicalMemoryIO.MapEntry | ImBox/PhysicalMemoryIO.cpp:142-142 | after mapping, the window shows exactly the block of that entry |
| PhysicalMemoryIO.PhysicalMemoryIO.NewBlock | ImBox/PhysicalMemoryIO.cpp:154-173 | a block comes into use only with all its frames; fewer are given back, and then nothing has changed |
| PhysicalMemoryIO.PhysicalMemoryIO.RollBack | ImBox/PhysicalMemoryIO.cpp:165-167 | the partial allocation is undone completely |
| PhysicalMemoryIO.PhysicalMemoryIO.DropBlock | ImBox/PhysicalMemoryIO.cpp:147-152 | the counter and the frames held go down together |
| PhysicalMemoryIO.PhysicalMemoryIO.Expand | ImBox/PhysicalMemoryIO.cpp:84-112 | keeps the contents and appends zero blocks |
| PhysicalMemoryIO.PhysicalMemoryIO.DiskWrite | ImBox/PhysicalMemoryIO.cpp:125-183 | the same specification as the other store, with a block granted exactly when the system hands out all its pages; frame rows of blocks in use never overlap and frames held are the live blocks times the pages of a block |
| PhysicalMemoryIO.PhysicalMemoryIO.DiskRead | ImBox/PhysicalMemoryIO.cpp:185-207 | the same specification as the other store |
| PhysicalMemoryIO.PhysicalMemoryIO.TrimProcess | ImBox/PhysicalMemoryIO.cpp:209-240 | the same specification as the other store |
| PhysicalMemoryIO.PhysicalMemoryIO.GetAllocSize | ImBox/PhysicalMemoryIO.cpp:47-50 | the same function of the contents as the other store |
| StorePair.MirrorWrite | ImBox/PhysicalMemoryIO.cpp:125-183 | given the same request and the same answers about memory, both stores end with the same contents and return the same |
| StorePair.MirrorRead | ImBox/PhysicalMemoryIO.cpp:185-207 | both stores return the same bytes |
| StorePair.MirrorTrim | ImBox/PhysicalMemoryIO.cpp:209-240 | both stores end with the same contents |
| StorePair.MirrorAllocSize | ImBox/PhysicalMemoryIO.cpp:47-50 | both stores report the same allocated size |
| ImageFileIO.TurnFits | ImBox/ImageFileIO.cpp:320-330 | every turn writes a positive part of the request that fits the aligned block read and written, which fits the buffer |
| ImageFileIO.TurnWhole | ImBox/ImageFileIO.cpp:307-333 | on aligned requests every turn is whole sectors, so nothing is read back |
| ImageFileIO.WriteAtTwice | ImBox/ImageFileIO.cpp:320-361 | two writes one behind the other are one write of both |
| ImageFileIO.TurnPlaces | ImBox/ImageFileIO.cpp:335-361 | a turn that knows nothing of what it read still puts its part of the request in place and spoils nothing outside the sectors of the request |
| ImageFileIO.ImageFileIO.OneTurn | ImBox/ImageFileIO.cpp:320-361 | one read-modify-write puts its part of the buffer in place and keeps every other byte the file had; after a failed read only the rest of its sectors can change; both results say exactly whether a transfer failed |
| ImageFileIO.ImageFileIO.WriteBuffered | ImBox/ImageFileIO.cpp:313-363 | the slow loop ends and the written part holds the buffer; it stops exactly at a write that fails; every other byte that existed is unchanged unless a read failed, and then only bytes of the first and last sector can be lost; on aligned requests the file is the one the direct path gives |
| ImageFileIO.ImageFileIO.WriteDirect | ImBox/ImageFileIO.cpp:306-311 | the direct path writes exactly the buffer at the offset, unless that write fails |
| ImageFileIO.ImageFileIO.DiskWrite | ImBox/ImageFileIO.cpp:302-364 | at any offset and size, for any sector size dividing the buffer: false is returned exactly when a raw write of this call failed; true means the whole buffer is in place, whatever the unchecked reads did; every other byte the file had is unchanged, but for the first and last sector when a raw read of this call failed; the new length is exact: a write past the end makes the file end with a whole sector, whose bytes behind the request may be anything |
| ImageFileIO.ImageFileIO.ReadTurn | ImBox/ImageFileIO.cpp:384-415 | one turn copies the file's own bytes, and none exactly at end of file |
| ImageFileIO.ImageFileIO.ReadBuffered | ImBox/ImageFileIO.cpp:377-417 | unless a raw read fails, fills a prefix with the file's bytes up to its end and returns true exactly when the whole range lies in the file; a failed read makes it return false with a shorter prefix |
| ImageFileIO.ImageFileIO.DiskRead | ImBox/ImageFileIO.cpp:366-418 | the same through either path, except that the direct path also returns true for a range that the file ends in |
| ImageFileIO.ShortReads | ImBox/ImageFileIO.cpp:371-374 | of a file of 512 bytes an aligned read of 1024 returns true and one of 1023 returns false, unless a raw read fails |
| ImageFileIO.ImageFileIO.TrimProcess | ImBox/ImageFileIO.cpp:420-435 | zeros what the ranges cover of the file, and nothing else |
| ImageFileIO.LastWriteShows | ImBox/ImageFileIO.cpp:302-364 | after any run of writes each byte is what the last write covering it put there, or what it was |
| CryptoLaws.LawsCanBeMet | ImBox/dc/volume_lib/header_io.c:154-193 | the laws assumed of sealing, key derivation and checksums are met all at once by a concrete record, so no theorem here is empty |
| VolumeHeader.OpenSealed | ImBox/dc/volume_lib/head_util.c:22-91 | sealing a header and unsealing it under the same key gives it back, with the slots stored raw in between, if the checksum covers none of them |
| VolumeHeader.OpensBySum | ImBox/dc/volume_lib/header_io.c:154-193 | a sealed header opens under its key if and only if its checksum holds over what its first 2048 bytes decrypt to |
| VolumeHeader.ClearSumHolds | ImBox/dc/volume_lib/header_io.c:154-161 | which it does when the footer count keeps it inside those bytes and off every raw slot |
| VolumeHeader.SumHoldsExactly | ImBox/dc/volume_lib/header_io.c:154-161 | otherwise it does exactly if every covered byte of a raw slot decrypts to itself, unless two contents have the same checksum |
| VolumeHeader.OpenTailOfSealed | ImBox/dc/dc_header.c:148-202 | the same for the tail when more was read than the header is long |
| VolumeHeader.SealParts | ImBox/dc/volume_lib/head_util.c:39-53 | the salt is in the clear, the base sealed, the slots raw, the rest encrypted |
| VolumeHeader.SealedByte | ImBox/dc/volume_lib/head_util.c:41-53 | a byte outside the raw slots unseals to itself although the slots were put over the ciphertext |
| VolumeHeader.RawByBlocks | ImBox/dc/volume_lib/crypto_head.c:450-458 | bytes of one cipher block are raw together or sealed together |
| VolumeHeader.CopySlots | ImBox/dc/volume_lib/crypto_head.c:432-461 | exactly the bytes of slots not marked disabled are taken from the source |
| HeaderOpen.ReadLenFits | ImBox/CryptoIO.cpp:117-126 | the first read is whole sectors, on the disk, and reaches every slot the password names |
| HeaderOpen.HeaderLength | ImBox/CryptoIO.cpp:92-108 | the lengths a header may have, in numbers, slots included |
| HeaderOpen.SecondReadEnough | ImBox/CryptoIO.cpp:182-218 | on a disk that stays as it is the second read returns the whole header |
| HeaderOpen.ReadCovers | ImBox/CryptoIO.cpp:92-108 | on success the header returned is all there, its slots and descriptors inside it |
| HeaderOpen.SearchOpened | ImBox/dc/volume_lib/crypto_head.c:360-405 | whatever key the search reports does open the header |
| HeaderCredentials.HeaderPassOpens | ImBox/dc/volume_lib/crypto_head.c:317-322 | the header password opens the header under its own derivation, under KDF_DEFAULT if that is 0 or 5 and under KDF_ALL if it is 0 to 10, and is reported as the header password if it names its derivation or no slot |
| HeaderCredentials.SlotPassOpens | ImBox/dc/volume_lib/crypto_head.c:324-344 | the password of a slot opens it under the same selectors, when it names its slot or searches far enough |
| HeaderCredentials.SelectorsOpen | ImBox/dc/volume_lib/crypto_head.c:365-390 | the two search orders in numbers: header and slot passwords under derivation 0 to 10 open with selector -3, those under 0 or 5 with selector -2 |
| HeaderCredentials.SelectorOpens | ImBox/dc/volume_lib/crypto_head.c:365-390 | any password with selector -3 opens a header as with the least of the derivations 0 to 10 that opens it, with -2 as with 0 or else 5, and not at all if there is none or the selector is below -3 |
| HeaderCredentials.PasswordOpensExactly | ImBox/dc/volume_lib/crypto_head.c:78-132 | a password that names a derivation and no slot opens the header if and only if what the derivation gives is the header key: the raw key has 256 bytes, and 0 to 10 and 1001 to 1100 are known |
| HeaderCredentials.OpensOnlyThis | ImBox/CryptoIO.cpp:170-180 | whatever opens the disk opens the header that was sealed there, and is a password that derives its key or unwraps it from the slot reported |
| HeaderCredentials.OpensByPassword | ImBox/CryptoIO.cpp:651-655 | an opening that reports no slot was made with the header password |
| HeaderCredentials.NamedSlotOpens | ImBox/dc/volume_lib/crypto_head.c:324-344 | a password that names a slot opens the header if and only if the bytes stored there unwrap to its key |
| HeaderCredentials.SearchFindsKey | ImBox/dc/volume_lib/crypto_head.c:299-405 | the search finds no other key than the one the header was sealed with |
| HeaderCredentials.SlotsOpen | ImBox/dc/volume_lib/crypto_head.c:332-344 | a slot that unwraps to the key is not missed |
| HeaderCredentials.FoundReads | ImBox/CryptoIO.cpp:156-226 | once the key is found the whole header comes back, in one read or two |
| KeySlots.SetSlotHolds | ImBox/dc/volume_lib/volume_head.c:143-172 | setting a slot wraps the header key under the slot key, marks the slot active and not corrupt, records its derivation, keeps its name, and makes its check sum right |
| KeySlots.EraseSlotHolds | ImBox/dc/volume_lib/head_util.c:161-203 | erasing a slot clears its descriptor and leaves only the random bytes in it |
| KeySlots.UpdateUsed | ImBox/dc/volume_lib/volume_head.c:54-64 | a slot in use has the old header key taken off and the new one put on, and stays in use |
| KeySlots.UpdateUnused | ImBox/dc/volume_lib/volume_head.c:65-71 | a slot not in use or spoilt is filled with random bytes and does not come into use |
| KeySlots.UsedExactly | ImBox/dc/volume_lib/volume_head.c:54-56 | in bytes of the tail: a slot is in use if and only if its active bit is set, its corrupt bit is not, and the CRC in its descriptor is that of the rest of the descriptor and of the slot |
| KeySlots.UpdateSlotsHolds | ImBox/dc/volume_lib/volume_head.c:50-71 | the loop does that to every slot, touches nothing behind the descriptors, and tells whether any slot was in use |
| KeySlots.TouchesOne | ImBox/dc/volume_lib/volume_head.c:52-53 | a change to one slot and its descriptor is seen by no other slot |
| KeySlots.SlotFoundExactly | ImBox/dc/volume_lib/crypto_head.c:330-337 | the search steps by 192 bytes whatever the slot size: in slots large enough for a key it reads what was set, for every key, if and only if the slots are of 192 bytes or the slot is the first |
| HeaderEditInputs.LargeSlotsMissed | ImBox/CryptoIO.cpp:1243-1288 | an accepted update brings two slots of 384 bytes, and the second one is not found |
| KeySlots.SetKeepsOthers | ImBox/dc/volume_lib/volume_head.c:143-172 | in any layout, setting a slot leaves all other slots and descriptors alone if and only if a wrapped key has room before the next slot or the descriptors, or there is no other slot |
| PasswordChange.CreatedKeyed | ImBox/CryptoIO.cpp:342-438 | a created header is sealed under the password it was created for and has no slot in use |
| PasswordChange.CreatedSlots | ImBox/CryptoIO.cpp:416-427 | every slot of a new header is inactive |
| HeaderCreation.CipherNames | ImBox/CryptoIO.cpp:354-371 | the seven cipher names whatever their case, the second name of the first, and none for it |
| HeaderCreation.CreateTaken | ImBox/CryptoIO.cpp:354-401 | when a header can be made, and the error when not: cipher before derivation before slots before the empty password |
| HeaderCreation.CreatedReads | ImBox/CryptoIO.cpp:403-430 | what is read of a new header, with the very password it was made for or with all derivations tried: the drawn salt, disk id and master key, the cipher named, derivation 5 for KDF_DEFAULT, data_off and length 65536, the slot layout, the random bytes drawn in the slots and zeros behind them |
| CredentialRuns.Rewrap | ImBox/dc/volume_lib/crypto_head.c:259-274 | taking the old key off and putting the new key on leaves a slot that its own password unwraps to the new key, as far as the cipher looks, whether the keys were derived or raw |
| CredentialRuns.Unwrap | ImBox/dc/volume_lib/crypto_head.c:244-257 | a wrapped key unwraps under the key that wrapped it |
| CredentialRuns.RewrapKeeps | ImBox/CryptoIO.cpp:707-729 | changing the header password with slots in use keeps the salt, and every slot password follows to the new key |
| CredentialRuns.ResaltKeeps | ImBox/CryptoIO.cpp:566-586 | without a slot in use a new salt is taken and the new password derives the key over it |
| CredentialRuns.RefillAndResalt | ImBox/CryptoIO.cpp:717-729 | the same for a header with slots none of which is in use |
| CredentialRuns.SetKeeps | ImBox/CryptoIO.cpp:686-693 | after setting a slot its new password and all other passwords work |
| CredentialRuns.EraseKeeps | ImBox/CryptoIO.cpp:678-685 | after erasing a slot all other passwords work |
| CredentialRuns.HeaderChangeKeeps | ImBox/CryptoIO.cpp:702-738 | a change of the header password always goes through, and the new password and every slot password work |
| CredentialRuns.ChangeKeeps | ImBox/CryptoIO.cpp:645-738 | every accepted change leaves the header of the same volume with exactly the next passwords in it; the salt is new if and only if the header password changes with no slot in use |
| CredentialRuns.PasswordChanged | ImBox/CryptoIO.cpp:604-746 | the same on the disk, the bytes behind the header unchanged |
| CredentialRuns.ChangeAccepted | ImBox/CryptoIO.cpp:604-700 | on a keyed header ChangePassword succeeds if and only if the opener is the header password, the derivation is 0 to 10, and either the new text is for the header and not empty or the slot is one the header has; every other refusal but a failed opening is ERR_INVALID_PARAM |
| CredentialRuns.CredentialsOpen | ImBox/CryptoIO.cpp:144-233 | in such a state the header password and every active slot's password open the header under its one key |
| CredentialRuns.RunKeeps | ImBox/CryptoIO.cpp:604-746 | over every run of calls, accepted or refused, the current passwords stay in a header of the same volume and the data is untouched |
| CredentialRuns.CreatedRunOpens | ImBox/CryptoIO.cpp:342-746 | from creation on, after any run, every current password opens the header with the master key and cipher it was created with |
| CryptoIO.UpdateKeySlots | ImBox/dc/volume_lib/volume_head.c:50-71 | the loop over the slots computes what the specification says, and stops at a used slot of an unknown type |
| CryptoIO.ReadHeaderFrom | ImBox/CryptoIO.cpp:144-233 | the loop ends even if others write to the store meanwhile, searches for the password once, makes at most two reads of an unchanging store, and returns what the specification says, with all of the header and its slots; ERR_IO_FAILED exactly when a read failed |
| CryptoIO.CryptoIO.WriteHeader | ImBox/CryptoIO.cpp:559-602 | seals under the key handed in, or under a fresh salt and a key from the password, and writes nothing but the front of the store; a store that is too short is written over whole; ERR_IO_FAILED exactly when the write failed |
| CryptoIO.CryptoIO.CreateHeader | ImBox/CryptoIO.cpp:342-438 | every error case, or the new header at the front of a store of any size; ERR_IO_FAILED exactly when the write failed |
| CryptoIO.CryptoIO.ChangeHeaderPass | ImBox/CryptoIO.cpp:702-736 | re-wraps before it re-seals, and asks for a new salt exactly when no slot was in use |
| CryptoIO.CryptoIO.ChangeSlot | ImBox/CryptoIO.cpp:657-700 | sets or erases the slot named, under the key already held |
| CryptoIO.CryptoIO.ChangePassword | ImBox/CryptoIO.cpp:604-746 | ERR_IO_FAILED exactly when a transfer failed; otherwise the store and the code are those of the specification, and on a keyed header the code is ERR_OK exactly for the changes that ChangeAccepted names; the password and the header length kept are those of the header written |
| CryptoIO.CryptoIO.InitCrypto | ImBox/CryptoIO.cpp:440-488 | ERR_IO_FAILED exactly when a transfer failed; otherwise a header that opens and is shorter than the store is mounted with its data key, its length and the derivation found, and any other one gives the code of its failure; a container just formatted with the header password opens whenever its header could be made, and is refused when there is nothing behind the header; with a password that names a slot the header is written and the call fails unless it opens |
| CryptoIO.CryptoIO.Mount | ImBox/CryptoIO.cpp:455-487 | the half of it that follows CreateHeader |
| CryptoIO.CryptoIO.CreatedOpens | ImBox/CryptoIO.cpp:461-464 | a header just created opens with the password it was created for |
| CryptoIO.CryptoIO.CreatedFills | ImBox/CryptoIO.cpp:469-472 | formatting a container of 64 KiB or less leaves a header as long as the container, whichever password opens it |
| CryptoIO.CryptoIO.CreatedNamed | ImBox/CryptoIO.cpp:461-467 | which it does only if the random bytes in that slot happen to unwrap to the new key |
| CryptoData.DecryptEncrypted | ImBox/CryptoIO.cpp:748-777 | decrypting sector by sector undoes encrypting |
| CryptoData.CryptConcat | ImBox/CryptoIO.cpp:755 | encrypting two stretches of sectors together or apart is the same |
| CryptoData.WriteSplicesPlain | ImBox/CryptoIO.cpp:748-762 | writing encrypted sectors behind the header splices them into the plaintext disk and leaves the header alone |
| CryptoData.ReadSlicesPlain | ImBox/CryptoIO.cpp:764-777 | reading and decrypting sectors gives the slice of the plaintext disk |
| CryptoData.TrimPlain | ImBox/CryptoIO.cpp:779-790 | a trimmed sector reads as what zeros decrypt to, and all other sectors as before |
| CryptoData.RunRefinesPlain | ImBox/CryptoIO.cpp:748-790 | every run of writes and trims acts on a flat plaintext disk and never on the header |
| CryptoIO.CryptoIO.DiskWrite | ImBox/CryptoIO.cpp:748-762 | returns false exactly when the transfer failed, else has spliced the buffer into the plaintext disk; touches neither the header nor anything else outside the range, and leaves the caller's buffer encrypted |
| CryptoIO.CryptoIO.DiskRead | ImBox/CryptoIO.cpp:764-777 | returns false exactly when the transfer failed, else the slice of the plaintext disk |
| CryptoIO.CryptoIO.TrimProcess | ImBox/CryptoIO.cpp:779-790 | moves the caller's ranges behind the header, keeps the header, and trims the plaintext disk |
| HeaderBackup.BackupIsCopy | ImBox/CryptoIO.cpp:815-828 | a backup of a header with slots is the header on the disk, byte for byte |
| HeaderBackup.RestoreIsCopy | ImBox/CryptoIO.cpp:905-936 | restoring it succeeds exactly for a password that opens it and a disk longer than it, and puts exactly that header in front |
| HeaderBackup.CredentialsOpenFile | ImBox/CryptoIO.cpp:903-910 | every password in the header at backup time opens the backup |
| HeaderBackup.RestoreUndoesRun | ImBox/CryptoIO.cpp:792-971 | after any run of password changes, restoring a backup with slots gives back the very disk that was backed up |
| HeaderBackup.BackupReseals | ImBox/CryptoIO.cpp:829-857 | a backup without slots is made if and only if the password opens the header as its own, and holds the same header under a salt and key of its own, from that password |
| HeaderBackup.RestoreReseals | ImBox/CryptoIO.cpp:938-961 | restoring it succeeds if and only if the password opens the file as the header password and the disk is longer than the header, and gives a header with the same fields that the password opens, the data untouched |
| HeaderBackup.RestoreReopens | ImBox/CryptoIO.cpp:792-971 | after any run of password changes, a backup without slots restores under the password it was made with: the header of backup time over a new salt, opened by that password, the data untouched |
| HeaderBackup.FileOpened | ImBox/dc/dc_header.c:121-214 | whatever opens a backup file opens the header it was made of |
| HeaderFiles.BackupHeader | ImBox/CryptoIO.cpp:792-873 | computes that backup and leaves the store as it was; ERR_IO_FAILED exactly when a read failed |
| HeaderFiles.RestoreHeader | ImBox/CryptoIO.cpp:875-971 | every error case in the order of the code, or the restored header on the store; ERR_IO_FAILED exactly when the write failed |
| HeaderEdit.CopyStaysInTail | ImBox/CryptoIO.cpp:1290-1291 | the copy of the extended header, which is not checked against the offset on the disk, stays in the tail of the header if and only if there is none, the base is updated as well, or the offset on the disk leaves room for it; otherwise it goes to that offset |
| HeaderEdit.InTailExactly | ImBox/CryptoIO.cpp:1290-1291 | a copy stays in the tail exactly when every byte it writes lies behind the base and before the end of the header |
| HeaderEditInputs.CopyPastTheEnd | ImBox/CryptoIO.cpp:1290-1291 | an accepted update with an extended header of 1000 bytes for offset 2000 of a header of 2048 |
| HeaderEditInputs.CopyOverTheKey | ImBox/CryptoIO.cpp:1178-1207 | an accepted change of version leaves offset 100, and the next update of the extended header is copied over the end of the master key |
| HeaderEdit.UpdateKeeps | ImBox/CryptoIO.cpp:1157-1173 | an accepted update stays inside the header exactly when its extended header fits, and then it changes neither the salt, the master key, the cipher, the re-encryption position nor the effective length |
| HeaderEdit.FieldsSelected | ImBox/CryptoIO.cpp:1239-1276 | within a version an update that is for the base, or for nothing in particular, sets flags, disk id, footer count, extended header offset, feature flags and the slot layout to its own, field by field; every other field, and the base under any other update, stays as it was |
| HeaderEdit.UpdateReadable | ImBox/CryptoIO.cpp:1224-1231 | an update of the same version leaves a header that passes the length check |
| HeaderEdit.SwitchReadable | ImBox/CryptoIO.cpp:1179-1207 | a change of version does not check the slots: the result passes the length check if and only if they fit |
| HeaderEdit.SetHeaderReadable | ImBox/CryptoIO.cpp:1070-1319 | after SetHeader the header password still reads the header, with the base as edited, if and only if the slots fit (or the version stays, or has none) and the checksum holds over what is stored, which it does when the footer count leaves it before the slots |
| HeaderEditor.UpdateTaken | ImBox/CryptoIO.cpp:1102-1237 | a header sealed under the volume's key is taken if and only if the password is the header's own and length, cipher, master key and re-encryption position are the volume's; one of the same version has to bring a valid extended header if it names one; the error for every other one |
| HeaderEditor.SealedUpdate | ImBox/CryptoIO.cpp:1146-1217 | SetHeader finds in an update the base and the tail that were sealed |
| HeaderEditor.UpdateReadBack | ImBox/CryptoIO.cpp:1239-1310 | after an update that was taken the header password reads the editor's values of the eight fields, and the old ones of all others; it does read them if the checksum in force ends before the slots |
| HeaderEditor.UpdateBytes | ImBox/CryptoIO.cpp:1233-1291 | every byte behind the base after an update, from the flags as they were given: the extended header's, the slots' as sent or cleared, what drowned old slots, or what it was |
| HeaderEditor.UnchangedUpdate | ImBox/CryptoIO.cpp:1070-1310 | an editor that sends the header back as it is changes no byte of the disk, whatever it selects short of clearing the slots |
| HeaderEditor.VersionSwitched | ImBox/CryptoIO.cpp:1179-1207 | a change of version takes the whole base with the old length, and of the rest what the first 2048 bytes hold outside raw slots, with zeros behind |
| HeaderEditor.ExtHeaderFound | ImBox/dc/volume_lib/header_io.c:389-424 | an extended header past the slots and inside the header is found if and only if its size field and its CRC are right |
| HeaderEditInputs.FooterOverSlots | ImBox/CryptoIO.cpp:1275-1275 | an accepted update of the base with a footer count of -1 locks the header password out, with every other condition for keeping it met |
| HeaderEditInputs.SlotsPastTheEnd | ImBox/CryptoIO.cpp:1179-1207 | an accepted change of version with ten slots for a header of 2048 bytes leaves a header that fails the length check |
| HeaderEdit.MergeLeavesArea | ImBox/CryptoIO.cpp:1239-1291 | an update for something else than the slots leaves every byte of slots and descriptors, if the extended header lies past them |
| HeaderEdit.SameAreaKeyed | ImBox/CryptoIO.cpp:1296-1299 | slots whose bytes are kept keep their passwords, whatever other fields change |
| HeaderEdit.UpdateLeavesPasswords | ImBox/CryptoIO.cpp:1070-1319 | after an update that leaves the slots alone, whose extended header fits and whose footer count leaves the checksum before the slots, the header password and every slot password still open the volume |
| HeaderEdit.UpdateTouches | ImBox/CryptoIO.cpp:1239-1291 | of the bytes behind the base only old slots that are drowned, slots that are written and the extended header can change |
| HeaderEdit.LayoutChangeForgets | ImBox/CryptoIO.cpp:1243-1267 | after a change of layout the header does not depend on any byte the old slots and descriptors held |
| HeaderEdit.NewSlots | ImBox/CryptoIO.cpp:1278-1288 | the new slots are those of the update, or random bytes with cleared descriptors |
| HeaderEdit.ExtHeader | ImBox/dc/volume_lib/header_io.c:389-424 | an extended header that is accepted lies past the slots and inside the header |
| HeaderFiles.TakeBase | ImBox/CryptoIO.cpp:1239-1276 | the base fields in place, the old slots overwritten first when the layout changes |
| HeaderFiles.TakeFields | ImBox/CryptoIO.cpp:1239-1291 | the three parts one after the other give the merged header, or the offset and the bytes of a copy that leaves the tail |
| HeaderFiles.EditHeader | ImBox/CryptoIO.cpp:1133-1294 | every check of the update in the order of the code, or the header it makes |
| HeaderFiles.SetHeader | ImBox/CryptoIO.cpp:1070-1319 | every check in the order of the code, or the merged header on the store, with ERR_IO_FAILED exactly when a transfer failed; nothing is promised once the copy of the extended header or the checksum has left the header |
| VariantCodec.RoundTrip | GoAPI/variant.go:70-98 | a written value, whatever follows it, reads back to itself and takes exactly its bytes if and only if its payload is below 4 GiB and empty for the empty type |
| VariantCodec.WrittenRead | GoAPI/variant.go:196-229 | what comes back of any value: the part of its payload that the length field announces |
| VariantCodec.HeadAnnounces | GoAPI/variant.go:196-223 | the header that is written announces the payload length modulo 2^32, in whichever of the forms it takes |
| VariantCodec.AnnouncedRead | GoAPI/variant.go:70-98 | any header that announces a length reads the same whatever follows |
| VariantCodec.ReadExtends | GoAPI/variant.go:70-98 | a value that can be read does not depend on what comes after it |
| VariantCodec.Rewritten | GoAPI/variant.go:168-229 | whatever was read can be written again and reads back to the same value |
| VariantCodec.RewrittenSame | GoAPI/variant.go:196-229 | a value that was read is written in the very same bytes if and only if its type byte is the writer's: zero for the empty type, no length field for 1, 2, 4 or 8 bytes, else the form for 65535 and more, for 255 and more, or for less |
| VariantCodec.RewrittenLonger | GoAPI/variant.go:212-219 | 255 bytes under a one-byte length come out one byte longer |
| VariantCodec.PacketRoundTrip | GoAPI/variant.go:100-119 | a packet reads back to its name and value; names over 127 bytes are refused on writing only |
| VariantCodec.UIntRoundTrip | GoAPI/variant.go:829-847 | an unsigned integer comes back if and only if its width is 1, 2, 4 or 8 and holds it |
| VariantCodec.IntRoundTrip | GoAPI/variant.go:849-867 | a signed integer comes back if and only if its width is 1, 2, 4 or 8 and its range holds it |
| VariantCodec.FromBuffer | GoAPI/variant.go:70-98 | a value that is read takes at least one byte more than its payload and no more than there is |
| VariantForms.ReadsExactly | GoAPI/variant.go:70-166 | a value is read if and only if the buffer starts with a header in one of the forms written out there and has all of its payload |
| VariantForms.RefusedAs | GoAPI/variant.go:122-166 | every other buffer: an invalid format without a type byte or with one from 225 on, the length field of the fourth form, and otherwise a buffer that is too small |
| VariantForms.EndsTooEarly | GoAPI/variant.go:70-98 | a buffer that is too small can be read once enough follows |
| VariantTree.KeyExactly | GoAPI/variant.go:664-666 | a key comes back if and only if its name fits the length byte or its number fits four bytes |
| VariantTree.UnpackPacked | GoAPI/variant.go:576-825 | reading a packed tree of any depth gives the tree back |
| VariantTree.EntriesJoin | GoAPI/variant.go:402-541 | behind entries that can be read, reading goes on with what follows and fails as that does |
| VariantTree.TreeRoundTrip | GoAPI/variant.go:70-98 | the bytes of any tree, followed by anything, read back to the tree and take exactly those bytes |
| VariantTree.Reencoded | GoAPI/variant.go:168-229 | reading any buffer to any depth and writing it again gives at most twice the bytes, which read back to the same tree if and only if the tree fits, that is, unless its payload has grown to 4 GiB |
| VariantTree.FitsByPayload | GoAPI/variant.go:196-223 | of a tree whose names, numbers and leaves fit, everything fits if the outermost payload does |
| VariantTree.UnpackedParts | GoAPI/variant.go:70-98 | whatever was read has names, numbers and leaves that fit, and at most doubles when it is packed |
| VariantTree.Outgrown | GoAPI/variant.go:212-219 | a list just below 4 GiB that can be read and does not come back |
| VariantTree.ValueGrowth | GoAPI/variant.go:212-223 | how much longer a value can get when it is written again |
| VariantTree.HeadRead | GoAPI/variant.go:122-166 | how long a payload each form of header can announce |
| VariantTree.EntryRoundTrip | GoAPI/variant.go:654-726 | one entry with its key reads back whatever follows it |
| VariantLookup.Find | GoAPI/variant.go:402-443 | the loop over the bytes is the linear search, with its errors |
| VariantLookup.Get | GoAPI/variant.go:445-478 | the same for numbers |
| VariantLookup.At | GoAPI/variant.go:480-508 | the same for positions |
| VariantLookup.LookupFirst | GoAPI/variant.go:402-478 | on what a builder wrote, a lookup returns the first entry inserted under the key, and not found if and only if there is none |
| VariantLookup.LookupExtends | GoAPI/variant.go:402-478 | what Find and Get return does not depend on the bytes behind the entry they find, on any bytes |
| VariantLookup.AtNth | GoAPI/variant.go:480-508 | on what a builder wrote, position k is the k-th value appended |
| VariantLookup.VariantIterator.Next | GoAPI/variant.go:528-541 | moves on exactly when a value can be read, and returns it |
| VariantLookup.AtIsNext | GoAPI/variant.go:480-541 | on arbitrary bytes, At(k) succeeds if and only if the first k + 1 calls of Next do, and returns what the last of them returns |
| VariantLookup.StepsBounded | GoAPI/variant.go:528-541 | every successful Next consumes at least one byte, so the iteration ends |
| VariantLookup.NegativeNotFound | GoAPI/variant.go:480-508 | a negative position never succeeds |
| VariantLookup.AtError | GoAPI/variant.go:480-508 | on any bytes, when At fails: not found at the end of the list, else the error of the value that cannot be read, behind as many values as Next returns |
| VariantLookup.LookupMalformed | GoAPI/variant.go:402-478 | when Find or Get comes to an entry that cannot be read: not found if its key does not fit into the bytes, else the error of its value |
| VariantLookup.VariantBuilder.Insert | GoAPI/variant.go:654-677 | appends exactly the entry's bytes, or records the wrong type; after an error nothing is added |
| VariantLookup.VariantBuilder.Add | GoAPI/variant.go:704-726 | the same for numbers |
| VariantLookup.VariantBuilder.Append | GoAPI/variant.go:794-813 | the same for lists |
| VariantLookup.BuildAll | GoAPI/variant.go:552-825 | any list of entries that fit is built into the container of exactly their bytes |
| VariantInPlace.FinalHeadAnnounces | GoAPI/variant_cgo_wrapper.go:300-350 | whatever size a container reaches, it fits the length field that was reserved for it before |
| VariantInPlace.CVariant.Prepare | GoAPI/variant_cgo_wrapper.go:300-312 | five bytes are set aside and the payload starts behind the header the room calls for |
| VariantInPlace.CVariant.InsertRaw | GoAPI/variant_cgo_wrapper.go:395-422 | the wrong type and missing room are recorded and write nothing; otherwise the name and the value are behind the payload, or past the room, exactly when the capacity check lets pass what does not fit |
| VariantInPlace.CVariant.AddRaw | GoAPI/variant_cgo_wrapper.go:440-464 | the same for numbers |
| VariantInPlace.CVariant.AppendRaw | GoAPI/variant_cgo_wrapper.go:482-503 | the same for lists |
| VariantInPlace.HeaderNotCounted | GoAPI/variant_cgo_wrapper.go:490-493 | the check for a list asks for the payload only, in which the value with its header never fits |
| VariantInPlace.CVariant.WriteRaw | GoAPI/variant_cgo_wrapper.go:387-393 | writes what the other side's writer writes |
| VariantInPlace.CVariant.PrepareEntry | GoAPI/variant_cgo_wrapper.go:352-357 | an entry in the rest of the container's room |
| VariantInPlace.CVariant.Finish | GoAPI/variant_cgo_wrapper.go:314-350 | the header goes into the bytes reserved for it, and nothing is written without a type or after an error |
| VariantInPlace.CVariant.FinishEntry | GoAPI/variant_cgo_wrapper.go:359-364 | the finished entry becomes part of the payload |
| VariantInPlaceRuns.Run | GoAPI/variant_cgo_wrapper.go:352-519 | any well-nested run of calls, of the right type or not, to any depth, puts the accepted ones behind the payload, in order, records a wrong type, and touches nothing outside its room |
| VariantInPlaceRuns.BuildContainer | GoAPI/variant_cgo_wrapper.go:300-519 | a whole container built in place is finished if and only if no call on it has the wrong type and one gives it a type, and it reads back to exactly what was inserted if and only if that holds of every entry in it as well |
| VariantItems.BodyRead | GoAPI/variant_cgo_wrapper.go:314-364 | an entry built in place reads as its kind and payload whatever width its header has |
| VariantItems.ReadsExactly | GoAPI/variant_cgo_wrapper.go:314-364 | a container reads to exactly what was meant if and only if no entry at any depth left its key behind, whatever comes after that key |
| VariantItems.Behind | GoAPI/variant.go:70-98 | what was meant is read from no stretch of bytes that starts behind the first byte of a container, which is why a lost entry is never made up for |
| VariantItems.HeaderInField | GoAPI/variant.go:122-166 | the bytes of a length field taken for a header announce less than the field does |
| VariantInPlaceRuns.LostEntryBreaks | GoAPI/variant_cgo_wrapper.go:314-364 | an entry that is not finished leaves its key behind: after any entries a map or an index cannot be read any more, and a list reads as without the entry |
| VariantInPlaceRuns.LostEntrySwallows | GoAPI/variant_cgo_wrapper.go:314-364 | what is inserted next is read as the value of the key left behind |
| VariantInPlaceRuns.EnterLost | GoAPI/variant_cgo_wrapper.go:352-438 | the calls that bring this about, on a container with any payload, which reports no error |
| VariantInPlaceRuns.EntriesToLose | GoAPI/variant_cgo_wrapper.go:314-320 | two such entries: one without a type and without a call, one of a type with a call of another |
| LoaderInit.StepKeepsInv | LdrCode/ldrentry.c:206-271 | what every step of every thread keeps about the lock, InitDone and the thread at work |
| LoaderInit.OnceBeforeAnyReturn | LdrCode/ldrentry.c:206-271 | for any number of threads and any interleaving InitInject is called at most once, and before any thread has returned it has been called, has finished, and InitDone is set |
| LoaderInit.NoDeadlock | LdrCode/ldrentry.c:258-267 | as long as a thread has not returned, some thread can move |
| LoaderInit.StepProgress | LdrCode/ldrentry.c:265-266 | a step that changes nothing is a spin |
| LoaderInit.EveryThreadReturns | LdrCode/ldrentry.c:206-271 | no run has more than seven moves a thread, and a run that cannot go on has let every thread return |
| PendingChanges.FindCutoffs | MajorPrivacy/MajorPrivacyConfig.cpp:132-147 | one scan backwards finds the last cutoff of both classes |
| PendingChanges.LoadChanges | MajorPrivacy/MajorPrivacyConfig.cpp:126-258 | the loop computes the summary of the specification |
| PendingChanges.NothingLost | MajorPrivacy/MajorPrivacyConfig.cpp:149-152 | starting behind the smaller cutoff loses nothing |
| PendingChanges.FoldTells | MajorPrivacy/MajorPrivacyConfig.cpp:228-249 | of any legal history the state machine knows whether the rule was there before it and is there after it |
| PendingChanges.SummaryIsNetEffect | MajorPrivacy/MajorPrivacyConfig.cpp:126-258 | the summary lists Added, Modified, Removed or nothing exactly as the rule existed at its class's last cutoff, exists at the end, and was touched since |
| PendingChanges.CutoffClears | MajorPrivacy/MajorPrivacyConfig.cpp:132-147 | saving, discarding or loading the configuration of a class lists none of the rules of its families any more, and every rule of the other class's families as before, with both classes' families named |
| PendingChanges.OthersKeep | MajorPrivacy/MajorPrivacyConfig.cpp:149-226 | any other event moves no cutoff; a change with a rule's identity and no level adds to that rule's history and names it in the list, and nothing else about any rule changes |
| PendingChanges.CutoffsIndependent | MajorPrivacy/MajorPrivacyConfig.cpp:215-219 | the cutoff of the other class has no say |
| PendingChanges.LastEvent | MajorPrivacy/MajorPrivacyConfig.cpp:221-226 | what is listed carries the name and type of the rule's last event that counts |

## Left out

- Memory-status queries, system calls that cannot fail in the model (reserving the table, mapping pages) and allocation failures of small buffers: whether memory is granted is a parameter, the rest succeeds.
- 32-bit `int` sizes: sizes and offsets are unbounded, so sums past 2^31 are not modelled.
- Tables of page-frame numbers: each block has its own row of frames instead of a slice of one array.
- Initial contents of a store other than zeros, timestamps, the sparse flag and GetSparseRanges of image files.
- Why a transfer fails: the open file and the store below may fail any transfer, and keep count of those that did.
- The check that a salt is not all zero: fresh salts are assumed to pass it.
- A footer count below -64, or of 60 and more, makes the header checksum leave its buffer: a function about which nothing is known stands for it, and SetHeader promises nothing.
- VolumeHeader.OpenSealed: reserved bytes of the base are taken to be zero, as the format demands.
- CredentialRuns.CreatedRunOpens: covers headers laid out as CreateHeader lays them out; slot sizes other than 192 bytes come only from an editor, and the search does not follow them.
- KeySlots.SetSlotHolds: for slots of 192 bytes with descriptors of 32, the layout in which the search finds them.
- KeySlots.EraseSlotHolds: for the same layout.
- KeySlots.UpdateUsed: for the same layout.
- KeySlots.UpdateUnused: for the same layout.
- KeySlots.UpdateSlotsHolds: for the same layout.
- KeySlots.TouchesOne: for the same layout.
- HeaderEdit.UpdateLeavesPasswords: an update that drops the key-slot feature disables the slots, and is excluded by its condition.
- HeaderEdit.ExtHeader: its size is added without 32-bit wrap-around.
- A failed header write leaves the front of the store in no known state; the run theorem is about calls whose transfers succeed.
- Copying outside a header with a slot layout that does not fit it: the model clips such copies. What an overrun of the extended header leaves is not modelled.
- Wiping of secrets, section transport, GetHeader and the slot report: not functional behaviour of the header.
- A trait over all stores: the store below CryptoIO is one class with the contract of its interface.
- The typed Insert, Add and Append helpers of the Go builder, strings, floats and UTF-16: thin wrappers around the members modelled.
- The C readers and Variant_ToInt: the Go reader is the decoder here. Static variants and Variant_Set are not part of this model.
- VariantInPlaceRuns.Run: assumes room for a five-byte header at every insertion, because the capacity checks of the code do not count it.
- VariantInPlace.CVariant.InsertRaw: what the bytes are once an insertion has left the room is not modelled; nor for AddRaw and AppendRaw.
- InitInject itself, code patching and the lifetime of ExtraData: one call with a beginning and an end.
- The order of the listed changes and their icons: the list is a map here.
- PendingChanges.SummaryIsNetEffect: says nothing about histories that add what exists or remove what does not.
