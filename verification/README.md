# A verified model of the JFS translator

A read-only JFS translator for the Hurd finds everything it serves by walking on-disk indexes: the
extent tree of a file, the inode map, and directory trees. It keeps a few small structures in memory:
a pool of page buffers, a hash of in-core nodes and the pager record of each node. This project models
that code in Dafny and proves what it promises.

The disk is one byte image. Pages, inodes, inode allocation groups, directory slots and extent
descriptors are decoded from its bytes at their real offsets (`Layout.dfy`), so all parts speak about
the same disk. A tree on disk is described by an abstract tree (a ghost value) and a predicate saying
that the pages reached from the root hold exactly that tree; trees have any height. The meaning of a
tree is the sequence of its leaf entries, and every search is proved against a linear scan of that
sequence.

| file | content |
|---|---|
| Layout.dfy | decoding of the on-disk structures |
| XTree.dfy | extent trees, linear scan, routing of a key |
| PageSearch.dfy | the halving search of one page and its cost |
| BufferPool.dfy | the page buffer free list |
| FileRead.dfy | `xt_Lookup` |
| AlignedRead.dfy | `xRead`, `ujfs_read_diskblocks` |
| InodeMap.dfy | `find_iag`, `find_inode` |
| FileBytes.dfy | the bytes of a file, and the place from which its pages are read |
| FilePager.dfy | `pager_read_page`, and a client that reads a whole file |
| FileInfo.dfy | `diskfs_get_filemap`, `pager_clear_user_data`, all interleavings |
| NodeHash.dfy | `inode_init`, `diskfs_cached_lookup`, `diskfs_node_norefs` |
| Unicode.dfy | UCS-2 to UTF-8 |
| DirNames.dfy, SplitName.dfy | names in linked slots, `name_inum`, `print_direntry` |
| DirTree.dfy, DirLookup.dfy | `readndir`, `directory`, `dirscan` |
| Encoding.dfy | the encoding of the on-disk structures, and round trips |
| GetDirects.dfy | `diskfs_get_directs`, and clients that list a directory |
| SampleDisk.dfy, SampleRuns.dfy | a disk written out byte by byte, and what the operations give on it |

## What the code gets wrong, and exactly when

* A leaf without entries that is entered by an exact hit on its separator makes `xt_Lookup` return 0
  with its out-parameters unset, because the comparison left over from the parent page is returned.
  `FileRead.LookupAgreesExactly` proves that the lookup agrees with a linear scan if and only if this
  does not happen. `FileRead.EmptyLeafMisleads` is an instance and `FileRead.EmptyLeafOnDisk` a disk
  that holds it. `find_iag` does not have the flaw.
* `xRead` computes the length it fetches in 32 bits. `AlignedRead.SpanCovers` proves that the bytes
  fetched cover the request if and only if that sum does not overflow; `AlignedRead.SpanOverflows` is
  an instance.
* `pager_read_page` takes blocks to be 4096 bytes, twice: it looks up block `page / 4096`, and it
  multiplies the block it gets by 4096. `FileBytes.LookupIsPlace` and `FileBytes.PagerPlacesExact` prove
  for every block size when the page is nevertheless read from its place: if and only if the extent
  that is looked up and those that really cover the page are displaced on disk by the same number of
  bytes. A file in one extent is read right if and only if blocks have 4096 bytes or the extent is at
  block 0 (`FileBytes.ContiguousFileExact`). `FileBytes.SmallBlocksMislead` is an instance in which the
  block looked up is wrong. `FileBytes.BlockAddressExact` covers the multiplication alone.
* The end of a page is computed in 32 bits, so the bytes behind the end of a file are not cleared on the
  last page of the address space. `FilePager.OverrunExact` proves that the right number of bytes is
  cleared if and only if that end does not wrap around or the file goes beyond it.
* `directory` compares only as many bytes as the searched name has, so an absent name is found if it is
  a prefix of another (`DirLookup.LookupExactly`, `DirLookup.PrefixMisleads`). In a sorted directory of
  ASCII names this is decided at one entry, the first that is not ordered before the name
  (`DirLookup.LookupByOrder`).
* `directory` compares unsigned with signed bytes, so no name with a byte above 0x7F is ever found
  (`DirLookup.NonAsciiNeverFound`), and names are listed within a budget of one byte a unit, so different
  names can be listed alike. `DirLookup.ListedNameFound` proves that the search for a listed name leads
  back to its own entry if and only if that name is ASCII and no entry between it and its own has it as
  a prefix. `DirLookup.ListedNotFound` and `DirLookup.ListedAlike` are one instance of each failure.
* `diskfs_get_directs` counts a thirtieth entry that it does not deliver. A client that goes by the
  bytes sees everything, one that goes by the count does so if and only if fewer than thirty entries
  are left (`GetDirects.ReadOnSeesAll`, `GetDirects.ReadOnByCountMisses`). `GetDirects.ReadOn` is such
  a client: it calls `diskfs_get_directs` and parses the bytes.

## A disk to check against

The meaning of a tree or a directory is stated over decoded structures, so a wrong offset or mask in a
decoder could go unnoticed. `Encoding.dfy` states round trips with encoders that list the fields in the
order in which they are laid out, and `SampleDisk.dfy` is a disk of 14 blocks given byte by byte: the
inode map with an extent that is not the first, a directory with an internal root and two leaves, a file
in two extents and a symbolic link. `SampleRuns.dfy` states the literal pages, entries, records and error
codes that the operations give on it.

## Assumptions about a well-formed volume

* Block sizes are the powers of two from 512 to 4096, and the image is a whole number of blocks.
* Extent trees: on every page the entries are sorted and disjoint, separators included; internal pages
  are not empty and their first separator is at most every key routed to them; exactly one of the leaf
  and internal bits is set. Leaves may be empty; lookups that end in a
  stale hit are excluded only where a page or a whole file is said to be right.
* Directories: internal pages are not empty, the `next` links join the leaves from left to right and end
  with 0, names have no NUL units. Sorted, distinct names are assumed only where lookup is compared with
  listing. Only the searched name has to be ASCII, except in the second half of `DirLookup.LookupByOrder`.
* `struct dirent` is not part of the repository: a record is `d_ino` in 4 bytes, `d_reclen` in 2, `d_type`
  and `d_namlen` in 1 each, then the name, and `sizeof` is 12. Plain `char` is signed, a page of memory
  has 4096 bytes, `size_t` and `vm_offset_t` have 32 bits, and `st_size` has 64.

## Model

| member | source | states |
|---|---|---|
| PageSearch.Halve | jfs_fileread.c:85-124 | the halving loop of a page: a hit covers the key; on a miss every entry before `base` ends at or before the key and every entry from `base` on starts beyond it; a page without entries leaves the parent's comparison; at most Cost(n) comparisons |
| PageSearch.SearchPage | jfs_fileread.c:84-163 | the page search finds what a linear scan of the page finds, and settles on the last entry that starts at or before the key, on a hit as on a miss |
| PageSearch.CostIsLog | jfs_fileread.c:85-124 | the cost of a page of n entries is floor(log2 n) + 1 |
| XTree.ScanRoute | jfs_fileread.c:148-173 | scanning all leaves of a page is scanning the leaves of the one child the key is routed to |
| XTree.LeavesSorted | jfs_fileread.c:70-181 | the leaf extents of a well-formed tree of any height are in order, disjoint and within its bounds |
| XTree.OnlyOneCovers | jfs_fileread.c:97-112 | at most one leaf extent covers a block, so the one a scan finds is the only one |
| XTree.ScanNone | jfs_fileread.c:126-146 | a scan fails exactly if no extent covers the key |
| XTree.ScanHit | jfs_fileread.c:97-112 | in sorted extents the one that covers the key is what a scan finds |
| XTree.StaleHitIsMiss | jfs_fileread.c:142-146 | when a search ends in an empty leaf entered by a hit, no extent covers the key |
| XTree.NoEmptyLeafNoStaleHit | jfs_fileread.c:142-146 | without empty leaves that never happens |
| FileRead.SearchChild | jfs_fileread.c:148-173 | one step of the descent keeps the search equivalent to the scan of the whole tree, within its comparison budget |
| FileRead.LeafOutcome | jfs_fileread.c:97-146 | a leaf decides the whole lookup |
| FileRead.VisitPage | jfs_fileread.c:84-163 | the search of one page either gives the result of the whole lookup or the stored child page to go on with |
| FileRead.XtLookup | jfs_fileread.c:70-181 | for every offset and tree height: success, block address and remaining length are those of a linear scan of all leaf extents (or of a stale hit); the length is that of the longest run of blocks of the file from there on that is contiguous on disk within the extent and no longer than the caller asked; out-parameters are kept on a miss, at most 8 comparisons a level, and the buffer free list is as before or refilled once |
| FileRead.LookupGivesRun | jfs_fileread.c:103-107 | the block address and length of a hit cover blocks that a scan finds in the same extent, one after the other on disk, up to the end of the extent or the length asked for |
| FileRead.LookupAgreesExactly | jfs_fileread.c:70-181 | the lookup agrees with the linear scan if and only if it does not end in a stale hit |
| FileRead.EmptyLeafMisleads | jfs_fileread.c:142-146 | a tree without extents in which a lookup succeeds |
| FileRead.EmptyLeafOnDisk | jfs_fileread.c:70-181 | a disk image and an inode root that store that tree |
| BufferPool.Pool.constructor | jfs_fileread.c:27-29 | the pool starts empty |
| BufferPool.Pool.Add | jfs_fileread.c:234-239 | a new buffer goes to the head of the list |
| BufferPool.Pool.Allocate | jfs_fileread.c:216-242 | an empty list is refilled with exactly eight new, distinct buffers |
| BufferPool.Pool.Pop | jfs_fileread.c:195-199 | the head leaves the list, which stays free of duplicates |
| BufferPool.Pool.Read | jfs_fileread.c:184-214 | the buffer handed out holds the bytes of the block and is off the list; the list loses its head, or is refilled first |
| BufferPool.Pool.Release | jfs_fileread.c:244-250 | the buffer is back at the head and the rest of the list is unchanged |
| BufferPool.Pool.Exchange | jfs_fileread.c:165-172 | going down a level, a lookup still holds exactly one buffer |
| BufferPool.Pool.Close | jfs_fileread.c:175-178 | after a lookup every buffer is free again, the list is as before or refilled once, and there are 0 or 8 buffers in all |
| AlignedRead.SpanCovers | jfs_inode.c:204-205 | the whole blocks fetched cover the request if and only if the 32-bit length does not overflow |
| AlignedRead.SpanOverflows | jfs_inode.c:204-205 | a request whose length overflows, for which nothing is fetched |
| AlignedRead.SpanIsLeast | jfs_inode.c:204-205 | no smaller run of whole blocks covers the request |
| AlignedRead.SpanInImage | jfs_inode.c:211-222 | the blocks fetched lie in the image if the request does |
| AlignedRead.ReadDiskBlocks | jfs_inode.c:229-244 | the bytes of the image at an offset |
| AlignedRead.CopyFromBlocks | jfs_inode.c:211-225 | the copying branch delivers the requested bytes out of the blocks |
| AlignedRead.XRead | jfs_inode.c:191-226 | whichever branch is taken, exactly the requested bytes are delivered |
| InodeMap.VisitIagPage | jfs_inode.c:129-183 | the search of one page of the inode map finds the extent, or nothing, or the stored child page, for empty leaves too |
| InodeMap.FindIag | jfs_inode.c:83-188 | the address of a group's page is that of a linear scan of the map's extents; it fails exactly for a bad table or a group without an extent |
| InodeMap.ReadListedExtent | jfs_inode.c:64-77 | the extent that a group lists under a number, or none if it is not backed |
| InodeMap.FindInode | jfs_inode.c:44-80 | the byte address of an inode is its slot in the extent that its group lists; it fails exactly if there is none |
| InodeMap.InodePlace | jfs_inode.c:58-79 | an inode lies at the block its group's page lists times the block size, plus 512 bytes for each slot before it; there is none if the listed length is 0 |
| InodeMap.TableInodes | jfs_inode.c:112-113 | the inodes of the three maps are at bytes 0xD000, 0xB200 and 0xAE00 |
| InodeMap.SearchesAgree | jfs_inode.c:126-187 | the two tree searches agree on every group if and only if the lookup does not end in a stale hit, and then the one's address is the other's block shifted |
| InodeMap.NumberIsSplit | jfs_inode.c:58-59 | an inode number is determined by its group, extent number and slot |
| InodeMap.IagBlockExact | jfs_inode.c:110-110 | the block number of a group's page is page `iagnum + 1` of the map if and only if it does not overflow, and it never does for the group of an inode number |
| InodeMap.IagPagesApart | jfs_inode.c:110-110 | the pages of different groups share no block, and none is the control page at block 0 |
| InodeMap.InodesDisjoint | jfs_inode.c:58-79 | if the backed extents of the groups that inode numbers have are disjoint, different inodes lie at disjoint 512-byte places, each inside its extent |
| InodeMap.DisjointMapExists | jfs_inode.c:58-79 | for every block size there is a volume and a map with disjoint extents: one extent, the fourth, at block 5, with the addresses of exactly 32 inodes |
| FilePager.StoreBlocks | pager.c:227-228 | a page-aligned address survives the conversion to store blocks and back |
| FilePager.StoreRead | pager.c:247-249 | the store returns the page, or less than a page and no buffer past its end |
| FileBytes.PlaceByDisplacement | pager.c:227-228 | a position of a file lies on disk at its own number, displaced as the extent that covers its block is |
| FileBytes.LookupIsPlace | pager.c:189-228 | for every block size, the pager goes to the place of a page, or finds none in a hole, if and only if the extent covering block `page / 4096` and the one covering the start of the page are displaced by the same number of bytes, or neither exists |
| FileBytes.RightPlacesExact | pager.c:227-249 | a page lies in one piece from a place on if and only if all its blocks up to the end of the file are displaced alike |
| FileBytes.PagerPlacesExact | pager.c:189-249 | for every block size, all bytes of a page are read from their places if and only if all its blocks are covered and displaced by as many bytes as the pager assumes |
| FileBytes.LargeBlocksAreRight | pager.c:189-228 | with 4096-byte blocks they always are, and only a hole has no place |
| FileBytes.ContiguousFileExact | pager.c:189-228 | a file in one extent is read from its places on all pages if and only if blocks have 4096 bytes or the extent is at block 0 |
| FileBytes.SmallBlocksMislead | pager.c:190-190 | a file with 512-byte blocks of which a page is read from the wrong block |
| FileBytes.BlockAddressExact | pager.c:227-228 | the multiplication by 4096 alone is right if and only if blocks have 4096 bytes or the block is 0 |
| FileBytes.PagesAreFile | pager.c:172-255 | the pages of a file without holes, one after the other and cut at its size, are its contents, and what follows is zero |
| FilePager.OverrunExact | pager.c:238-239 | the bytes cleared are those past the end of the file if and only if the end of the page does not wrap around or the file goes beyond it |
| FilePager.FaultIsRight | pager.c:208-252 | a page read from its places is the page the extents define |
| FilePager.LargeBlockFault | pager.c:208-252 | so with 4096-byte blocks every page is, unless its lookup is a stale hit or its end wraps around |
| FilePager.ReadAndTrim | pager.c:227-254 | the page is read and trimmed, or EIO if it is off the store |
| FilePager.ReadFilePage | pager.c:208-254 | for every block size and extent tree: the page at the place the lookup gives, zeros from the end of the file on, failure in a hole before the end, EIO off the store |
| FilePager.ReadDiskPage | pager.c:241-249 | a page of the disk as it is, or EIO past its end |
| FilePager.ReadDataPage | pager.c:195-254 | the page of a file from its inode number, through the inode map and the inode; failure if there is no inode |
| FilePager.PagerReadPage | pager.c:172-255 | the page that the pager's place gives, for every block size; with 4096-byte blocks, no stale hit and no wrap-around it is the file's, zeros after its end, and failure exactly in a hole; a page of the disk for the disk pager; always write-locked |
| FilePager.ReadNodeSize | dir.c:220-253 | the size of a node is that of its inode, 0 for a symbolic link |
| FilePager.ReadFile | pager.c:172-255 | with 4096-byte blocks and no stale hits, reading all pages up to the size of the node succeeds if and only if the file has no holes, and gives its contents |
| FileInfo.StepKeepsInvariant | pager.c:47-111 | every step of every thread keeps: a slot holds an uncleared record of its node, a live pager is in its slot, references equal records |
| FileInfo.RunKeepsInvariant | pager.c:47-111 | so does every interleaving |
| FileInfo.Reachable | pager.c:57-110 | in every reachable state a node has at most one live pager, its references count its unreleased records, and without references its slot is empty, as dir.c:385 asserts |
| FileInfo.LiveStaysInSlot | pager.c:99-111 | no step but its own port's death takes a live pager out of its slot; clearing a dying one never erases its replacement |
| FileInfo.MappingMeans | pager.c:59-92 | mapping a file leaves the live record whose port is returned in the node's slot, the old one if it lives, else a new one with one more reference, or an empty slot if none can be created; other nodes are not touched |
| FileInfo.LiveBesideDying | pager.c:86-91 | there is a run in which a node has a live pager beside its dying predecessor |
| FileInfo.AddressUsedAgain | pager.c:99-111 | and one in which the predecessor is then freed and its address is used for another node |
| FileInfo.EverythingEnds | pager.c:99-111 | from every state that satisfies the invariant a run leads to one without records, filled slots and references |
| FileInfo.Pagers.Create | pager.c:60-78 | a new record is stored in the slot and referenced once, or nothing is kept |
| FileInfo.Pagers.DiskfsGetFilemap | pager.c:47-97 | the loop is one step of the protocol; a port that is returned belongs to the live record in the node's slot, a new record is the only change to the records and takes one reference, none is returned only if creation fails, and other nodes keep slots and references |
| FileInfo.Pagers.MapTwice | pager.c:47-97 | mapping a file a second time gives the same port |
| FileInfo.Pagers.PagerClearUserData | pager.c:99-111 | clearing is the locked step followed by the release step: the record is freed, its reference is gone, the slot is emptied only if it held it, and other nodes keep their references |
| NodeHash.Table.constructor | dir.c:206-212 | the table starts empty |
| NodeHash.Table.Find | dir.c:309-318 | walking the chain finds the node of the number exactly if it is cached |
| NodeHash.Table.Prepend | dir.c:346-351 | a node linked at the head of a chain, with both back pointers right |
| NodeHash.Table.TakeOut | dir.c:382-384 | a node taken out through its back pointer, wherever it is in its chain; the rest keeps its order |
| NodeHash.Table.Link | dir.c:346-351 | all other chains are unchanged |
| NodeHash.Table.Unlink | dir.c:382-384 | all other chains are unchanged, and all other nodes stay reachable in order |
| NodeHash.Table.CachedLookup | dir.c:298-361 | the table is a map from numbers to nodes: a hit returns the cached node and counts a reference, a miss adds one new node at the head of its chain |
| NodeHash.Table.NodeNorefs | dir.c:379-388 | exactly that node leaves the map |
| Unicode.EncodeIsRfc | jfs_unicode.c:26-66 | the bytes of a unit are the octet sequence of section 3 of RFC 3629, and no others are, exactly if it is no surrogate |
| Unicode.DecodeEncodeAll | jfs_unicode.c:69-104 | encoded strings decode to themselves |
| Unicode.EncodedLength | jfs_unicode.c:69-104 | between one and three bytes a unit |
| Unicode.Utf8RoundTrip | jfs_unicode.c:69-104 | the output decodes to the string if and only if the budget covers its encodings, as three bytes a unit do |
| Unicode.Utf8Truncates | jfs_unicode.c:80-103 | for every string and budget the output is complete encodings of a subsequence, and bytes written plus units dropped stay within the budget |
| Unicode.Utf8Next | jfs_unicode.c:80-103 | after any units, one more is encoded if and only if it fits what is left of the budget, whether or not others were passed over |
| Unicode.Utf8PassesOver | jfs_unicode.c:80-103 | "a", U+0800 and "b" in three bytes are "ab" |
| Unicode.Utf8Ascii | jfs_unicode.c:80-103 | with a budget of its length an ASCII name is reproduced exactly |
| Unicode.CharacterToUtf8 | jfs_unicode.c:38-66 | the table loop writes the encoding, or nothing and returns -1 if it does not fit |
| Unicode.StringToUtf8 | jfs_unicode.c:69-104 | the loop writes the conversion at the start of the buffer and nothing else |
| DirNames.UniStrncpy | jfs_unicode.h:34-46 | exactly n units are written: the source up to its first NUL, then zeros, in spite of the counter that wraps |
| DirNames.PaddedIs | jfs_unicode.h:34-46 | what is copied is the source up to its first NUL, and zeros from there on |
| DirNames.ChainLength | jfs_dtree.h:60-105 | a stored name is continued in NDTLEAF(namlen) - 1 slots |
| DirNames.NameViaStored | jfs_dirread.c:52-76 | following the links of a stored name gives the name |
| DirNames.PendingStep | jfs_dirread.c:68-76 | each link contributes its part and the chain supplies the rest |
| DirNames.FollowLinks | jfs_dirread.c:68-76 | for every finite chain the copies stay in the buffer, and it holds what the chain supplies |
| DirNames.ReadName | jfs_dirread.c:52-76 | the buffer holds the reassembled name and a NUL |
| DirNames.ConvertName | jfs_dirread.c:78-82 | the cleared buffer holds the UTF-8 form of the name |
| DirNames.CNameAscii | jfs_dirread.c:81-87 | the name given to callers is the name itself if it is ASCII |
| DirNames.NameInum | jfs_dirread.c:40-90 | the caller's buffer gets the name and a NUL, nothing else changes, and the inode number is the entry's |
| DirNames.PrintDirentry | jfs_dirread.c:288-346 | 0 and the inode number exactly if the searched name is an ASCII prefix of the entry's, else 1 and -1 |
| SplitName.DecodeHead | jfs_dirread.h:61-67 | the fields of a head slot are read back as written |
| SplitName.DecodeCont | jfs_dirread.h:55-59 | so are those of a continuation slot |
| SplitName.WriteEntryStores | jfs_dirread.c:52-76 | every name of up to 255 units, split over any free slots of a page, is stored there and reads back |
| DirTree.LeftmostLeaf | jfs_dirread.c:153-167 | the descent ends at the first leaf of a tree of any height |
| DirTree.NextLeaf | jfs_dirread.c:169-190 | the `next` link leads to the next leaf in order, and is 0 exactly at the last |
| DirTree.LeafEntry | jfs_dirread.c:170-178 | counting through a leaf finds the entry at the position, or counts all its entries |
| DirTree.WalkTo | jfs_dirread.c:169-192 | the walk gives the pos-th of all entries, and fails exactly if pos is out of range |
| DirTree.EntryAt | jfs_dirread.c:130-193 | the same for every directory, whether its root is a leaf or not |
| DirLookup.SearchLeaf | jfs_dirread.c:267-272 | the entries of a leaf are searched for the first match |
| DirLookup.SearchNext | jfs_dirread.c:266-285 | searching leaf after leaf is searching all entries |
| DirLookup.SearchFrom | jfs_dirread.c:266-285 | the walk leaves the inode number of the first match, -1 if there is none, and what was there if there are no entries |
| DirLookup.SearchDirectory | jfs_dirread.c:228-286 | the same for every directory |
| DirLookup.LoadDirectory | jfs_dirread.c:215-228 | the root page is that of the inode with the number, if it is a directory |
| DirLookup.Readndir | jfs_dirread.c:92-193 | from an inode number: the pos-th entry of the directory, or 1 exactly if there is none |
| DirLookup.Directory | jfs_dirread.c:196-286 | from an inode number: the search result over all entries of the directory |
| DirLookup.Dirscan | dir.c:114-129 | ENOENT exactly if a directory with entries has no match; never for names with a leading dot |
| DirLookup.EarlierDoesNotMatch | jfs_dirread.c:331-341 | a searched ASCII name matches no name ordered before it, whatever units that has |
| DirLookup.ExactNameFound | jfs_dirread.c:266-272 | in a sorted directory the first match of an ASCII name that is present is its own entry |
| DirLookup.ListingAndLookupAgree | jfs_dirread.c:130-192 | looking up a listed ASCII name gives the inode number listed with it |
| DirLookup.LookupExactly | jfs_dirread.c:331-345 | in any directory, an ASCII name is found exactly if it is there, if and only if it is there or nothing extends it |
| DirLookup.PrefixBetween | jfs_dirread.c:331-345 | names between a name and one of its extensions in order are extensions too |
| DirLookup.LookupByOrder | jfs_dirread.c:266-285 | in a sorted directory the first entry not ordered before an ASCII name is found if it extends the name; if all names are ASCII, nothing is found otherwise |
| DirLookup.ListedNameFound | jfs_dirread.c:266-341 | in a sorted directory the search for a listed name stops at its own entry if and only if the listed name is ASCII and no entry from its place up to that one has it as a UTF-8 prefix |
| DirLookup.ListedNotFound | jfs_dirread.c:331-341 | a directory that lists a name which is not found |
| DirLookup.ListedAlike | jfs_dirread.c:81-87 | a directory that lists two names alike, of which the first is found |
| DirLookup.PrefixMisleads | jfs_dirread.c:331-345 | a directory in which an absent name is found |
| DirLookup.NonAsciiNeverFound | jfs_dirread.c:331-341 | a searched name with a byte above 0x7F is found nowhere |
| GetDirects.RecordOfAscii | dir.c:71-81 | the record of an ASCII name carries the name and the inode number |
| GetDirects.StrLen | dir.c:71-71 | the length of the C string in the name buffer |
| GetDirects.WriteRecord | dir.c:70-81 | the bytes written are the record and nothing before it changes |
| GetDirects.AddRecord | dir.c:70-101 | records already packed stay, and the next one follows them |
| GetDirects.ParsePacked | dir.c:72-101 | packed records are parsed back in order by hops of d_reclen, a positive multiple of 4 |
| GetDirects.RecordBytes | dir.c:71-81 | the 16 bytes of a record, written out |
| GetDirects.DiskfsGetDirects | dir.c:42-111 | the bytes delivered parse to exactly the records of the entries from the position on: all of them, as many as are counted, if fewer than 30 are left, and else 29 while 30 are counted |
| GetDirects.ReadOnSeesAll | dir.c:65-110 | a client that resumes behind the records it parsed sees every entry once, in order |
| GetDirects.ReadOnByCountMisses | dir.c:88-100 | a client that resumes by the count misses one entry in thirty, and sees all if and only if fewer than thirty are left |
| GetDirects.ReadOn | dir.c:42-111 | a client that calls for entries, parses the bytes and goes on behind the records collects the records of the whole directory; one that goes on behind the count collects one in thirty fewer |
| GetDirects.LookUpListed | jfs_dirread.c:92-286 | the listed name of a position, looked up, gives the listed inode number if the search stops at that position, as it does for every ASCII name of a sorted directory |
| Encoding.XadRoundTrip | jfs_xtree.h:31-39 | offset, length and address of every extent are read back from its 16 bytes |
| Encoding.PxdRoundTrip | jfs_types.h:76-80 | so are length and address of a physical extent |
| Encoding.XPageRoundTrip | jfs_xtree.h:85-100 | flag, index and all entries of an extent tree page are read back |
| Encoding.DinodeRoundTrip | jfs_dinode.h:36-135 | so are size (signed), mode and tree root of an inode |
| Encoding.DPageRoundTrip | jfs_dtree.h:161-179 | so are next link, flag, index, entry table and slots of a directory page |
| Encoding.DRootRoundTrip | jfs_dtree.h:113-128 | and flag, index, entry table and slots of a directory root |
| SampleDisk.MapIsThere | jfs_inode.c:110-126 | the bytes of the sample disk hold the map inode of the fileset at 0xD000, with one extent |
| SampleDisk.Inodes | jfs_inode.c:44-80 | on it exactly the inodes 32 to 63 exist, from byte 16384 on |
| SampleDisk.Modes | jfs_dirread.h:22-23 | modes 0x41ED, 0x81A4 and 0xA1FF are those of a directory, a file and a link |
| SampleDisk.DirectoryIsThere | jfs_dirread.c:130-190 | an internal directory root with two chained leaf pages, one name in two slots, is on the disk |
| SampleDisk.SampleListing | jfs_dirread.c:92-193 | its listing is the three entries of both leaves in order |
| SampleDisk.NothingListed | jfs_dirread.c:125-129 | the inodes of a file and of a link list nothing |
| SampleRuns.FaultOnFile | pager.c:172-255 | every page fault on the sample file gives the page written out: one block, then the other up to byte 6000, then zeros |
| SampleRuns.FaultOnDisk | pager.c:241-252 | a page of the sample disk as it is, and EIO behind its end |
| SampleRuns.SampleSizes | dir.c:246-253 | the sample file's node has 6000 bytes and the link's none |
| SampleRuns.SampleSearches | jfs_dirread.c:266-345 | in the sample directory "b" is found, "abc" leads to a longer name, and "z" gives -1 |
| SampleRuns.SearchSample | dir.c:114-129 | the calls return these numbers, and ENOENT for "z" |
| SampleRuns.ListSample | dir.c:42-111 | a client that reads the sample directory gets its three records, and none from the file |

## Left out

- FilePager.ReadFile: the client is stated for 4096-byte blocks and trees without stale hits, and it refuses files that reach into the last page of the address space; the pager itself is not restricted.
- AlignedRead.XRead: stated for requests that do not overflow 32 bits; beyond that the code copies from outside its buffer.
- DirNames.ReadName: a chain of links that never ends is not modelled; the code does not end on it either.
- GetDirects.DiskfsGetDirects: names of up to 99 units and a buffer for thirty records are assumed, since the code checks neither.
- NodeHash.Table.CachedLookup: malloc failure, locking and the reading of the new node (only its error code is a parameter) are not modelled; a node and its disknode are one object.
- BufferPool.Pool.Read: ujfs_read_diskblocks never fails, so the error branch is not modelled; each buffer owns its bytes instead of sharing one allocation.
- FileInfo.Reachable: port rights and the pager library appear only as the death of a port; the disk pager, which has no node, is not in the state.
- Unlocked use of the buffer pool and of the conversion buffer by several threads: both are modelled as sequential.
- diskfs_lookup_hard and read_node: reference handling and copying of stat fields.
- get_file, get_inode, logging, start-up, the superblock magic test and the stubs of callbacks.c.
- diskfs_pager_users, enable_caching, block_caching and the soft-reference helpers, which rest on library behaviour.
- The writing of any on-disk structure except directory names; the translator is read-only.
