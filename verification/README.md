# FAT32 shell — a Dafny model

This project models the core of a small interactive shell that works on a
FAT32 disk image. The shell mounts the image by reading its BIOS Parameter
Block (BPB). It follows cluster chains through the File Allocation Table
(FAT) and walks directories as lists of 32-byte entries. It offers `ls`,
`cd`, `mkdir`, `creat`, `open`, `close`, `lseek` and `read`, and keeps a
table of ten open files.

The image file is a byte sequence (`seq<byte>`). The fixed-size reads (the
BPB, a directory sector, a FAT entry) go through `Bytes.ReadAt`, which fails
where the C `fread` of a whole record would come up short. The data loop of
`read` goes through `OpenFiles.ReadSome`, which returns the bytes that exist,
as `fread` returns a short count. Writes go through `Bytes.WriteAt`, which
fails on a range past the end of the image; there `fwrite` would extend the
file instead. The global state `g_fs_state` is
the class `Shell.Session`. Its open-file table is an `array<OpenFile>` that
`open`, `close`, `lseek`, `read` and `load` update in place.

Modules, in dependency order:

- `Bytes`: little-endian fields, positioned reads and writes, `toupper`.
- `Structs`: the packed `BPB` and `DIR_ENTRY` layouts with their encoders and decoders, the attribute bits, the access modes, `OPEN_FILE`, and `strncpy`-style truncation.
- `Geometry`: the sector and cluster arithmetic of `fat32_api.c`.
- `Fat`: reading and writing FAT entries, free-cluster search, walking a chain.
- `Names`: `get_formatted_name` and the upper-cased 8.3 field that `creat`/`mkdir` store.
- `Directory`: the directory walk shared by `search_current_directory`, `ls`, `cd` and `open`.
- `Entries`: the entries `creat` and `mkdir` build, and the first cluster of a new directory.
- `OpenFiles`: open-table lookups and the data-reading loop of `read`.
- `Shell`: path bookkeeping, command outcomes and the `Session` class.

The code has several quirks, and the model keeps each one as written:

- An end-of-directory marker (`0x00`) that follows a deleted slot (`0xE5`) still wins as the slot `creat`/`mkdir` write to.
- `cd` into a non-root directory appends the name to the path with no `/` separator.
- `cd ..` from a child of the root takes the `..` entry's stored cluster 0, not the root cluster.
- `close`, `lseek` and `read` find the handle by name alone, ignoring its path.
- `creat` compares the argument case-sensitively with names stored upper-cased, so a lower-case name never finds the file it created.

## Model

| member | source | states |
|---|---|---|
| Bytes.Bytes16OfLE16 | include/structs.h:46-59 | re-encoding a 16-bit little-endian field gives back its two bytes |
| Bytes.Bytes32OfLE32 | include/structs.h:46-59 | re-encoding a 32-bit little-endian field gives back its four bytes |
| Bytes.ReadAt | src/fat32_api.c:27-30 | a positioned read succeeds exactly when the range lies inside the image, and returns those bytes |
| Bytes.WriteAt | src/commands.c:535-542 | a positioned write succeeds exactly when the range lies inside the image; it replaces that range and keeps every other byte |
| Bytes.ReadAfterWrite | src/commands.c:535-542 | reading back a successful write returns the data written |
| Bytes.ToUpper | src/commands.c:521-523 | `toupper` maps `a`–`z` down by 0x20, keeps every other byte, and never yields a lower-case letter |
| Structs.DecodePlacedBpb | include/structs.h:6-43 | decoding a sector after placing a BPB into it gives back that BPB |
| Structs.PlaceDecodedBpb | include/structs.h:6-43 | placing a decoded BPB into its own sector gives back the sector |
| Structs.DecodeBpb | include/structs.h:6-43 | the BPB fields come from their packed offsets; the signature is `0xAA55`, the value `load` checks, exactly when the sector ends in the bytes `0x55 0xAA` |
| Structs.EncodeDecodeDirEntry | include/structs.h:46-59 | encoding a decoded 32-byte entry gives back the bytes, with an 11-byte name |
| Structs.DecodeEncodeDirEntry | include/structs.h:46-59 | decoding an encoded entry gives back the entry |
| Structs.EncodeDirEntry | include/structs.h:46-59 | a packed entry is exactly 32 bytes |
| Structs.DecodeDirEntry | include/structs.h:46-59 | 32 bytes unpack into an entry with an 11-byte name and the attribute byte at offset 11 |
| Structs.ClusterHalves | src/commands.c:662 | joining the high and low 16-bit halves of a cluster number gives back the cluster |
| Structs.BitAnd | include/structs.h:97-103 | bitwise AND of attribute bytes is bounded by both operands |
| Structs.LongNameIsLowFourBits | include/structs.h:97-103 | the long-name mask is read-only, hidden, system and volume label together; it shares no bit with directory or archive |
| Structs.StoredAttributes | include/structs.h:97-103 | archive and directory entries are never taken for long-name or volume-label entries; a directory has the directory bit and an archive entry does not |
| Structs.Prefix | src/commands.c:671-672 | `strncpy` into a fixed buffer keeps a prefix of at most the capacity, and the whole string when it fits |
| Geometry.FirstDataSector | src/fat32_api.c:56-60 | the data region starts after the reserved sectors and, when there is a FAT, after the whole first FAT |
| Geometry.TotalClusters | src/fat32_api.c:62-68 | there are no more data clusters than sectors after the FATs |
| Geometry.ClusterSector | src/fat32_api.c:73-81 | the first sector of every cluster number lies in the data region |
| Geometry.ClusterSize | src/commands.c:806 | a cluster of at least one sector holds at least one sector's bytes |
| Geometry.ClusterSizePositive | src/fat32_api.c:73-81 | a well-formed BPB has a positive cluster size of at least one sector |
| Geometry.DataRegionFits | src/fat32_api.c:56-68 | the counted data clusters fit in the volume, and one more would not |
| Geometry.ClusterInVolume | src/fat32_api.c:73-81 | every counted data cluster lies after the first data sector and inside the volume |
| Geometry.ClustersDisjoint | src/fat32_api.c:73-81 | distinct data clusters occupy disjoint sector ranges |
| Geometry.ReservedClustersAlias | src/fat32_api.c:73-81 | clusters 0 and 1 map to the sectors of cluster 2 |
| Fat.DriverEntryAddr | src/fat32_api.c:89-98 | the sector-plus-offset address the driver computes equals the byte address of the entry in the given FAT copy |
| Fat.CopiesApart | src/fat32_api.c:129-150 | the same entry in two FAT copies is at the same address or four or more bytes apart |
| Fat.ReadFatEntry | src/fat32_api.c:84-113 | a read entry is masked to 28 bits, and an entry outside the image reads as the failure value 0x0FFFFFFF |
| Fat.WriteFatEntry | src/fat32_api.c:118-151 | every FAT copy that fits gets the value masked to 28 bits, copy by copy until the first one that does not fit, and no other byte changes |
| Fat.ReadAfterWriteFat | src/fat32_api.c:84-151 | after writing an entry, reading it returns the masked value, or the failure value when the entry is outside the image |
| Fat.WriteKeepsOtherEntries | src/fat32_api.c:118-151 | writing one FAT entry leaves every other entry of the FAT unchanged |
| Fat.FreeFrom | src/fat32_api.c:154-164 | the first free entry from a cluster on is free and within the counted clusters, or the search reports 0x0FFFFFFF |
| Fat.GetFreeCluster | src/fat32_api.c:154-164 | the loop returns the first free data cluster from cluster 2, or 0x0FFFFFFF when every cluster is in use |
| Fat.Walk | src/fat32_api.c:169-188 | following a chain zero links stays put; after one or more links it is a live cluster or the end value |
| Fat.WalkStep | src/fat32_api.c:169-188 | one more link follows the FAT entry of the current cluster, stopping at an end-of-chain value |
| Fat.FindClusterFromOffset | src/fat32_api.c:169-188 | the loop returns the cluster `offset / cluster size` links down the chain, and the start for an offset in the first cluster |
| Names.NulIndexFirst | src/commands.c:47-48 | `strncpy` stops at the first NUL: no NUL before it |
| Names.TrimSpacesCutsSpaces | src/commands.c:49-52 | trimming removes exactly the trailing spaces |
| Names.CleanFieldPrefix | src/commands.c:46-60 | a cleaned name or extension is a NUL-free prefix of its field |
| Names.FormatName | src/commands.c:42-68 | the formatted name fits the 13-byte buffer with its terminator and holds no NUL |
| Names.EncodeName | src/commands.c:516-524 | the stored 11-byte name is the argument upper-cased, truncated and padded with spaces |
| Names.Upper | src/commands.c:521-523 | upper-casing keeps length and maps each byte by `toupper` |
| Names.FormatEncodeShort | src/commands.c:42-68 | a stored name of up to eight characters formats back to the upper-cased argument |
| Names.FormatEncodeLong | src/commands.c:42-68 | a stored name of nine to eleven characters formats back with a dot inserted after the eighth |
| Names.UpperOfUpper | src/commands.c:521-523 | upper-casing a name with no lower-case letter changes nothing |
| Directory.SectorEntries | src/commands.c:98-102 | a sector holds `bytes per sector / 32` entries at consecutive 32-byte addresses |
| Directory.Visited | src/commands.c:85-138 | every entry the walk reaches is a 32-byte slot holding the image's bytes at its address |
| Directory.Step | src/commands.c:105-132 | one entry ends the walk exactly when it is the end marker or a match; the hit changes only to a matching entry, the free slot only in the search and only to this entry's address, and the listing only gains this entry's name |
| Directory.Fold | src/commands.c:85-138 | a walk that has ended changes nothing; whatever it finds is a matching entry of the walked list |
| Directory.VisitedFuel | src/commands.c:85-138 | the entries reached do not depend on how much fuel bounds a terminating chain |
| Directory.Entries | src/commands.c:85-138 | the entries a walk reaches are the ones visited under any sufficient fuel |
| Directory.FoldAppend | src/commands.c:85-138 | walking two lists of entries in turn is walking their concatenation |
| Directory.ScanSector | src/commands.c:98-133 | the inner loop over a sector's entries computes the per-entry step folded over them |
| Directory.ScanDirectory | src/commands.c:71-143 | the nested cluster, sector and entry loops compute the step folded over every entry the chain reaches |
| Directory.StopIndex | src/commands.c:105-132 | the first entry that ends the walk: nothing before it stops, and the entry there does |
| Directory.FirstDeleted | src/commands.c:113-116 | the first deleted slot, and no deleted slot before it |
| Directory.LookupFindsFirstMatch | src/commands.c:105-132 | a lookup returns the entry where the walk stops when that entry matches, and nothing otherwise |
| Directory.LookupFoundIff | src/commands.c:105-132 | a lookup finds something exactly when some entry before the end marker matches, and what it finds is such an entry |
| Directory.SearchSlot | src/commands.c:104-116 | the free slot is the end marker's when the walk stops there; otherwise it is the first deleted slot up to the stop |
| Directory.Printed | src/commands.c:216-236 | `ls` prints at most one name per entry |
| Directory.ListingPrints | src/commands.c:195-243 | the listing loop appends the names of the listed entries before the end marker |
| Directory.PrintedIff | src/commands.c:220-231 | a name is printed exactly when a listed entry before the end marker carries it |
| Directory.ListingIff | src/commands.c:182-247 | `ls` prints a name exactly when a visible, non-deleted entry before the end marker carries it |
| Directory.FatEntryKept | src/commands.c:535-542 | writing a slot in the data region leaves every FAT entry that lies in the first FAT unchanged |
| Directory.VisitedAfterWrite | src/commands.c:535-542 | after one slot is written, a walk reaches the same addresses, with the written slot holding the new bytes |
| Directory.TerminatesAfterWrite | src/commands.c:535-542 | writing one slot leaves a finite directory chain finite |
| Entries.NewFileEntry | src/commands.c:512-532 | the entry `creat` builds has an 11-byte name |
| Entries.DotNames | src/commands.c:443-456 | the `.` and `..` names format as `.` and `..` |
| Entries.ParentField | src/commands.c:459-468 | the `..` entry records 0 exactly when the parent is the root |
| Entries.NewDirCluster | src/commands.c:434-469 | a new directory's cluster holds `.` for itself, `..` for its parent, then zeros |
| Entries.NewDirEntryDecodes | src/commands.c:401-420 | the entry `mkdir` writes decodes to a directory with the new cluster, size 0 and the stored name |
| Entries.NewFileEntryMatches | src/commands.c:492-543 | a file created under a name with no lower-case letter is matched by the search and by `open` |
| Entries.SlotEntry | src/commands.c:104-116 | when the search finds nothing, its free slot is an entry it reached, and no entry before that one ends the walk |
| Entries.FoundAfterOverwrite | src/commands.c:492-543 | with the new entry written over the free slot, the search and `open` both find that entry |
| Entries.CreatThenFound | src/commands.c:492-543 | after `creat` writes its entry into the image, the directory chain still ends, and searching again (so a second `creat` reports that it exists) and opening the name find exactly that entry |
| Entries.LowerCaseNeverMatches | src/commands.c:500-523 | a name with a lower-case letter never matches the entry `creat` stored for it |
| Entries.FirstStopAt | src/commands.c:105-132 | the walk stops at the first entry that stops it |
| OpenFiles.FirstHeld | src/commands.c:710-718 | the first used slot holding a name, or -1 when none does |
| OpenFiles.FirstUnused | src/commands.c:637-650 | the first unused slot, or -1 when every slot is used |
| OpenFiles.FindHandle | src/commands.c:737-742 | the search loop returns the first used slot holding the name |
| OpenFiles.FindOpenSlot | src/commands.c:637-650 | the loop reports a duplicate exactly when a used slot holds the name and path, and otherwise the first free slot |
| OpenFiles.ReadSome | src/commands.c:852 | `fread` returns a prefix of the requested bytes, short only at the end of the image |
| OpenFiles.ReadChain | src/commands.c:829-867 | the data loop returns the bytes of the recursive chain reader |
| OpenFiles.ReadFrom | src/commands.c:829-867 | the chain reader returns at most the bytes requested |
| OpenFiles.ReadFromSound | src/commands.c:829-867 | every byte read is the image byte at its place along the chain, and a short read means the chain ended |
| OpenFiles.HeadReads | src/commands.c:834-852 | one chunk is the rest of the cluster or the rest of the request, read from that cluster |
| OpenFiles.ReadFileSound | src/commands.c:805-867 | a read from a file position returns the file's bytes from that position on |
| OpenFiles.ReadFileShort | src/commands.c:805-867 | a read is short only where the file's chain ends |
| OpenFiles.ReadFileFacts | src/commands.c:805-867 | on a chain that fits in the image, a read returns the file's bytes and is short only at the chain's end |
| OpenFiles.FileRead | src/commands.c:805-867 | a read from a file position returns at most the bytes requested |
| OpenFiles.FilePositions | src/commands.c:810-817 | file position `p + k` lies `k` bytes on from the cluster and in-cluster offset that seeking to `p` finds |
| OpenFiles.WalkAdd | src/fat32_api.c:169-188 | following `j` then `i` links is following `j + i` links |
| OpenFiles.IndexIsDiv | src/commands.c:810-817 | the cluster index and in-cluster offset are the quotient and remainder by the cluster size |
| Shell.PushPath | src/commands.c:356-363 | entering from the root gives `/name/`, otherwise the name is appended directly, truncated to the path buffer |
| Shell.LastSlash | src/commands.c:339-344 | `strrchr` finds the last `/`, or none |
| Shell.PopPath | src/commands.c:333-348 | leaving a directory removes a trailing `/` and cuts after the last `/`, leaving `/` when none is left; the result ends in `/` |
| Shell.LastSlashSkips | src/commands.c:339-344 | appending a slash-free name does not move the last `/` |
| Shell.PopPushPath | src/commands.c:325-363 | from the root or a `/`-terminated path, entering a slash-free name and then leaving restores the path |
| Shell.MissingSeparator | src/commands.c:359-362 | from `/A/B`, entering `C` gives `/A/BC`, and leaving that gives `/A/` |
| Shell.CdOutcome | src/commands.c:270-367 | `cd` succeeds exactly when the lookup found a directory; `..` at the root stays at the root; `.` changes nothing; otherwise the entry's cluster becomes current; failures change nothing |
| Shell.CdUpRestoresPath | src/commands.c:325-367 | `cd name` then `cd ..` lands on the `..` entry's cluster with the original path |
| Shell.SlotCluster | src/commands.c:662 | an entry's start cluster is the 16-bit field at offset 20 shifted up 16 bits plus the 16-bit field at offset 26 |
| Shell.NewDirDotEntry | src/commands.c:443-450 | in a new directory, `cd .` finds a directory entry for the directory itself |
| Shell.NewDirDotDotEntry | src/commands.c:452-469 | in a new directory, `cd ..` finds a directory entry holding the parent, or 0 for the root |
| Shell.ReadHandle | src/commands.c:786-877 | `read` refuses write-only handles and reads at the end of file; otherwise it returns the file bytes up to the request and the end of file, advances the offset by what it read, and keeps the offset within the file |
| Shell.Opened | src/commands.c:659-672 | a new open handle is used, at offset 0, within its file, and holds the name and path when they fit |
| Shell.OpenedIsHeld | src/commands.c:637-672 | after opening into the first free slot, a name lookup finds that slot or an earlier handle with the same name |
| Shell.SeekFile | src/commands.c:806-817 | the starting cluster is the one `offset / cluster size` links down the chain, and the in-cluster offset is the remainder |
| Shell.ReadOpenFile | src/commands.c:792-877 | the status and bytes of `read` on one handle are those of `ReadHandle` |
| Shell.MakeDirectory | src/commands.c:391-487 | `mkdir` takes the first free cluster and fails when there is none; otherwise it marks the cluster end-of-chain, writes the entry, then the `.`/`..` cluster, and reports a failed write |
| Shell.Session.constructor | include/structs.h:84-94 | the global state starts zeroed: empty path, cluster 0, ten unused zero slots |
| Shell.Session.Load | src/fat32_api.c:12-48 | mounting reads the BPB and fails on a short image or a bad signature; on success it starts at the root cluster and frees and numbers every slot; the path is `/` either way |
| Shell.Session.Ls | src/commands.c:182-247 | `ls` returns the names of the listed entries of the working directory, in order |
| Shell.Session.Cd | src/commands.c:250-368 | `cd` sets the status, cluster and path that `CdOutcome` gives for the lookup's result |
| Shell.Session.Creat | src/commands.c:492-543 | `creat` reports an existing name, then a missing slot; otherwise it writes the new entry at the slot, and fails only when the write does |
| Shell.Session.Mkdir | src/commands.c:372-488 | `mkdir` reports an existing name, a missing slot or no free cluster; otherwise it allocates, writes the entry and builds the new directory's cluster |
| Shell.Session.Open | src/commands.c:548-675 | `open` reports not found, a directory, a name already open in this path, or a full table; otherwise the first free slot gets the new handle and nothing else changes |
| Shell.Session.Close | src/commands.c:703-723 | `close` frees the first used slot holding the name, and reports when there is none |
| Shell.Session.Lseek | src/commands.c:726-757 | `lseek` sets the offset of the first handle holding the name when the new offset lies in `[0, file size]`, and reports otherwise |
| Shell.Session.Read | src/commands.c:760-877 | `read` rejects a non-positive size and an unopened name; otherwise it returns what `ReadHandle` returns and stores the advanced handle |

## Left out

- Printing: `ls` and `read` return their output instead of printing it, and error messages are a `Status`. `read` prints its buffer up to the first NUL, which the model does not cut.
- The shell loop, the lexer, and the `info`, `lsof`, `exit`, `write`, `rm`, `rmdir` and `mv` commands are not part of this model. `image_name` is used only by `lsof` and is left out.
- Argument parsing: the `open` flags become an `AccessMode` and the `atol` results become integers passed in. A missing argument (`NULL`) cannot occur.
- `malloc` failures are left out; the model always has its buffers.
- `fseek` never fails. A write that runs past the end of the image fails (`WriteAt` returns `None`), whereas `fwrite` on a file would extend it.
- Integer widths: sizes, offsets and sector arithmetic are unbounded integers. The C `unsigned int` and `long` arithmetic could wrap on very large volumes; the FAT value mask (28 bits) is modelled.
- Shell.Session.Load: when the image is shorter than one sector, the C `fread` may have filled part of the BPB. The model keeps the old BPB instead.
- Shell.Session.Ls, Shell.Session.Cd, Shell.Session.Creat, Shell.Session.Mkdir, Shell.Session.Open: these require a BPB that passes `Geometry.WellFormed` (a sector of whole entries and at least one sector per cluster). They also require that the working directory's cluster chain ends (`Fat.FiniteChain`). The model excludes every cyclic chain, including one that the C loops would leave early at an end marker (`0x00`) or a matching entry, because it defines the walk over the whole chain.
- Entries.CreatThenFound: stated for a volume with at least one FAT whose directory chain keeps its FAT entries inside the first FAT (`Directory.ChainInFat`). Otherwise the written slot could overlap the chain's own FAT entries, and the model does not say what the walk then reaches.
- Shell.Session.Creat, Shell.Session.Mkdir: these require a name with no NUL byte, as every C string argument is.
- Shell.Session.Mkdir: requires clusters of at least 64 bytes. A smaller cluster would make the C code write `.` and `..` past its buffer.
- OpenFiles.ReadFileSound, OpenFiles.ReadFileShort: stated for a chain that starts at a live cluster and whose clusters all lie inside the image. Elsewhere the read stops early and the model says only that it returns at most the request.
- Shell.Session.Read: the bytes are tied to the chain through `ReadHandle` and `OpenFiles.ReadFileFacts`, not restated in the method's own contract.
