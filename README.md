# SdFile and the data logger's SD helpers, in Dafny

This project models the core of a data logger built on an Arduino. It has
three parts.

- **SdFat's `SdFile`**: the file handle of a FAT16/FAT32 file system on an SD card.
  - A handle is a class with the source's fields: `curPosition`, `curCluster`, `fileSize`, `firstCluster`, `flags`, `type`, `dirBlock` and `dirIndex`.
  - It sits on an abstract volume (`FatVolume.Volume`). The volume holds the allocation table as a sequence of 32-bit entries, the device as a sequence of 512-byte blocks, and one cache slot: a block number, 512 bytes and a dirty bit.
  - Every operation of the handle is a method whose contract says what it does to the handle, the table and the device. Failures are reported as booleans, as in the source.
  - The byte-level picture is `FatFile.Layout` with `BlockAt`: the device block that holds byte p of a file, found by walking its cluster chain.
  - Read and write are stated with `Holds(m, disk, p, bytes)`: the file holds `bytes` from position p.
  - Directory operations are stated over `Slots()`: the directory's entries, slot by slot, decoded from the device. Pure specifications of the searches (`DirScan.Scan`, `DirScan.NextListed`) sit beside them.
- **The 8.3 short names** (`ShortName`): `make83Name` and `dirName`, which convert between a path component and the 11-byte name field. The 32-byte directory entry (`DirEntry`) is little-endian, with the first cluster split into a high and a low half.
- **DLCommon and DLSD**, from the logger:
  - the XOR checksum and the nibble-table CRC-32, proved equal to the bit-at-a-time CRC of IEEE 802.3;
  - `fmtUnsigned`;
  - the log-file naming (`pad_filename` and the name built in `open`);
  - the per-file counters;
  - the terminator-delimited reader.

The modules follow the files: `Bytes` for machine integers and C strings, `Fat`, `FatVolume` (Volume.dfy), `DirEntry`, `DirScan`, `ShortName`, `FatFile` (SdFile.dfy), `DLCommon` and `DLSD`.

## Model

| member | source | states |
|---|---|---|
| Bytes.AsInt16 | dependencies/libraries/SdFat/SdFile.cpp:975-1026 | a 16-bit count as the int16_t read and write return: within -32768 .. 32767, equal modulo 2^16, and non-negative exactly below 0x8000 |
| Bytes.StrLen | dtudataloggerv3_0/DLSD/DLSD.cpp:119 | strlen: the index of the first NUL, with no NUL before it |
| Bytes.CStr | dtudataloggerv3_0/DLCommon/DLCommon.cpp:59 | the characters of a C string: NUL-free, and followed by a NUL in the buffer |
| DLCommon.GetChecksum | dtudataloggerv3_0/DLCommon/DLCommon.cpp:55-64 | get_checksum returns the XOR of every character before the terminator (0 for the empty string) |
| DLCommon.XorAllConcat | dtudataloggerv3_0/DLCommon/DLCommon.cpp:59-62 | the checksum of a concatenation is the XOR of the parts' checksums |
| DLCommon.ChecksumSelfCancels | dtudataloggerv3_0/DLCommon/DLCommon.cpp:55-64 | data followed by its own checksum byte has checksum 0 |
| DLCommon.TableIsShift4 | dtudataloggerv3_0/DLCommon/DLCommon.cpp:69 | every crc_table entry is four reflected bit steps (polynomial 0xEDB88320) of its index |
| DLCommon.NibbleUpdateIs | dtudataloggerv3_0/DLCommon/DLCommon.cpp:68-69 | one half of crc_update, table[(crc ^ nibble) & 0xF] ^ (crc >> 4), is four bit steps after folding in the nibble |
| DLCommon.ByteStep | dtudataloggerv3_0/DLCommon/DLCommon.cpp:68-71 | the two halves, low nibble first, make the eight bit steps of one byte |
| DLCommon.CrcUpdate | dtudataloggerv3_0/DLCommon/DLCommon.cpp:66-73 | crc_update equals the bit-at-a-time CRC-32 update of one byte |
| DLCommon.CrcFoldSnoc | dtudataloggerv3_0/DLCommon/DLCommon.cpp:77-78 | folding one more byte is one more CRC update |
| DLCommon.CrcString | dtudataloggerv3_0/DLCommon/DLCommon.cpp:75-81 | crc_string is the IEEE 802.3 CRC-32 of the characters before the terminator (start all ones, complement at the end); the empty string gives 0 |
| DLCommon.NonZeroSnoc | dtudataloggerv3_0/DLCommon/DLCommon.cpp:87-88 | the zero-skipping filter keeps a non-zero byte and drops a zero one |
| DLCommon.CrcStruct | dtudataloggerv3_0/DLCommon/DLCommon.cpp:83-91 | crc_struct is the CRC-32 of the first len bytes with every zero byte skipped (no bytes for len <= 0) |
| DLCommon.NonZeroConcat | dtudataloggerv3_0/DLCommon/DLCommon.cpp:86-88 | the filter distributes over concatenation |
| DLCommon.ZeroBytesIgnored | dtudataloggerv3_0/DLCommon/DLCommon.cpp:87 | inserting a 0x00 byte anywhere never changes crc_struct's result |
| DLCommon.StructAgreesWithString | dtudataloggerv3_0/DLCommon/DLCommon.cpp:75-91 | on a record without zero bytes crc_struct and crc_string agree |
| DLCommon.DigitsValue | dtudataloggerv3_0/DLCommon/DLCommon.cpp:108-113 | the decimal digits, read back, give the number |
| DLCommon.DigitsLead | dtudataloggerv3_0/DLCommon/DLCommon.cpp:108-113 | the leading digit is '0' exactly for the value 0 |
| DLCommon.FormattedValue | dtudataloggerv3_0/DLCommon/DLCommon.cpp:115-127 | zero padding never changes the value: the padded text denotes val |
| DLCommon.DigitsBound | dtudataloggerv3_0/DLCommon/DLCommon.cpp:106-108 | a value below 10^k has at most k digits (so 32-bit values fit the 12-byte digit buffer) |
| DLCommon.ReversedDigits | dtudataloggerv3_0/DLCommon/DLCommon.cpp:105-113 | the first loop leaves the decimal digits of val, least significant first, in dbuf[..idx], with 1 <= idx <= 10 |
| DLCommon.FmtUnsigned | dtudataloggerv3_0/DLCommon/DLCommon.cpp:100-132 | returns 0 and writes nothing for a null buffer or bufLen 0; otherwise writes the first min(bufLen - 1, max(width, digits)) characters of val zero-padded to width, then a NUL, returns that count and leaves the rest of buf alone |
| DLSD.PadFilename | dtudataloggerv3_0/DLSD/DLSD.cpp:115-123 | pad_filename overwrites the last characters of the first eight with the decimal digits of c and changes nothing else |
| DLSD.FormatCount | dtudataloggerv3_0/DLSD/DLSD.cpp:118-119 | the fmtUnsigned call leaves the digits of c, at most five, NUL-terminated, where strlen finds their length |
| DLSD.PaddedIsZeroFilled | dtudataloggerv3_0/DLSD/DLSD.cpp:115-123 | a numbered base padded with c is its three letters and c zero-padded to five digits |
| DLSD.LogFileNameShape | dtudataloggerv3_0/DLSD/DLSD.cpp:140-144 | the name opened for file n is CONFIG.DAT for n = 0, and otherwise the table prefix, the counter in five digits and .DAT |
| DLSD.NameDigits | dtudataloggerv3_0/DLSD/DLSD.cpp:142-143 | characters 3 to 7 of a numbered name are its counter in five digits |
| DLSD.LogFileNamesDistinct | dtudataloggerv3_0/DLSD/DLSD.cpp:125-129 | different counter values of one file give different names, so incrementing never reuses a log file |
| DLSD.LogFileNameIsShortName | dtudataloggerv3_0/DLSD/DLSD.cpp:140-149 | every composed name is a valid 8.3 name (base the numbered entry, extension DAT) that dirName prints back unchanged from make83Name's field |
| DLSD.StrLenOf | dtudataloggerv3_0/DLSD/DLSD.cpp:119 | strlen over the buffer returns the index of its first NUL |
| DLSD.CopyString | dtudataloggerv3_0/DLSD/DLSD.cpp:141-144 | strcpy/strcat: the string and its NUL are stored at the given position, the rest of the buffer unchanged |
| DLSD.Logger.constructor | dtudataloggerv3_0/DLSD/DLSD.cpp:17-24 | every file counter starts at 0, the logger is not yet initialised, and chip select and speed are the given ones |
| DLSD.Logger.GetFilesCount | dtudataloggerv3_0/DLSD/DLSD.cpp:60-62 | returns the stored counter of file fid |
| DLSD.Logger.SetFilesCount | dtudataloggerv3_0/DLSD/DLSD.cpp:64-67 | stores count at fid only and returns 1 |
| DLSD.Logger.ResetFilesCount | dtudataloggerv3_0/DLSD/DLSD.cpp:69-72 | every file counter becomes 0 |
| DLSD.Logger.GetSavedCount | dtudataloggerv3_0/DLSD/DLSD.cpp:74-76 | returns the stored saved counter of file fid |
| DLSD.Logger.SetSavedCount | dtudataloggerv3_0/DLSD/DLSD.cpp:78-81 | stores count at fid only and returns 1 |
| DLSD.Logger.ResetSavedCount | dtudataloggerv3_0/DLSD/DLSD.cpp:83-86 | every saved counter becomes 0 |
| DLSD.Logger.IncrementFile | dtudataloggerv3_0/DLSD/DLSD.cpp:125-129 | raises counter n by one (wrapping at 2^16), touches no other counter, returns true |
| DLSD.Logger.ComposeName | dtudataloggerv3_0/DLSD/DLSD.cpp:139-144 | the name buffer holds LogFileName(n, filesCount[n]) and a NUL |
| DLSD.ComposeInto | dtudataloggerv3_0/DLSD/DLSD.cpp:140-144 | copying the table entry, padding it (n != 0) and appending ".DAT" yields the composed name and a NUL |
| DLSD.ReadUntilAsWritten | dtudataloggerv3_0/DLSD/DLSD.cpp:208-226 | read(n, ptr, len, t) as written: copies bytes (as chars) up to the first stop, writes a NUL there, leaves the rest of ptr, and returns 1, 0 or -1 per ReadResult, where a byte of 0x80 or more counts as the end of the file |
| DLSD.ReadUntil | dtudataloggerv3_0/DLSD/DLSD.cpp:208-226 | the same reader with the end-of-file test made before the byte is stored: only the real end stops it with -1 |
| DLSD.StopWithinFile | dtudataloggerv3_0/DLSD/DLSD.cpp:210-223 | both readers stop by the end of the file at the latest |
| DLSD.EndOnlyAtEndOfFile | dtudataloggerv3_0/DLSD/DLSD.cpp:213-216 | the corrected reader returns -1 exactly when the file ends within len bytes with no terminator before it |
| DLSD.TerminatorFound | dtudataloggerv3_0/DLSD/DLSD.cpp:217-220 | the corrected reader returns 0 exactly when a terminator comes within len bytes of the file |
| DLSD.AgreeOnAscii | dtudataloggerv3_0/DLSD/DLSD.cpp:211-212 | on bytes below 0x80 the as-written and the corrected reader stop at the same place |
| DLSD.HighByteLooksLikeEndOfFile | dtudataloggerv3_0/DLSD/DLSD.cpp:211-216 | on the file [0xB0, 0x0A] with t = '\n' the code as written returns -1 at once; the corrected reader copies 0xB0 and returns 0 |
| ShortName.Make83Name | dependencies/libraries/SdFat/SdFile.cpp:315-345 | make83Name succeeds exactly for a valid 8.3 component (one dot at most, legal printable bytes, base 1..8, extension 0..3); then the field is the upper-cased, blank-filled base and extension, and the scan stops at the first NUL or '/' |
| ShortName.BlankFill | dependencies/libraries/SdFat/SdFile.cpp:320 | every byte of the name field becomes a blank |
| ShortName.IsIllegal | dependencies/libraries/SdFat/SdFile.cpp:330-332 | the inner loop reports a byte exactly when it is one of the refused characters |
| ShortName.ScanChar | dependencies/libraries/SdFat/SdFile.cpp:334-336 | an accepted byte is stored upper-cased at the next index of the base or extension |
| ShortName.ScanSecondDot | dependencies/libraries/SdFat/SdFile.cpp:325 | a second dot makes the component invalid |
| ShortName.ScanRefuse | dependencies/libraries/SdFat/SdFile.cpp:332-334 | a refused byte, a byte outside 0x21..0x7E or an over-long part makes the component invalid |
| ShortName.ScanEnd | dependencies/libraries/SdFat/SdFile.cpp:341 | at the end, a non-blank first byte is exactly validity, and the field is Format83 of the component |
| ShortName.PrefixOkClosed | dependencies/libraries/SdFat/SdFile.cpp:322-338 | every prefix of an acceptable component is acceptable |
| ShortName.DirName | dependencies/libraries/SdFat/SdFile.cpp:212-220 | dirName writes the non-blank base bytes, a '.' before a non-blank byte 8, the non-blank extension bytes and a NUL (at most 12 characters) |
| ShortName.WrittenStep | dependencies/libraries/SdFat/SdFile.cpp:215-217 | one round of dirName's loop skips a blank, inserts '.' at index 8, and copies the byte |
| ShortName.DirNameOfFormat | dependencies/libraries/SdFat/SdFile.cpp:212-220 | round trip: dirName of make83Name's field is the component itself, for every valid upper-case component not ending in a bare dot |
| ShortName.DirNameOfParts | dependencies/libraries/SdFat/SdFile.cpp:212-220 | dirName of a blank-filled base and extension is "BASE.EXT", or "BASE" without an extension |
| DirEntry.DecodeEncode | dependencies/libraries/SdFat/SdFile.cpp:1048 | decoding the 32 bytes of an encoded entry gives back every field |
| DirEntry.EncodeDecode | dependencies/libraries/SdFat/SdFile.cpp:1048 | encoding a decoded entry reproduces the 32 bytes exactly |
| DirEntry.WithEntryAt | dependencies/libraries/SdFat/SdFile.cpp:78-84 | writing slot i of a directory block stores the entry there and leaves every other slot as it was |
| DirEntry.WithOwnEntry | dependencies/libraries/SdFat/SdFile.cpp:78-84 | rewriting the entry already in a slot leaves the block unchanged |
| DirEntry.FileOrSubdirCases | dependencies/libraries/SdFat/SdFile.cpp:690-698 | DIR_IS_FILE_OR_SUBDIR is exactly DIR_IS_FILE or DIR_IS_SUBDIR, and never both |
| DirEntry.SubdirRefusesWrite | dependencies/libraries/SdFat/SdFile.cpp:678-680 | a subdirectory always refuses O_WRITE and O_TRUNC |
| DirEntry.ShiftOrIsSum | dependencies/libraries/SdFat/SdFile.cpp:686-687 | the bitwise OR of high << 16 and low is high * 65536 + low for 16-bit halves |
| DirEntry.MaskShiftAreDivMod | dependencies/libraries/SdFat/SdFile.cpp:1338-1339 | c & 0xFFFF and c >> 16 are c mod 65536 and c div 65536 |
| DirEntry.JoinSplit | dependencies/libraries/SdFat/SdFile.cpp:686-687 | splitting a cluster number as sync does and joining as openCachedEntry does gives it back |
| DirEntry.SplitJoin | dependencies/libraries/SdFat/SdFile.cpp:1338-1339 | joining the halves and splitting again gives the same halves |
| DirEntry.WithFirstClusterKeeps | dependencies/libraries/SdFat/SdFile.cpp:1338-1339 | setting the halves changes no other field |
| DirScan.ScanFromStep | dependencies/libraries/SdFat/SdFile.cpp:562-580 | one round of open's search: a never-used slot ends it, a live slot with the name is found, and the first vacant slot is remembered |
| DirScan.ScanMeaning | dependencies/libraries/SdFat/SdFile.cpp:562-580 | the search finds the first slot before any never-used slot that carries the name, and remembers the first vacant slot it reaches; finding nothing means no reachable slot carries the name |
| DirScan.AbsentNotFound | dependencies/libraries/SdFat/SdFile.cpp:576-578 | a name no slot carries is not found |
| DirScan.PresentFound | dependencies/libraries/SdFat/SdFile.cpp:576-578 | a name carried before any never-used slot is found, at its first slot |
| DirScan.MarkDeleted | dependencies/libraries/SdFat/SdFile.cpp:1111 | the deleted entry is vacant, matches no name, is not listed, and differs only in its first name byte |
| DirScan.NextListedStep | dependencies/libraries/SdFat/SdFile.cpp:735-753 | one round of openNext: stop at a never-used slot, open a file or subdirectory, pass over the rest |
| DirScan.NextListedMeaning | dependencies/libraries/SdFat/SdFile.cpp:735-753 | openNext finds the first openable slot from the cursor with no never-used slot before it; finding nothing means every slot before the end or a never-used slot is not openable |
| DirScan.ReadDirResult | dependencies/libraries/SdFat/SdFile.cpp:1043-1062 | readDir as intended returns 32 exactly when a next file or subdirectory exists, else 0 |
| DirScan.ReadDirFreeSlotIsError | dependencies/libraries/SdFat/SdFile.cpp:1050-1057 | on a directory whose next slot is never used, readDir as written returns -1 where 0 is meant |
| DirScan.ReadDirResultsAgree | dependencies/libraries/SdFat/SdFile.cpp:1050-1057 | the two readDir results differ exactly when no entry is left and a never-used slot ends the reading |
| Fat.ShiftIsDivMod | dependencies/libraries/SdFat/SdFile.cpp:991-995 | x >> k and the k low bits are x div 2^k and x mod 2^k |
| Fat.ShlIsMul | dependencies/libraries/SdFat/SdFile.cpp:69 | x << k is x * 2^k |
| Fat.ClusterIndexIsDiv | dependencies/libraries/SdFat/SdFile.cpp:1294-1295 | pos >> (clusterSizeShift + 9) is pos divided by the cluster size |
| Fat.ShrPrevious | dependencies/libraries/SdFat/SdFile.cpp:1294-1302 | stepping back one byte lowers the cluster index by one exactly at a cluster boundary |
| Fat.ClusterOfPrevious | dependencies/libraries/SdFat/SdFile.cpp:996-1004 | the byte before pos is in the previous cluster exactly when pos has block offset 0 and block-of-cluster 0 |
| Fat.BlockOfClusterBound | dependencies/libraries/SdFat/SdFile.cpp:995 | blockOfCluster is below blocksPerCluster |
| Fat.WalkAdd | dependencies/libraries/SdFat/SdFile.cpp:1304-1306 | following j links and then k more is following j + k links |
| Fat.ChainBytesAligned | dependencies/libraries/SdFat/SdFile.cpp:694 | a chain's size, even wrapped to 32 bits, is a multiple of 32 bytes |
| FatVolume.Volume.FatGet | dependencies/libraries/SdFat/SdFile.cpp:1003 | fatGet succeeds exactly on the table and returns the entry |
| FatVolume.Volume.AllocContiguous | dependencies/libraries/SdFat/SdFile.cpp:41 | on success the run was free and is now a chain ending in an end-of-chain mark, linked after a non-zero tail; with a valid tail it fails only when no run of count free clusters exists (NoFreeRun), and then the table is unchanged |
| FatVolume.LinkedIsChain | dependencies/libraries/SdFat/SdFile.cpp:41-47 | the allocated run is a chain of exactly count clusters, and the old tail now leads to it |
| FatVolume.Volume.FreeChain | dependencies/libraries/SdFat/SdFile.cpp:1464 | on success every cluster of the (pairwise different) chain from c is free and nothing else changed |
| FatVolume.Volume.ChainSize | dependencies/libraries/SdFat/SdFile.cpp:694 | on success the size is the chain's cluster count times the cluster size, modulo 2^32; it succeeds whenever the chain from c reaches an end-of-chain mark within one more link than the table has entries |
| FatVolume.Volume.CacheRawBlock | dependencies/libraries/SdFat/SdFile.cpp:1018 | the logical device is unchanged; it succeeds exactly when the block is cached already or the cache can be written back and the block exists, and then the cache holds it |
| FatVolume.Volume.CacheFlush | dependencies/libraries/SdFat/SdFile.cpp:1117 | succeeds exactly when the cache can be written back; the device then holds the logical contents and the cache is clean |
| FatFile.SdFile.SeekSet | dependencies/libraries/SdFat/SdFile.cpp:1277-1314 | fails when closed or pos > fileSize, leaving the cursor; on success curPosition == pos and the cursor is on the cluster reached after (pos-1) >> (shift+9) links; succeeds whenever that cluster exists |
| FatFile.SdFile.Read | dependencies/libraries/SdFat/SdFile.cpp:975-1030 | fails unless open for reading; the count is min(nbyte, fileSize - curPosition) returned as int16_t; the cursor advances by it, dst holds the file's bytes from the old cursor, the rest of dst is kept, and the read succeeds when every block is on the device |
| FatFile.SdFile.ReadByte | dependencies/libraries/SdFat/SdFile.cpp:956-959 | -1 when not readable or at the end; otherwise the byte the file holds at the cursor, with the cursor one further |
| FatFile.SdFile.ReadDirCache | dependencies/libraries/SdFat/SdFile.cpp:1066-1085 | fails unless a directory; the entry at the cursor is in the cache at index (pos >> 5) & 0xF, and the cursor moves 32 bytes on |
| FatFile.SdFile.CacheDirEntry | dependencies/libraries/SdFat/SdFile.cpp:78-84 | succeeds exactly when the entry's block can be cached; the cache then holds it, dirty when for writing |
| FatFile.SdFile.Sync | dependencies/libraries/SdFat/SdFile.cpp:1325-1354 | fails with writeError when closed or when the entry is marked deleted; on success the dirty bit is cleared, the cache is clean, and the entry holds the size (not for a directory), both first-cluster halves and the stamp |
| FatFile.SyncedDiskEntry | dependencies/libraries/SdFat/SdFile.cpp:1330-1346 | after sync the slot holds the old entry with size, cluster halves and stamp rewritten |
| FatFile.SdFile.Close | dependencies/libraries/SdFat/SdFile.cpp:94-100 | closes exactly when sync succeeds, and leaves the type unchanged otherwise |
| FatFile.SdFile.SearchDir | dependencies/libraries/SdFat/SdFile.cpp:559-580 | on a readable directory the search loop finds exactly what Scan finds and records the first vacant slot's block and index |
| FatFile.SdFile.OpenRoot | dependencies/libraries/SdFat/SdFile.cpp:824-855 | fails when open or not FAT16/32; FAT16 opens the fixed root with size 32 * rootDirEntryCount taken in 16 bits (EntryBytes), FAT32 the root chain with chainSize's size; read-only, cursor at 0; a failure leaves the handle as it was |
| FatFile.OpenRootAsWritten | dependencies/libraries/SdFat/SdFile.cpp:824-855 | openRoot as written, on the handle's fields: succeeds exactly on a closed handle with FAT16, or FAT32 with a chain size; the FAT16 size is 32 * (rootDirEntryCount mod 2048); the FAT32 failure keeps the type and first cluster it set |
| FatFile.OpenRootFailureLeavesHandleOpen | dependencies/libraries/SdFat/SdFile.cpp:832-835 | when chainSize fails, openRoot as written returns false yet leaves the handle open as a FAT32 root, so a later openRoot fails |
| FatFile.SdFile.LoadEntry | dependencies/libraries/SdFat/SdFile.cpp:673-704 | writing or truncating a read-only entry or directory is refused, a volume label fails, a file always opens, and the handle is opened on the entry |
| FatFile.SdFile.LoadKind | dependencies/libraries/SdFat/SdFile.cpp:690-704 | a file takes its entry's size, a subdirectory its chain's size, anything else fails; the access bits are kept and the cursor is at 0 |
| FatFile.SdFile.OpenCachedEntry | dependencies/libraries/SdFat/SdFile.cpp:673-710 | as LoadEntry, then with O_TRUNC the file is truncated to 0: size 0, the chain freed, the entry synced; an empty writable file with O_TRUNC always opens, and the cache is left as it was |
| FatFile.SdFile.OpenName | dependencies/libraries/SdFat/SdFile.cpp:551-626 | fails if the name exists with O_EXCL, if missing without both O_CREAT and O_WRITE, and if missing in a full fixed root; succeeds on an existing file the flags may open (Reopens) without O_EXCL, and on a missing name with O_CREAT, O_WRITE and a vacant slot; an existing entry opens in its own slot; a new empty entry with the default or callback stamp goes in the first vacant slot or a new cluster, written back |
| FatFile.NewEntry | dependencies/libraries/SdFat/SdFile.cpp:601-616 | the created entry is zero but for its name and its creation, write and access stamps, which are equal |
| FatFile.SdFile.OpenIndex | dependencies/libraries/SdFat/SdFile.cpp:642-670 | fails when open or with O_EXCL; the slot opened is index mod 2048, as 32 * index is taken in 16 bits; succeeds only on a listed slot inside the directory and opens its entry, and always does so when the entry admits the flags |
| FatFile.SdFile.OpenNext | dependencies/libraries/SdFat/SdFile.cpp:724-757 | fails when open; opens exactly the slot NextListed names from the directory's cursor, leaving the cursor just past it; fails when there is none |
| FatFile.SdFile.ReadDir | dependencies/libraries/SdFat/SdFile.cpp:1043-1062 | corrected readDir: -1 unless a directory on an entry boundary; otherwise ReadDirResult, with the next file or subdirectory entry in dst |
| FatFile.SdFile.ReadDirAsWritten | dependencies/libraries/SdFat/SdFile.cpp:1043-1062 | readDir as written: as ReadDir, but its result is ReadDirAsWrittenResult, -1 at a never-used slot |
| FatFile.SdFile.AddCluster | dependencies/libraries/SdFat/SdFile.cpp:40-52 | a free cluster is linked after the current one and becomes current; a file without clusters takes it as its first and its entry becomes dirty; failure changes nothing |
| FatFile.SdFile.AddDirCluster | dependencies/libraries/SdFat/SdFile.cpp:56-74 | refused at 0xFFFF entries; otherwise the directory gains one cluster whose blocks are all zero, and its size grows by a cluster |
| FatFile.SdFile.Truncate | dependencies/libraries/SdFat/SdFile.cpp:1445-1490 | fails unless a file open for writing with length <= fileSize; an empty file is left alone; on success fileSize == length, the cursor is min(old, length), the chain is cut after the cluster of the last byte (all freed for 0), and the entry is synced |
| FatFile.TruncatedChain | dependencies/libraries/SdFat/SdFile.cpp:1462-1477 | truncating a well-formed chain to length > 0 leaves exactly its first (length - 1) >> (shift + 9) + 1 clusters |
| FatFile.SdFile.Remove | dependencies/libraries/SdFat/SdFile.cpp:1101-1122 | fails unless a file open for writing; on success the chain is freed (size 0 keeps it), the entry is marked deleted on the device, and the handle is closed |
| FatFile.DeletedDiskEntries | dependencies/libraries/SdFat/SdFile.cpp:1107-1117 | after remove the slot holds the deleted mark, no search matches it and openNext skips it; every other slot and block is as before |
| FatFile.RemoveName | dependencies/libraries/SdFat/SdFile.cpp:1142-1150 | the static remove fails for a missing name; on success the named slot was a file and is now vacant |
| FatFile.SdFile.Rmdir | dependencies/libraries/SdFat/SdFile.cpp:1167-1194 | fails unless a subdirectory other than the working directory, and fails if any file or subdirectory comes before a never-used slot; on success its entry is vacant and its chain freed |
| FatFile.SdFile.RmRfStar | dependencies/libraries/SdFat/SdFile.cpp:1211-1253 | fails unless a directory; a root keeps its type; a subdirectory that is the working directory is refused; on success a subdirectory is closed and its entry vacant |
| FatFile.SdFile.RmRound | dependencies/libraries/SdFat/SdFile.cpp:1215-1243 | one pass of rmRfStar's loop: the cursor stays on an entry boundary and moves to the next slot, or after a removal to 32 * (slot + 1) taken in 16 bits |
| FatFile.SdFile.RmRead | dependencies/libraries/SdFat/SdFile.cpp:1212-1229 | one read of rmRfStar's loop: index is curPosition / 32 truncated to 16 bits; stops at a never-used slot, passes over deleted, dot and label slots to the next slot, and otherwise asks for a removal |
| FatFile.SdFile.RmEntry | dependencies/libraries/SdFat/SdFile.cpp:1231-1243 | the entry is opened and removed (recursively for a subdirectory), and the cursor ends at 32 * (index + 1) taken in 16 bits |
| FatFile.SdFile.CreateContiguous | dependencies/libraries/SdFat/SdFile.cpp:154-178 | fails for size 0 and for an existing name; a missing name with a vacant slot is created; when no run of free clusters is left, the call fails, the handle is closed and the new entry is vacant again; on success a new file of size bytes whose chain is one run of exactly ((size - 1) >> (shift + 9)) + 1 clusters, recorded in its synced entry |
| FatFile.ClustersForBounds | dependencies/libraries/SdFat/SdFile.cpp:162 | that count is the fewest clusters holding size bytes |
| FatFile.SdFile.ContiguousRange | dependencies/libraries/SdFat/SdFile.cpp:113-134 | succeeds exactly for a file whose chain is one run of consecutive clusters, and returns its first block and last block |
| FatFile.SdFile.Write | dependencies/libraries/SdFat/SdFile.cpp:1508-1596 | fails with writeError unless a file open for writing; returns nbyte as int16_t; the cursor advances by nbyte from the cursor (the end for O_APPEND); fileSize == max(old, cursor); the entry is dirty when the size grows or a stamp source is set; synced for O_SYNC; the bytes land on the device and no other block changes |
| FatFile.SdFile.WriteChunks | dependencies/libraries/SdFat/SdFile.cpp:1523-1577 | the loop writes the nbyte bytes from the cursor on, keeping the chain well formed, with the cursor advanced modulo 2^32 |
| FatFile.SdFile.EnterCluster | dependencies/libraries/SdFat/SdFile.cpp:1526-1545 | at a cluster start the write moves to the first or next cluster, allocating one at the end of the chain, and bytes already written stay on their blocks |
| FatFile.SdFile.PutStep | dependencies/libraries/SdFat/SdFile.cpp:1546-1576 | the bytes that fit in the cursor's block are placed there and the cursor moves past them |
| FatFile.PutChunk | dependencies/libraries/SdFat/SdFile.cpp:1553-1573 | a whole block goes straight to the device (the cache dropped if it held it); a partial block goes through the cache; either way only that block changes |
| FatFile.GrowChain | dependencies/libraries/SdFat/SdFile.cpp:1538-1540 | a cluster added at the end of a well-formed chain extends it by one and moves no byte already placed |
| FatFile.ProgressStep | dependencies/libraries/SdFat/SdFile.cpp:1553-1576 | one round of write's loop extends what is held by the bytes it wrote and leaves every block not written untouched |
| FatFile.StepWrote | dependencies/libraries/SdFat/SdFile.cpp:1523-1577 | one round of the loop keeps its invariant: cursor, chain and progress |
| FatFile.WriteLands | dependencies/libraries/SdFat/SdFile.cpp:1578-1589 | the loop's progress, followed by the sync of the entry's block under O_SYNC, is a landed write |
| FatFile.HoldsDetermines | dependencies/libraries/SdFat/SdFile.cpp:1014-1020 | two byte strings held from the same position on blocks of the device are equal, so a read after a write returns the written bytes |
| FatFile.CutChain | dependencies/libraries/SdFat/SdFile.cpp:1462-1477 | for length 0 the whole chain goes and the first cluster is forgotten; otherwise the chain is cut after the current cluster |
| FatFile.SdFile.SearchStep | dependencies/libraries/SdFat/SdFile.cpp:562-566 | one round of the search reads the entry at the cursor from the cache and moves 32 bytes on; on a searchable directory it is the slot's own entry, on its own block |
| FatFile.EntryBytes | dependencies/libraries/SdFat/SdFile.cpp:654 | 32 * k with a 16-bit unsigned int: equal to 32 * (k mod 2048), below 65536 and an entry boundary (also lines 831 and 1241-1242) |
| FatFile.SdFile.SeekSlot | dependencies/libraries/SdFat/SdFile.cpp:654 | seekSet(32 * k) with the product in 16 bits: the cursor lands on slot k mod 2048, and always does for a slot inside the directory |
| FatFile.SdFile.ReadSlot | dependencies/libraries/SdFat/SdFile.cpp:651-656 | seek and read of slot k mod 2048: succeeds exactly for a slot inside the directory and yields that slot's entry, at index k & 0xF of the cached block |
| FatFile.SdFile.NextEntry | dependencies/libraries/SdFat/SdFile.cpp:735-753 | openNext's loop finds what NextListed finds from the cursor, and reports where it stopped |
| FatFile.SdFile.ReadDirLoop | dependencies/libraries/SdFat/SdFile.cpp:1047-1059 | readDir's loop reads entries until a file or subdirectory, the end, or a never-used slot, as DirReadDone states |
| FatFile.SdFile.ReadEntryBytes | dependencies/libraries/SdFat/SdFile.cpp:1048 | read of 32 bytes at slot k: 0 at the end of the directory, otherwise the slot's entry, encoded, in dst |
| FatFile.SdFile.Shorten | dependencies/libraries/SdFat/SdFile.cpp:1456-1486 | truncate's work for a non-empty file: the chain is cut for length, the size and cursor set, and the entry synced with the new size and first cluster |
| FatFile.SdFile.CutTo | dependencies/libraries/SdFat/SdFile.cpp:1456-1481 | the cut before the sync: size length, cursor at length, the entry marked dirty, the chain cut and the device untouched |
| FatFile.SdFile.WriteFrom | dependencies/libraries/SdFat/SdFile.cpp:1516-1595 | write after the guard: cursor, size, dirty bit and sync as Write states, and the bytes land when the chain is well shaped |
| FatFile.SdFile.SeekAppend | dependencies/libraries/SdFat/SdFile.cpp:1519-1521 | with O_APPEND the cursor moves to the end of the file before writing |
| FatFile.SdFile.Settle | dependencies/libraries/SdFat/SdFile.cpp:1578-1595 | after the loop the size becomes max(size, cursor), the entry dirty when it grew or a stamp source is set, and synced under O_SYNC (only the entry's block changes) |
| FatFile.SdFile.WriteStep | dependencies/libraries/SdFat/SdFile.cpp:1523-1577 | one round of write's loop writes w bytes, 0 < w, and advances the cursor by w |
| FatFile.SdFile.ReachCluster | dependencies/libraries/SdFat/SdFile.cpp:1524-1545 | at a cluster boundary the cursor's cluster is reached, by the first cluster, the next link or a new cluster, without moving placed bytes |
| FatFile.DeleteEntry | dependencies/libraries/SdFat/SdFile.cpp:1107-1112 | marks the slot deleted in the cache; succeeds exactly when the block can be cached |
| FatFile.Unlink | dependencies/libraries/SdFat/SdFile.cpp:1107-1117 | marks the entry deleted, closes the handle and flushes; succeeds whenever the cache can be written back |
| FatFile.RemoveEmpty | dependencies/libraries/SdFat/SdFile.cpp:1101-1122 | remove on a file open for writing: frees the chain of a non-empty file, leaves the entry vacant and the handle closed |
| FatFile.ForceRemove | dependencies/libraries/SdFat/SdFile.cpp:1236-1241 | the writing reopen and remove of rmRfStar: only a file can be removed, and its entry is then vacant |
| FatFile.OpenToRemove | dependencies/libraries/SdFat/SdFile.cpp:1145-1149 | opens the named entry of the directory: fails when no slot carries the name, and otherwise opens the slot the search finds |
| FatFile.ClustersFor | dependencies/libraries/SdFat/SdFile.cpp:162 | the cluster count for size bytes: at least one, and the fewest whose bytes hold size |
| FatFile.AllocateRun | dependencies/libraries/SdFat/SdFile.cpp:162-177 | for a file without clusters a run is found exactly when one is free; without one the call fails and the file is removed (closed, entry vacant, table unchanged); on success one run of ClustersFor(size) clusters is the file's chain, with size bytes, and the entry is synced |
| FatFile.RecordRun | dependencies/libraries/SdFat/SdFile.cpp:170-177 | records first cluster and size in the handle and syncs them into the entry |
| FatFile.Locate | dependencies/libraries/SdFat/SdFile.cpp:559-619 | open's search and decisions: the O_EXCL, O_CREAT/O_WRITE and full fixed root failures; success for a found name without O_EXCL and for a missing one with O_CREAT, O_WRITE and a vacant slot; the found slot, and the new entry in the first vacant slot, written back |
| FatFile.Find | dependencies/libraries/SdFat/SdFile.cpp:559-580 | the search over the directory: found and vacant exactly as Scan says, with the block and index of each; the vacant slot's block is on the device and the cache stays flushable |
| FatFile.SelectSlot | dependencies/libraries/SdFat/SdFile.cpp:642-670 | open by index: fails when open or with O_EXCL, succeeds exactly on a listed slot index mod 2048 inside the directory, whose entry is in the cache |
| FatFile.SelectNext | dependencies/libraries/SdFat/SdFile.cpp:724-753 | openNext's choice: the slot NextListed names, with the cursor just past it |
| FatFile.MakeEntry | dependencies/libraries/SdFat/SdFile.cpp:583-619 | the creation branch: needs O_CREAT and O_WRITE, refuses a full fixed root, else writes a new entry in the vacant slot or slot 0 of a new cluster; into a vacant slot on the device with a flushable cache it always succeeds |
| FatFile.ReadBytes | dependencies/libraries/SdFat/SdFile.cpp:990-1026 | read's loop: the count bytes the file holds from pos land in dst, the rest of dst is kept, the cursor ends count bytes on, and it succeeds when every block exists |
| FatFile.RewriteEntry | dependencies/libraries/SdFat/SdFile.cpp:1328-1346 | sync's entry update: fails on a deleted entry, else rewrites size, first cluster halves and stamp in the cached block |
| FatFile.ZeroCluster | dependencies/libraries/SdFat/SdFile.cpp:64-67 | every block of the cluster becomes 512 zero bytes and nothing else changes |

## Left out

- FatFile.SdFile.CreateContiguous: takes the 11-byte name field rather than a path. The make83Name step at `dependencies/libraries/SdFat/SdFile.cpp:154-159` is `ShortName.Make83Name`, modelled and proved on its own.
- FatFile.RemoveName: takes the 11-byte name field rather than a path, for the same reason (`dependencies/libraries/SdFat/SdFile.cpp:1142-1145`).
- FatFile.SdFile.OpenRoot: fails on a FAT12 volume. `FAT12_SUPPORT` is 0 in this build, so the FAT12 branch of line 828 is never taken. `SdFat.h`, which defines it, is not part of this model.
- FatFile.SdFile.OpenRoot, FatFile.SdFile.ReadDir and DLSD.ReadUntil: each models the evidently intended behaviour, not the code as written. The code as written is modelled beside each one by `FatFile.OpenRootAsWritten`, `FatFile.SdFile.ReadDirAsWritten` and `DLSD.ReadUntilAsWritten`; see "## Findings".
- FatFile.SdFile.RmRfStar: a `fuel` parameter bounds the depth of the recursion, and the call fails when the fuel runs out. The C++ recursion is bounded only by the stack.
- FatFile.SdFile.RmRfStar: does not promise that the directory's contents are gone. Its contract gives the failure cases and, on success, a closed handle and a vacant entry. That every file and subdirectory below it was freed is not stated. Each removal it makes is specified on its own, by `FatFile.ForceRemove` and `FatFile.SdFile.Rmdir`.
- FatFile.SdFile.RmRfStar: fails should the cursor move back a second time. After a removal at slot 2047 or beyond, the 16-bit seek at `dependencies/libraries/SdFat/SdFile.cpp:1242` sends the cursor back near the start, and the loop runs on from there. The source cannot move back twice: a second move would need another removal at slot 2047 or beyond, but slot 2047 is then deleted, and a removal past it opens slot index mod 2048, which is already passed, so the open fails. The model does not prove this, and stops instead, to bound its loop.
- FatFile.SdFile.Write: the bytes are promised to land only when the chain is well formed and covers the size (`WellShaped`) and the write does not wrap the 32-bit cursor. They must also lie on pairwise different blocks. Under O_SYNC they must not lie on the entry's own block. Otherwise only cursor, size, flags and the untouched blocks are stated.
- FatFile.SdFile.Read: the bytes in dst are promised only when the cursor agrees with the chain (`Positioned`). The count, the cursor and the failure cases hold always.
- FatVolume.Volume.AllocContiguous: the volume layer is not part of this model. Its methods are this model's own choices, specified by their contracts. The allocator is first fit from cluster 2.
- FatVolume.Volume.FreeChain: `FreeChain(0)` succeeds and changes nothing.
- FatVolume.Volume: the allocation table is kept apart from the block cache, and no FAT block passes through the cache. The date and time source is a constant of the volume rather than a callback: `None` when no callback is set.
- DirEntry: `DEFAULT_DATE` 0x2821 and `DEFAULT_TIME` 0x0800 are assumed for the stamps of a new entry when no callback is set; the header that defines them is not part of this model.
- DLSD: `NUM_FILES` (5) and the name buffer size (13) are assumed. The header that defines them is not part of this model.
- DLSD.FormatCount: the call `fmtUnsigned(c, nums, 10)` at line 118 omits the width. The model passes 0, assumed to be the header's default for that argument.
- DLSD.ReadUntil: reads from the remaining bytes of the open file, passed in as `rest`. It does not return the bytes left unread, and it does not model a read() I/O error, which the C++ also reports as a negative value.
- The global `cwd_` is a parameter (`cwd: Option<uint32>`, the first cluster of the working directory). The `dateTime_` callback is the volume's `dateTime`.
- The open flags are a record of booleans (`OpenFlags`). The bit values of `O_READ`, `O_WRITE` and the others live in `SdFat.h`, which is not part of this model.
- FatVolume.Volume.ReadBlock: a block read or write succeeds exactly when the block number is on the device. Card errors, timeouts and retries are not modelled.
- Not modelled from `SdFile.cpp`:
  - printing: `ls`, `printDirName`, `printFatDate`, `printFatTime`, `printTwoDigits`, `printName`;
  - `makeDir`, and opening by a path with several components;
  - `timestamp`, `dirEntry`, `exists`, `getFilename`, `peek`, `getpos`/`setpos`;
  - the `write(uint8_t)`, `write(const char*)` and `write_P` overloads, and the `SdFile(path)` constructor.

  These are outside the core modelled here.
- Not modelled from `DLCommon.cpp`: `fmtDouble` (floating point) and the hardware helpers (band gap, free memory, watchdog reboot, clock display, flash reads).
- Not modelled from `DLSD.cpp`: `init`, `error`, `close`, the `write` overloads, `copy`, `seek_forward_files_count`, `get_num_files`, the `read(n, ptr, len)` form, and the card calls in `open`. These are card I/O and printing. `open` is modelled only as far as the name it composes (`DLSD.Logger.ComposeName`).

## Findings

| source | as written | input that shows it | evidently intended | confidence | as-written member | corrected member |
|---|---|---|---|---|---|---|
| dependencies/libraries/SdFat/SdFile.cpp:832-835 | openRoot on FAT32 sets `type_` and `firstCluster_` before `chainSize`; when chainSize fails it returns false but leaves the handle open as a FAT32 root | a closed handle on a FAT32 volume whose root chain is broken: openRoot returns false, isOpen() is then true, and every later openRoot fails | a failed openRoot leaves the handle closed | not executed | FatFile.OpenRootAsWritten, FatFile.OpenRootFailureLeavesHandleOpen | FatFile.SdFile.OpenRoot |
| dependencies/libraries/SdFat/SdFile.cpp:1048-1058 | readDir breaks out of its loop at a never-used entry with n == 32, and then `n != 0` sends it to fail: -1 | a directory whose next entry is never used (name[0] == 0): readDir returns -1, an error, at the normal end of the listing | 0, "past last entry", as the comment at line 1056 says | not executed | FatFile.SdFile.ReadDirAsWritten, DirScan.ReadDirFreeSlotIsError | FatFile.SdFile.ReadDir, DirScan.ReadDirResultsAgree |
| dtudataloggerv3_0/DLSD/DLSD.cpp:211-216 | the byte read is first stored in a `char`, so the end-of-file test `ptr[c] < 0` is made on the stored char; on a signed-char target every byte of 0x80 or more looks like end of file | the file [0xB0, 0x0A] with t = '\n' and len 4: returns -1 with ptr = "" | keep the int from read(), test it for -1, and return 0 with ptr = "\xB0" | not executed | DLSD.ReadUntilAsWritten, DLSD.HighByteLooksLikeEndOfFile | DLSD.ReadUntil, DLSD.EndOnlyAtEndOfFile, DLSD.TerminatorFound |
