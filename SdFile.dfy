/**
 * SdFile: a handle on a file or directory of a FAT16/FAT32 volume. The
 * handle keeps its type, its access flags, its first cluster, its size, the
 * location of its directory entry, and a cursor (byte position and the
 * cluster holding it); all data passes through the volume's block cache.
 */
module FatFile {
  import opened Bytes
  import opened Fat
  import opened FatVolume
  import opened DirEntry
  import ShortName
  import opened DirScan

  /** type_: FAT_FILE_TYPE_CLOSED, _NORMAL, _ROOT_FIXED, _ROOT32 and _SUBDIR. */
  datatype FileType = Closed | Normal | RootFixed | Root32 | Subdir

  /** The oflag bits a caller passes to open: O_READ, O_WRITE, O_APPEND, O_SYNC, O_CREAT, O_EXCL, O_TRUNC. */
  datatype OpenFlags = OpenFlags(read: bool, write: bool, append: bool, sync: bool, creat: bool, excl: bool, trunc: bool)

  /** flags_: the access bits kept from oflag (F_OFLAG) and F_FILE_DIR_DIRTY. */
  datatype Flags = Flags(read: bool, write: bool, append: bool, sync: bool, dirDirty: bool)

  const READ_ONLY: Flags := Flags(true, false, false, false, false)

  /** Opening entry e with oflag is refused: writing or truncating a read-only entry or a directory. */
  predicate Refused(e: Entry, oflag: OpenFlags) {
    RefusesWrite(e) && (oflag.write || oflag.trunc)
  }

  /** A listed file entry that oflag may open: opening it does not fail before the truncation. */
  predicate Admits(e: Entry, oflag: OpenFlags) {
    Listed(e) && DirEntry.IsFile(e) && !Refused(e, oflag)
  }

  /**
   * An existing file entry that open by name opens with oflag: one it may
   * open, and with O_TRUNC a writable empty one, whose truncation has
   * nothing to do.
   */
  predicate Reopens(e: Entry, oflag: OpenFlags) {
    DirEntry.IsFile(e) && !Refused(e, oflag) && (oflag.trunc ==> oflag.write && e.fileSize == 0)
  }

  /** flags_ = oflag & F_OFLAG. */
  function Kept(oflag: OpenFlags): (f: Flags)
    ensures !f.dirDirty
    ensures f.read == oflag.read && f.write == oflag.write && f.append == oflag.append && f.sync == oflag.sync
  {
    Flags(oflag.read, oflag.write, oflag.append, oflag.sync, false)
  }

  /** The fields of a handle other than its cursor. */
  datatype Handle = Handle(
    vol: Volume, ftype: FileType, flags: Flags, firstCluster: uint32,
    fileSize: uint32, dirBlock: uint32, dirIndex: nat, writeError: bool)

  /** Where a file's bytes live: the volume geometry and table, and the file's first cluster (or the fixed root area). */
  datatype Layout = Layout(g: Geometry, fat: seq<uint32>, rootFixed: bool, first: uint32)

  /**
   * The device block holding byte p of the file: for a FAT16 root,
   * rootDirStart + p / 512; otherwise block blockOfCluster(p) of the cluster
   * reached after p / clusterBytes links from the first cluster. Block
   * numbers are 32-bit and wrap around. None when the chain leaves the table.
   */
  function BlockAt(m: Layout, p: nat): Option<uint32>
  {
    if m.rootFixed then Some(((m.g.rootDirStart as nat + p / BLOCK_SIZE) % UINT32_LIMIT) as uint32)
    else match Walk(m.fat, m.first, ClusterIndex(m.g, p)) {
      case None => None
      case Some(c) => Some(((ClusterStartBlock(m.g, c) as nat + BlockOfCluster(m.g, p)) % UINT32_LIMIT) as uint32)
    }
  }

  /** Byte p of the file is on a block of a device with nblocks blocks. */
  predicate OnDevice(m: Layout, nblocks: nat, p: nat) {
    BlockAt(m, p).Some? && BlockAt(m, p).value < nblocks
  }

  /** Every byte p .. p+n-1 of the file is on the device. */
  ghost predicate Resolves(m: Layout, nblocks: nat, p: nat, n: nat) {
    forall q :: p <= q < p + n ==> OnDevice(m, nblocks, q)
  }

  /**
   * Byte i of bytes is the file's byte at position p + i of disk: that
   * position has a block, and where the block is on the device it stores the
   * byte there.
   */
  ghost predicate HoldsAt(m: Layout, disk: seq<seq<byte>>, p: nat, bytes: seq<byte>, i: nat)
    requires i < |bytes|
  {
    var q := p + i;
    BlockAt(m, q).Some? &&
    (BlockAt(m, q).value < |disk| ==>
       |disk[BlockAt(m, q).value]| == BLOCK_SIZE && bytes[i] == disk[BlockAt(m, q).value][q % BLOCK_SIZE])
  }

  /** The file holds bytes from position p of disk on. */
  ghost predicate Holds(m: Layout, disk: seq<seq<byte>>, p: nat, bytes: seq<byte>) {
    forall i :: 0 <= i < |bytes| ==> HoldsAt(m, disk, p, bytes, i)
  }

  /** Positions in the same 512-byte block are in the same cluster and the same device block. */
  lemma SameBlock(m: Layout, p: nat, q: nat)
    requires p / BLOCK_SIZE == q / BLOCK_SIZE
    ensures BlockAt(m, p) == BlockAt(m, q)
    ensures ClusterIndex(m.g, p) == ClusterIndex(m.g, q)
  {
  }

  /** Moving forward from p by less than what is left of its block. */
  lemma InBlock(p: nat, d: nat)
    requires p % BLOCK_SIZE + d < BLOCK_SIZE
    ensures (p + d) / BLOCK_SIZE == p / BLOCK_SIZE && (p + d) % BLOCK_SIZE == p % BLOCK_SIZE + d
  {
    DivUnique(p + d, BLOCK_SIZE, p / BLOCK_SIZE, p % BLOCK_SIZE + d);
  }

  /** A prefix of s held from p, followed by n more bytes of s held where it ends, is a longer prefix held from p. */
  lemma HoldsGrow(m: Layout, disk: seq<seq<byte>>, p: nat, s: seq<byte>, at: nat, n: nat)
    requires at + n <= |s| && Holds(m, disk, p, s[..at]) && Holds(m, disk, p + at, s[at..at + n])
    ensures Holds(m, disk, p, s[..at + n])
  {
    HoldsAppend(m, disk, p, s[..at], s[at..at + n]);
    assert s[..at + n] == s[..at] + s[at..at + n];
  }

  /** The file holds a + b from p exactly when it holds a from p and b after it. */
  lemma HoldsAppend(m: Layout, disk: seq<seq<byte>>, p: nat, a: seq<byte>, b: seq<byte>)
    ensures Holds(m, disk, p, a + b) <==> Holds(m, disk, p, a) && Holds(m, disk, p + |a|, b)
  {
    if Holds(m, disk, p, a) && Holds(m, disk, p + |a|, b) {
      forall i | 0 <= i < |a + b|
        ensures HoldsAt(m, disk, p, a + b, i)
      {
        if i < |a| {
          assert HoldsAt(m, disk, p, a, i);
        } else {
          var q := p + |a|;
          assert HoldsAt(m, disk, q, b, i - |a|);
        }
      }
    }
    if Holds(m, disk, p, a + b) {
      forall i | 0 <= i < |a|
        ensures HoldsAt(m, disk, p, a, i)
      {
        assert HoldsAt(m, disk, p, a + b, i);
      }
      var q := p + |a|;
      forall i | 0 <= i < |b|
        ensures HoldsAt(m, disk, q, b, i)
      {
        assert HoldsAt(m, disk, p, a + b, |a| + i);
      }
    }
  }

  /**
   * Bytes copied from one device block, starting at the offset of position p
   * in the block that holds p, are held by the file from p.
   */
  lemma HoldsBlock(m: Layout, disk: seq<seq<byte>>, p: nat, chunk: seq<byte>, block: uint32)
    requires BlockAt(m, p) == Some(block) && p % BLOCK_SIZE + |chunk| <= BLOCK_SIZE
    requires block < |disk| ==>
      (|disk[block]| == BLOCK_SIZE && chunk == disk[block][p % BLOCK_SIZE .. p % BLOCK_SIZE + |chunk|])
    ensures Holds(m, disk, p, chunk)
  {
    forall i | 0 <= i < |chunk|
      ensures HoldsAt(m, disk, p, chunk, i)
    {
      InBlock(p, i);
      SameBlock(m, p, p + i);
    }
  }

  /**
   * A cursor (position pos, cluster cur) is consistent with layout m: at
   * position 0 no cluster is current, elsewhere cur holds byte pos - 1. A
   * fixed root directory has no clusters.
   */
  ghost predicate Cursor(m: Layout, pos: nat, cur: uint32) {
    m.rootFixed ||
    if pos == 0 then cur == 0 else Walk(m.fat, m.first, ClusterIndex(m.g, pos - 1)) == Some(cur)
  }

  /** cur is the cluster holding byte pos: the cursor has moved onto it. */
  ghost predicate OnCluster(m: Layout, pos: nat, cur: uint32) {
    m.rootFixed || Walk(m.fat, m.first, ClusterIndex(m.g, pos)) == Some(cur)
  }

  class SdFile {
    var vol: Volume
    var ftype: FileType
    var flags: Flags
    var firstCluster: uint32
    /** curCluster_: the cluster holding byte curPosition - 1 (0 at position 0). */
    var curCluster: uint32
    var curPosition: uint32
    var fileSize: uint32
    /** dirBlock_ and dirIndex_: where the directory entry of the file is (entry dirIndex of block dirBlock). */
    var dirBlock: uint32
    var dirIndex: nat
    var writeError: bool

    predicate IsOpen() reads this { ftype != Closed }
    predicate IsFile() reads this { ftype == Normal }
    predicate IsDir() reads this { ftype == RootFixed || ftype == Root32 || ftype == Subdir }
    predicate IsSubDir() reads this { ftype == Subdir }
    predicate IsRoot() reads this { ftype == RootFixed || ftype == Root32 }

    ghost predicate Valid()
      reads this, vol
    {
      && vol.Valid()
      && dirIndex < ENTRIES_PER_BLOCK
      && curPosition <= fileSize
      && (IsDir() ==> fileSize as nat % ENTRY_SIZE == 0)
    }

    function Meta(): Handle
      reads this`vol, this`ftype, this`flags, this`firstCluster, this`fileSize, this`dirBlock, this`dirIndex,
            this`writeError
    {
      Handle(vol, ftype, flags, firstCluster, fileSize, dirBlock, dirIndex, writeError)
    }

    ghost function Map(): Layout
      reads this`vol, this`ftype, this`firstCluster, vol`fat
    {
      Layout(vol.geo, vol.fat, ftype == RootFixed, firstCluster)
    }

    /** The cursor is consistent with the file's layout. */
    ghost predicate Positioned()
      reads this, vol
    {
      Cursor(Map(), curPosition as nat, curCluster)
    }

    constructor (vol: Volume)
      ensures this.vol == vol && ftype == Closed && !writeError
      ensures dirIndex == 0 && curPosition == 0 && fileSize == 0
    {
      this.vol := vol;
      ftype := Closed;
      flags := READ_ONLY;
      firstCluster, curCluster, curPosition, fileSize := 0, 0, 0, 0;
      dirBlock, dirIndex := 0, 0;
      writeError := false;
    }

    // ------------------------------------------------------------- position

    /** rewind: back to position 0. */
    method Rewind()
      requires Valid()
      modifies this`curPosition, this`curCluster
      ensures Valid() && Positioned()
      ensures curPosition == 0
    {
      curPosition, curCluster := 0, 0;
    }

    /**
     * seekSet: moves the cursor to pos, following the chain from the current
     * cluster when pos is not before it, else from the first cluster.
     */
    method SeekSet(pos: uint32) returns (ok: bool)
      requires Valid()
      modifies this`curPosition, this`curCluster
      ensures Valid()
      ensures !old(IsOpen()) || pos > fileSize ==> !ok
      ensures ok ==> curPosition == pos
      ensures !ok ==> curPosition == old(curPosition)
      ensures ok && old(Positioned()) ==> Positioned()
      ensures ok && pos == 0 && ftype != RootFixed ==> curCluster == 0
      ensures (old(IsOpen() && Positioned()) && pos <= fileSize &&
               (ftype == RootFixed || pos == 0 || Walk(vol.fat, firstCluster, ClusterIndex(vol.geo, pos as nat - 1)).Some?)) ==> ok
    {
      if !IsOpen() || pos > fileSize {
        return false;
      }
      if ftype == RootFixed {
        curPosition := pos;
        return true;
      }
      if pos == 0 {
        curCluster, curPosition := 0, 0;
        return true;
      }
      var nNew: nat := ClusterIndex(vol.geo, pos as nat - 1);
      ghost var target := nNew;
      ghost var done: nat;
      ghost var fromFirst: bool;
      if curPosition == 0 || nNew < ClusterIndex(vol.geo, curPosition as nat - 1) {
        curCluster := firstCluster;
        done, fromFirst := 0, true;
      } else {
        var nCur: nat := ClusterIndex(vol.geo, curPosition as nat - 1);
        nNew := nNew - nCur;
        done, fromFirst := nCur, false;
      }
      ghost var pos0 := old(Positioned());
      while nNew > 0
        invariant done + nNew == target && curPosition == old(curPosition)
        invariant pos0 || fromFirst ==> Walk(vol.fat, firstCluster, done) == Some(curCluster)
      {
        var got, next := vol.FatGet(curCluster);
        if !got {
          if pos0 || fromFirst {
            WalkOff(vol.fat, firstCluster, done, nNew);
          }
          return false;
        }
        WalkNext(vol.fat, firstCluster, done);
        curCluster := next;
        done, nNew := done + 1, nNew - 1;
      }
      curPosition := pos;
      ok := true;
    }

    // ---------------------------------------------------------------- read

    /**
     * read(buf, nbyte): copies up to nbyte bytes from the cursor into dst,
     * stopping at the end of the file, and advances the cursor. The count
     * is returned as an int16_t, so a count of 32768 or more comes back
     * negative. -1 on failure, leaving the cursor after the bytes copied so
     * far. The ghost done says whether the read succeeded; count is what
     * it copies then.
     */
    method Read(dst: array<byte>, nbyte: uint16) returns (r: int, ghost done: bool, ghost count: nat)
      requires Valid() && nbyte as nat <= dst.Length
      modifies this`curPosition, this`curCluster, vol, dst
      ensures Valid() && Meta() == old(Meta())
      ensures Map() == old(Map()) && vol.Disk() == old(vol.Disk())
      ensures old(vol.Flushable()) ==> vol.Flushable()
      ensures count == Min(nbyte as nat, old(fileSize - curPosition) as nat) <= nbyte as nat
      ensures !old(IsOpen() && flags.read) ==> !done
      ensures r == if done then AsInt16(count as uint16) else -1
      ensures done ==> curPosition as nat == old(curPosition) as nat + count
      ensures done && old(Positioned()) ==> Positioned() && Holds(Map(), vol.Disk(), old(curPosition) as nat, dst[..count])
      ensures done && 0 < count < BLOCK_SIZE && old(Positioned()) ==>
        BlockAt(Map(), old(curPosition) as nat + count - 1) == Some(vol.cacheBlock)
      ensures done ==> forall i :: count <= i < dst.Length ==> dst[i] == old(dst[i])
      ensures old(IsOpen() && flags.read && Positioned() && vol.Flushable()
                  && Resolves(Map(), |vol.blocks|, curPosition as nat, Min(nbyte as nat, (fileSize - curPosition) as nat)))
              ==> done
    {
      count := Min(nbyte as nat, (fileSize - curPosition) as nat);
      if !IsOpen() || !flags.read {
        return -1, false, count;
      }
      var n: uint32 := if nbyte as uint32 >= fileSize - curPosition then fileSize - curPosition else nbyte as uint32;
      var ok, pos, cur := ReadBytes(vol, dst, n, ftype == RootFixed, firstCluster, curPosition, curCluster,
                                    Map(), vol.Disk(), Positioned());
      curPosition, curCluster := pos, cur;
      done := ok;
      r := if ok then AsInt16(n as uint16) else -1;
    }

    /** The byte at the cursor can be read: the handle is open for reading, the cursor is consistent and the byte is on the device. */
    ghost predicate ByteReadable()
      reads this, vol
    {
      IsOpen() && flags.read && Positioned() && vol.Flushable() && curPosition < fileSize &&
      OnDevice(Map(), |vol.blocks|, curPosition as nat)
    }

    /**
     * read(): the byte at the cursor, read through the cache, with the
     * cursor moved past it; -1 at the end of the file or on failure.
     */
    method ReadByte() returns (r: int)
      requires Valid()
      modifies this`curPosition, this`curCluster, vol
      ensures Valid() && Meta() == old(Meta()) && Map() == old(Map()) && vol.Disk() == old(vol.Disk())
      ensures old(vol.Flushable()) ==> vol.Flushable()
      ensures -1 <= r < 0x100
      ensures !old(IsOpen() && flags.read) || old(curPosition) == fileSize ==> r == -1
      ensures r >= 0 ==> old(curPosition) < fileSize && curPosition as nat == old(curPosition) as nat + 1
      ensures r >= 0 && old(Positioned()) ==>
        Positioned() && BlockAt(Map(), old(curPosition) as nat) == Some(vol.cacheBlock)
        && Holds(Map(), vol.Disk(), old(curPosition) as nat, [r as byte])
      ensures old(ByteReadable()) ==> r >= 0
    {
      ghost var m, p := Map(), curPosition as nat;
      assert OnDevice(m, |vol.blocks|, p) ==> Resolves(m, |vol.blocks|, p, 1);
      var b := new byte[1];
      var n;
      ghost var done, count;
      n, done, count := Read(b, 1);
      r := if n == 1 then b[0] as int else -1;
      assert n == 1 ==> b[..n] == [r as byte];
    }

    // ------------------------------------------------------- directory entries

    /** The entry at the cursor of this directory can be read: the cursor is consistent and its block is on the device. */
    ghost predicate EntryReadable()
      reads this, vol
    {
      IsDir() && ByteReadable()
    }

    /**
     * readDirCache: reads the directory entry at the cursor into the cache
     * (through read of one byte) and moves the cursor past it; index is the
     * entry's slot in the cached block, (curPosition >> 5) & 0xF.
     */
    method ReadDirCache() returns (ok: bool, index: nat)
      requires Valid() && curPosition as nat % ENTRY_SIZE == 0
      modifies this`curPosition, this`curCluster, vol
      ensures Valid() && Meta() == old(Meta()) && Map() == old(Map()) && vol.Disk() == old(vol.Disk())
      ensures vol.fat == old(vol.fat) && |vol.blocks| == |old(vol.blocks)|
      ensures old(vol.Flushable()) ==> vol.Flushable()
      ensures index == (old(curPosition) as nat / ENTRY_SIZE) % ENTRIES_PER_BLOCK
      ensures !old(IsDir()) ==> !ok
      ensures ok ==> old(curPosition) < fileSize && curPosition as nat == old(curPosition) as nat + ENTRY_SIZE
      ensures ok && old(Positioned()) ==> Positioned() && BlockAt(Map(), old(curPosition) as nat) == Some(vol.cacheBlock)
      ensures old(EntryReadable()) ==> ok
    {
      index := (curPosition as nat / ENTRY_SIZE) % ENTRIES_PER_BLOCK;
      if !IsDir() {
        return false, index;
      }
      ghost var p := curPosition as nat;
      ghost var before := Positioned();
      ghost var m := Map();
      var c := ReadByte();
      if c < 0 {
        return false, index;
      }
      EntryInBlock(p);
      NextEntryFits(p, fileSize as nat);
      if before {
        SameBlock(m, p, p + ENTRY_SIZE - 1);
      }
      curPosition := curPosition + 31;
      ok := true;
    }

    /** cacheDirEntry: brings the block holding the file's directory entry into the cache, dirty when forWrite. */
    method CacheDirEntry(forWrite: bool) returns (ok: bool)
      requires Valid()
      modifies vol
      ensures Valid() && vol.Disk() == old(vol.Disk()) && vol.fat == old(vol.fat)
      ensures ok <==> dirBlock == old(vol.cacheBlock) || (old(vol.Flushable()) && dirBlock < |vol.blocks|)
      ensures ok ==> vol.cacheBlock == dirBlock && (dirBlock < |vol.blocks| ==> vol.cacheData == vol.Disk()[dirBlock])
      ensures ok && forWrite ==> vol.cacheDirty
      ensures !forWrite && old(vol.Flushable()) ==> vol.Flushable()
    {
      ok := vol.CacheRawBlock(dirBlock, forWrite);
    }

    /**
     * sync: when the directory entry is out of date, rewrites it in the
     * cache (size unless a directory, both first-cluster halves, and the
     * write and access stamp when a date/time source is set), then writes
     * the cache back. Failing before the write-back sets writeError.
     */
    method Sync() returns (ok: bool)
      requires Valid()
      modifies this`flags, this`writeError, vol
      ensures Valid() && vol.fat == old(vol.fat)
      ensures !old(IsOpen()) ==> !ok && writeError
      ensures ok ==> flags == old(flags).(dirDirty := false) && writeError == old(writeError) && !vol.cacheDirty
      ensures ok && !old(flags.dirDirty) ==> vol.Disk() == old(vol.Disk())
      ensures |vol.blocks| == |old(vol.blocks)|
      ensures ok && old(flags.dirDirty) ==>
        dirBlock < |old(vol.blocks)| && EntryAt(old(vol.Disk())[dirBlock], dirIndex).name[0] != NAME_DELETED &&
        vol.Disk() == SyncedDisk(old(vol.Disk()), dirBlock, dirIndex, IsDir(), fileSize, firstCluster, vol.dateTime)
      ensures (old(IsOpen() && flags.dirDirty) && dirBlock < |old(vol.blocks)| &&
               EntryAt(old(vol.Disk())[dirBlock], dirIndex).name[0] == NAME_DELETED) ==> !ok && writeError
      ensures old(IsOpen() && vol.Flushable()) && !old(flags.dirDirty) ==> ok
      ensures (old(IsOpen() && vol.Flushable() && flags.dirDirty) && dirBlock < |old(vol.blocks)| &&
               EntryAt(old(vol.Disk())[dirBlock], dirIndex).name[0] != NAME_DELETED) ==> ok
    {
      if !IsOpen() {
        writeError := true;
        return false;
      }
      if flags.dirDirty {
        var rewritten := RewriteEntry(vol, dirBlock, dirIndex, IsDir(), fileSize, firstCluster);
        if !rewritten {
          writeError := true;
          return false;
        }
        flags := flags.(dirDirty := false);
      }
      ok := vol.CacheFlush();
    }

    /** close: syncs, and marks the handle closed when that succeeds. */
    method Close() returns (ok: bool)
      requires Valid()
      modifies this`flags, this`writeError, this`ftype, vol
      ensures Valid() && vol.fat == old(vol.fat)
      ensures !old(IsOpen()) ==> !ok
      ensures ok ==> ftype == Closed && flags == old(flags).(dirDirty := false) && !vol.cacheDirty
      ensures !ok ==> ftype == old(ftype)
      ensures ok && !old(flags.dirDirty) ==> vol.Disk() == old(vol.Disk())
      ensures old(IsOpen() && vol.Flushable()) && !old(flags.dirDirty) ==> ok
    {
      ok := Sync();
      if ok {
        ftype := Closed;
      }
    }

    // ------------------------------------------------------ directory search

    /** Every entry of this directory can be read in turn: it is open for reading and all its blocks are on the device. */
    ghost predicate Searchable()
      reads this, vol
    {
      IsDir() && flags.read && vol.Flushable() && Resolves(Map(), |vol.blocks|, 0, fileSize as nat)
    }

    /** The entries of this directory, slot by slot, as the device holds them. */
    ghost function Slots(): (s: seq<Entry>)
      reads this, vol
      requires vol.Valid()
      ensures |s| == fileSize as nat / ENTRY_SIZE
    {
      SlotsUpTo(Map(), vol.Disk(), fileSize as nat / ENTRY_SIZE)
    }

    /**
     * The search loop of open by name, run on this directory from its
     * start: reads entries until a never-used one ends the directory or a
     * live entry carries name, and remembers where the first vacant slot
     * is (its block and its index in the block). When found, the entry's
     * block is left in the cache and index is its slot there.
     */
    method SearchDir(name: seq<byte>)
      returns (ok: bool, found: bool, index: nat, vacant: bool, vacantBlock: uint32, vacantIndex: nat)
      requires Valid() && curPosition == 0 && Positioned()
      modifies this`curPosition, this`curCluster, vol
      ensures Valid() && Meta() == old(Meta()) && Map() == old(Map()) && vol.Disk() == old(vol.Disk())
      ensures index < ENTRIES_PER_BLOCK && vacantIndex < ENTRIES_PER_BLOCK
      ensures old(Searchable()) ==> ok && vol.Flushable()
      ensures old(Searchable()) ==>
        var slots := old(Slots());
        var s := Scan(slots, name);
        && found == s.found.Some? && vacant == s.vacant.Some?
        && (found ==> index == s.found.value % ENTRIES_PER_BLOCK && vol.cacheBlock < |vol.blocks|
                      && BlockAt(old(Map()), ENTRY_SIZE * s.found.value) == Some(vol.cacheBlock)
                      && s.found.value < |slots|)
        && (vacant ==> vacantIndex == s.vacant.value % ENTRIES_PER_BLOCK
                       && BlockAt(old(Map()), ENTRY_SIZE * s.vacant.value) == Some(vacantBlock))
    {
      ghost var slots := Slots();
      ghost var good := Searchable();
      ghost var k: nat := 0;
      ghost var v: Option<nat> := None;
      found, index, vacant, vacantBlock, vacantIndex := false, 0, false, 0, 0;
      ok := true;
      while curPosition < fileSize
        invariant Valid() && Meta() == old(Meta()) && Map() == old(Map()) && vol.Disk() == old(vol.Disk())
        invariant curPosition as nat == ENTRY_SIZE * k && Positioned() && vacantIndex < ENTRIES_PER_BLOCK
        invariant vacant == v.Some?
        invariant good ==> vol.Flushable()
        invariant Resumes(slots, name, k, v, good)
        invariant good && vacant ==>
          vacantIndex == v.value % ENTRIES_PER_BLOCK && BlockAt(Map(), ENTRY_SIZE * v.value) == Some(vacantBlock)
        decreases fileSize - curPosition
      {
        var i, e;
        if good {
          SlotBound(k, fileSize as nat);
        }
        ok, i, e := SearchStep(slots, k, good);
        if !ok {
          return;
        }
        ghost var v0 := v;
        if e.name[0] == NAME_FREE || e.name[0] == NAME_DELETED {
          if !vacant {
            vacantBlock, vacantIndex, vacant, v := vol.cacheBlock, i, true, Some(k);
          }
          if e.name[0] == NAME_FREE {
            if good {
              ScanFromStep(slots, name, k, v0);
            }
            break;
          }
        } else if e.name == name {
          found, index := true, i;
          if good {
            ScanFromStep(slots, name, k, v0);
          }
          break;
        }
        k := ResumeNext(slots, name, k, v0, v, good);
      }
    }

    /** One read of the search loop: the entry in slot k, which the cursor is at, comes into the cache. */
    method SearchStep(ghost slots: seq<Entry>, ghost k: nat, ghost good: bool) returns (ok: bool, i: nat, e: Entry)
      requires Valid() && curPosition as nat == ENTRY_SIZE * k
      requires good ==> Positioned() && Searchable() && slots == Slots() && k < |slots|
      modifies this`curPosition, this`curCluster, vol
      ensures Valid() && Meta() == old(Meta()) && Map() == old(Map()) && vol.Disk() == old(vol.Disk())
      ensures old(vol.Flushable()) ==> vol.Flushable()
      ensures i == k % ENTRIES_PER_BLOCK && WellFormed(e) && e == EntryAt(vol.cacheData, i)
      ensures ok ==> curPosition as nat == ENTRY_SIZE * (k + 1) && old(curPosition) < fileSize
      ensures ok && old(Positioned()) ==> Positioned()
      ensures good ==> ok && k < |slots| && e == slots[k] && vol.cacheBlock < |vol.blocks|
                       && BlockAt(Map(), ENTRY_SIZE * k) == Some(vol.cacheBlock)
    {
      EntryPosition(k);
      if good {
        assert OnDevice(Map(), |vol.blocks|, ENTRY_SIZE * k);
      }
      ok, i := ReadDirCache();
      e := EntryAt(vol.cacheData, i);
      if good {
        SlotsIndex(Map(), vol.Disk(), fileSize as nat / ENTRY_SIZE, k);
      }
    }

    /**
     * seekSet(32 * k), with the product in 16 bits: the cursor moves to
     * slot k mod 2048 of this directory.
     */
    method SeekSlot(k: uint16) returns (ok: bool)
      requires Valid()
      modifies this`curPosition, this`curCluster
      ensures Valid()
      ensures ok ==> curPosition as nat == ENTRY_SIZE * (k as nat % SLOT_WRAP)
      ensures ok && old(Positioned()) ==> Positioned()
      ensures old(Searchable() && Positioned()) && k as nat % SLOT_WRAP < |old(Slots())| ==> ok
    {
      var p := EntryBytes(k as nat);
      if Searchable() && Positioned() && 0 < k as nat % SLOT_WRAP < |Slots()| {
        assert OnDevice(Map(), |vol.blocks|, p - 1);
      }
      ok := SeekSet(p as uint32);
    }

    /**
     * The read step of open by index, on this directory: seeks to byte
     * 32 * k, taken in 16 bits, and reads the entry there into the cache,
     * as slot i of the cached block. The slot read is k mod 2048.
     */
    method ReadSlot(k: uint16) returns (ok: bool, i: nat, e: Entry)
      requires Valid()
      modifies this`curPosition, this`curCluster, vol
      ensures Valid() && Meta() == old(Meta()) && Map() == old(Map()) && vol.Disk() == old(vol.Disk())
      ensures i == k as nat % ENTRIES_PER_BLOCK && WellFormed(e) && e == EntryAt(vol.cacheData, i)
      ensures old(Searchable() && Positioned()) ==>
        var slots, w := old(Slots()), k as nat % SLOT_WRAP;
        && (ok <==> w < |slots|)
        && (ok ==> e == slots[w] && BlockAt(Map(), ENTRY_SIZE * w) == Some(vol.cacheBlock))
    {
      ghost var good := Searchable() && Positioned();
      ghost var slots := Slots();
      var w := k as nat % SLOT_WRAP;
      EntryPosition(w);
      WrapIndex(k as nat);
      var sought := SeekSlot(k);
      if !sought {
        return false, k as nat % ENTRIES_PER_BLOCK, EntryAt(vol.cacheData, k as nat % ENTRIES_PER_BLOCK);
      }
      if good && ENTRY_SIZE * w < fileSize as nat {
        SlotBound(w, fileSize as nat);
      }
      ok, i, e := SearchStep(slots, w, good && w < |slots|);
      if ok && good {
        SlotBound(w, fileSize as nat);
      }
    }

    // ------------------------------------------------------------ opening

    /**
     * openRoot: opens the root directory of volume v for reading, the fixed
     * root area of a FAT16 volume (its size is 32 * rootDirEntryCount, taken
     * in 16 bits as the source computes it) or the cluster chain of a FAT32
     * root (its size is what chainSize reports). Fails when the handle is
     * open, on any other FAT type, and when chainSize fails; a failure
     * leaves the handle as it was.
     */
    method OpenRoot(v: Volume) returns (ok: bool, ghost links: nat)
      requires Valid() && v.Valid()
      modifies this`vol, this`ftype, this`firstCluster, this`fileSize, this`flags, this`curCluster, this`curPosition,
               this`dirBlock, this`dirIndex
      ensures Valid()
      ensures old(IsOpen()) || (v.geo.fatType != 16 && v.geo.fatType != 32) ==> !ok
      ensures !old(IsOpen()) && v.geo.fatType == 16 ==> ok
      ensures !ok ==> Meta() == old(Meta()) && curPosition == old(curPosition) && curCluster == old(curCluster)
      ensures ok ==> vol == v && IsRoot() && flags == READ_ONLY && curPosition == 0 && curCluster == 0
                     && dirBlock == 0 && dirIndex == 0 && Positioned()
      ensures ok && v.geo.fatType == 16 ==>
        ftype == RootFixed && firstCluster == 0 && fileSize as nat == EntryBytes(v.geo.rootDirEntryCount as nat)
      ensures ok && v.geo.fatType == 32 ==>
        ftype == Root32 && firstCluster == v.geo.rootDirStart
        && ChainLinks(v.geo, v.fat, firstCluster, links) && fileSize as nat == ChainBytes(v.geo, links)
    {
      links := 0;
      if IsOpen() {
        return false, links;
      }
      var t, first, size;
      if v.geo.fatType == 16 {
        t, first, size := RootFixed, 0, EntryBytes(v.geo.rootDirEntryCount as nat) as uint32;
      } else if v.geo.fatType == 32 {
        var got;
        got, size, links := v.ChainSize(v.geo.rootDirStart);
        if !got {
          return false, links;
        }
        t, first := Root32, v.geo.rootDirStart;
      } else {
        return false, links;
      }
      OpenAsRoot(this, v, t, first, size);
      ok := true;
    }

    /**
     * The handle is open on directory entry e, found in slot index of block,
     * with the access bits of oflag and the cursor at the start: a file
     * takes its size from the entry, a subdirectory the bytes of its chain
     * of links clusters (in 32-bit arithmetic).
     */
    ghost predicate OpenedOn(e: Entry, block: uint32, index: nat, oflag: OpenFlags, links: nat)
      reads this, vol
    {
      && dirBlock == block && dirIndex == index
      && firstCluster == FirstCluster(e) && flags == Kept(oflag)
      && curPosition == 0 && curCluster == 0
      && (DirEntry.IsFile(e) ==> ftype == Normal && fileSize == e.fileSize)
      && (!DirEntry.IsFile(e) ==>
            ftype == Subdir && ChainLinks(vol.geo, vol.fat, firstCluster, links)
            && fileSize as nat == ChainBytes(vol.geo, links))
    }

    /**
     * The part of openCachedEntry before the truncation: opens the handle
     * on entry e, held in slot index of the cached block. Writing or truncating a read-only
     * entry or a directory is refused, and an entry that is neither a file
     * nor a subdirectory (a volume label) cannot be opened; on failure the
     * handle is closed.
     */
    method LoadEntry(e: Entry, index: nat, oflag: OpenFlags) returns (ok: bool, ghost links: nat)
      requires Valid() && index < ENTRIES_PER_BLOCK
      modifies this`ftype, this`dirBlock, this`dirIndex, this`firstCluster, this`fileSize, this`flags,
               this`curCluster, this`curPosition
      ensures Valid()
      ensures Refused(e, oflag) || !IsFileOrSubdir(e) ==> !ok
      ensures DirEntry.IsFile(e) && !Refused(e, oflag) ==> ok
      ensures ok ==> OpenedOn(e, vol.cacheBlock, index, oflag, links)
      ensures !ok ==> ftype == Closed && flags == old(flags) && fileSize == old(fileSize)
                      && curPosition == old(curPosition) && curCluster == old(curCluster)
      ensures !ok && Refused(e, oflag) ==>
        dirBlock == old(dirBlock) && dirIndex == old(dirIndex) && firstCluster == old(firstCluster)
      ensures !ok && !Refused(e, oflag) ==>
        dirBlock == vol.cacheBlock && dirIndex == index && firstCluster == FirstCluster(e)
    {
      FileOrSubdirCases(e);
      links := 0;
      if Refused(e, oflag) {
        ftype := Closed;
        return false, links;
      }
      dirBlock, dirIndex, firstCluster := vol.cacheBlock, index, FirstCluster(e);
      ok, links := LoadKind(e, oflag);
    }

    /**
     * The type test of openCachedEntry, on the entry's first cluster already
     * loaded: a file takes the size its entry records, a subdirectory the
     * size of its cluster chain, and anything else (a volume label) fails;
     * on success the access bits are kept and the cursor is at the start.
     */
    method LoadKind(e: Entry, oflag: OpenFlags) returns (ok: bool, ghost links: nat)
      requires Valid() && firstCluster == FirstCluster(e)
      modifies this`ftype, this`fileSize, this`flags, this`curCluster, this`curPosition
      ensures Valid()
      ensures !IsFileOrSubdir(e) ==> !ok
      ensures DirEntry.IsFile(e) ==> ok
      ensures ok ==> flags == Kept(oflag) && curPosition == 0 && curCluster == 0
      ensures ok && DirEntry.IsFile(e) ==> ftype == Normal && fileSize == e.fileSize
      ensures ok && !DirEntry.IsFile(e) ==>
        ftype == Subdir && ChainLinks(vol.geo, vol.fat, firstCluster, links) && fileSize as nat == ChainBytes(vol.geo, links)
      ensures !ok ==> ftype == Closed && flags == old(flags) && fileSize == old(fileSize)
                      && curPosition == old(curPosition) && curCluster == old(curCluster)
    {
      FileOrSubdirCases(e);
      links := 0;
      if DirEntry.IsFile(e) {
        fileSize := e.fileSize;
        ftype := Normal;
      } else if IsSubdir(e) {
        var got, size;
        got, size, links := vol.ChainSize(firstCluster);
        if !got {
          ftype := Closed;
          return false, links;
        }
        fileSize := size;
        ftype := Subdir;
      } else {
        ftype := Closed;
        return false, links;
      }
      flags := Kept(oflag);
      curCluster, curPosition := 0, 0;
      ok := true;
    }

    /**
     * openCachedEntry: opens the handle on entry index of the cached block
     * (LoadEntry), then truncates it to 0 bytes when oflag has O_TRUNC. A
     * failed truncation is reported but leaves the file open.
     */
    method OpenCachedEntry(index: nat, oflag: OpenFlags) returns (ok: bool, ghost links: nat)
      requires Valid() && index < ENTRIES_PER_BLOCK
      modifies this`ftype, this`dirBlock, this`dirIndex, this`firstCluster, this`fileSize, this`flags,
               this`curCluster, this`curPosition, this`writeError, vol
      ensures Valid() && |vol.fat| == |old(vol.fat)| && |vol.blocks| == |old(vol.blocks)|
      ensures ok ==> curPosition == 0 && flags == Kept(oflag)
      ensures var e := old(EntryAt(vol.cacheData, index));
        && (Refused(e, oflag) || !IsFileOrSubdir(e) ==> !ok && ftype == Closed)
        && (!ok ==> ftype == Closed || (oflag.trunc && DirEntry.IsFile(e) && ftype == Normal))
        && (!oflag.trunc && DirEntry.IsFile(e) && !(RefusesWrite(e) && oflag.write) ==> ok)
        && (oflag.trunc && oflag.write && DirEntry.IsFile(e) && !RefusesWrite(e) && e.fileSize == 0 ==> ok)
        && (!oflag.trunc ==> vol.fat == old(vol.fat) && vol.Disk() == old(vol.Disk()))
        && (!oflag.trunc || e.fileSize == 0 ==> vol.cacheDirty == old(vol.cacheDirty))
        && (ok && !oflag.trunc ==> OpenedOn(e, old(vol.cacheBlock), index, oflag, links))
        && (oflag.trunc && !oflag.write && DirEntry.IsFile(e) && !RefusesWrite(e) ==> !ok && ftype == Normal)
        && (ok && oflag.trunc ==>
              && DirEntry.IsFile(e) && ftype == Normal && flags == Kept(oflag)
              && dirBlock == old(vol.cacheBlock) && dirIndex == index
              && fileSize == 0 && curPosition == 0 && curCluster == 0
              && firstCluster == (if e.fileSize == 0 then FirstCluster(e) else 0))
        && (ok && oflag.trunc && e.fileSize == 0 ==> vol.fat == old(vol.fat) && vol.Disk() == old(vol.Disk()))
        && (ok && oflag.trunc && e.fileSize != 0 ==>
              && dirBlock < |old(vol.blocks)|
              && vol.Disk() == SyncedDisk(old(vol.Disk()), dirBlock, index, false, 0, 0, vol.dateTime)
              && ChainCut(vol.geo, old(vol.fat), FirstCluster(e), 0, vol.fat))
    {
      ok, links := LoadEntry(EntryAt(vol.cacheData, index), index, oflag);
      if ok && oflag.trunc {
        ok := Truncate(0);
      }
    }

    /**
     * open by name (dname): searches dir for the 11-byte name. An existing
     * entry is opened unless oflag has O_EXCL; a missing one is created
     * only with O_CREAT and O_WRITE, in the first vacant slot the search
     * met, or else (not in a fixed FAT16 root) at the start of a cluster
     * added to dir. The new entry is written through to the device before
     * the handle is opened on it. The first vacant slot met is recorded as
     * the handle's entry location whatever happens next, and the handle is
     * not checked for being open.
     */
    method OpenName(dir: SdFile, dname: seq<byte>, oflag: OpenFlags) returns (ok: bool, ghost links: nat)
      requires this != dir && Valid() && dir.Valid() && |dname| == NAME_SIZE
      modifies this, dir, dir.vol
      ensures Valid() && dir.Valid() && vol == dir.vol == old(dir.vol)
      ensures ok ==> curPosition == 0 && flags == Kept(oflag)
      ensures ok && oflag.excl ==> IsFile() && (!oflag.trunc ==> firstCluster == 0)
      ensures old(dir.Searchable()) ==>
        var slots := old(dir.Slots());
        var s := Scan(slots, dname);
        && (s.found.Some? && oflag.excl ==> !ok)
        && (s.found.None? && !(oflag.creat && oflag.write) ==> !ok)
        && (s.found.None? && s.vacant.None? && old(dir.ftype) == RootFixed ==> !ok)
        && (s.found.Some? && !oflag.excl && Reopens(slots[s.found.value], oflag) ==> ok)
        && (s.found.None? && s.vacant.Some? && oflag.creat && oflag.write ==> ok)
        && (ok && s.found.Some? ==>
              BlockAt(old(dir.Map()), ENTRY_SIZE * s.found.value) == Some(dirBlock)
              && dirIndex == s.found.value % ENTRIES_PER_BLOCK)
        && (ok && s.found.Some? && !oflag.trunc ==>
              s.found.value < |slots| && OpenedOn(slots[s.found.value], dirBlock, dirIndex, oflag, links))
        && (ok && s.found.None? ==>
              ftype == Normal && fileSize == 0 && firstCluster == 0 && curPosition == 0 && flags == Kept(oflag)
              && !vol.cacheDirty && dirBlock < |vol.blocks|
              && EntryAt(vol.Disk()[dirBlock], dirIndex) == NewEntry(dname, vol.dateTime))
        && (ok && s.found.None? && s.vacant.Some? ==>
              BlockAt(old(dir.Map()), ENTRY_SIZE * s.vacant.value) == Some(dirBlock)
              && dirIndex == s.vacant.value % ENTRIES_PER_BLOCK)
    {
      var index;
      ok, index := Locate(this, dir, dname, oflag);
      if !ok {
        return false, 0;
      }
      ok, links := OpenCachedEntry(index, oflag);
    }

    /**
     * open by index: opens the entry in slot index of dir, the entry at
     * byte 32 * index; the product is taken in 16 bits, so the slot opened
     * is index mod 2048. Fails when this handle is already open, with
     * O_EXCL, when the slot is not in dir or cannot be read, and when the
     * slot is vacant or holds "." or "..". The handle takes dir's volume
     * even when it fails.
     */
    method OpenIndex(dir: SdFile, index: uint16, oflag: OpenFlags) returns (ok: bool, ghost links: nat)
      requires this != dir && Valid() && dir.Valid()
      modifies this`vol, this`ftype, this`dirBlock, this`dirIndex, this`firstCluster, this`fileSize, this`flags,
               this`curCluster, this`curPosition, this`writeError, dir`curPosition, dir`curCluster, dir.vol
      ensures Valid() && dir.Valid() && vol == dir.vol
      ensures |vol.fat| == |old(dir.vol.fat)| && |vol.blocks| == |old(dir.vol.blocks)|
      ensures old(IsOpen()) || oflag.excl ==> !ok
      ensures old(dir.Searchable() && dir.Positioned()) ==>
        var slots, w := old(dir.Slots()), index as nat % SLOT_WRAP;
        && (ok ==> w < |slots| && Listed(slots[w]))
        && (ok ==> BlockAt(old(dir.Map()), ENTRY_SIZE * w) == Some(dirBlock)
                   && dirIndex == index as nat % ENTRIES_PER_BLOCK)
        && (ok && !oflag.trunc ==> OpenedOn(slots[w], dirBlock, dirIndex, oflag, links))
        && (!old(IsOpen()) && !oflag.excl && !oflag.trunc && w < |slots| && Admits(slots[w], oflag) ==> ok)
    {
      ok := SelectSlot(this, dir, index, oflag);
      if !ok {
        return false, 0;
      }
      ok, links := OpenCachedEntry(index as nat % ENTRIES_PER_BLOCK, oflag);
    }

    /**
     * openNext: opens the next file or subdirectory of dir from dir's
     * cursor on, skipping deleted slots, "." and "..", and volume labels;
     * fails at a never-used slot or at the end of dir. Fails at once when
     * this handle is already open; otherwise the handle takes dir's volume.
     */
    method OpenNext(dir: SdFile, oflag: OpenFlags) returns (ok: bool, ghost links: nat)
      requires this != dir && Valid() && dir.Valid() && dir.curPosition as nat % ENTRY_SIZE == 0
      modifies this`vol, this`ftype, this`dirBlock, this`dirIndex, this`firstCluster, this`fileSize, this`flags,
               this`curCluster, this`curPosition, this`writeError, dir`curPosition, dir`curCluster, dir.vol
      ensures Valid() && dir.Valid()
      ensures old(IsOpen()) ==> !ok && vol == old(vol)
      ensures !old(IsOpen()) ==> vol == dir.vol
      ensures old(dir.Searchable() && dir.Positioned()) ==>
        var slots := old(dir.Slots());
        var n := NextListed(slots, old(dir.curPosition) as nat / ENTRY_SIZE);
        && (n.None? ==> !ok)
        && (ok ==> n.value < |slots| && dir.curPosition as nat == ENTRY_SIZE * (n.value + 1))
        && (ok ==> BlockAt(old(dir.Map()), ENTRY_SIZE * n.value) == Some(dirBlock)
                   && dirIndex == n.value % ENTRIES_PER_BLOCK)
        && (ok && !oflag.trunc ==> OpenedOn(slots[n.value], dirBlock, dirIndex, oflag, links))
        && (!old(IsOpen()) && !oflag.trunc && n.Some? && Admits(slots[n.value], oflag) ==> ok)
    {
      var index;
      ok, index := SelectNext(this, dir);
      if !ok {
        return false, 0;
      }
      ok, links := OpenCachedEntry(index, oflag);
    }

    /**
     * The loop of openNext, on this directory: reads entries from the
     * cursor on until one is openable (it is then slot index of the cached
     * block, and the cursor is just past it), failing at a never-used slot,
     * at the end of the directory, or on a read error.
     */
    method NextEntry() returns (ok: bool, index: nat, failed: bool)
      requires Valid() && curPosition as nat % ENTRY_SIZE == 0
      modifies this`curPosition, this`curCluster, vol
      ensures Valid() && Map() == old(Map()) && vol.Disk() == old(vol.Disk())
      ensures index < ENTRIES_PER_BLOCK
      ensures old(Searchable() && Positioned()) ==> !failed
      ensures old(Searchable() && Positioned()) ==>
        NextFound(old(Slots()), old(curPosition) as nat / ENTRY_SIZE, ok, index)
    {
      ghost var slots := Slots();
      ghost var good := Searchable() && Positioned();
      ghost var k: nat := curPosition as nat / ENTRY_SIZE;
      ghost var k0 := k;
      EntryPosition(k);
      if good && ENTRY_SIZE * k < fileSize as nat {
        SlotBound(k, fileSize as nat);
      }
      while true
        invariant Valid() && Map() == old(Map()) && vol.Disk() == old(vol.Disk())
        invariant Scanning(slots, k0, k, good)
        decreases fileSize - curPosition
      {
        var stop;
        ok, stop, index, failed := NextStep(slots, k0, k, good);
        if stop {
          break;
        }
        k := k + 1;
      }
    }

    /** The loop of openNext reads slot k, having passed over the slots from k0 on before it. */
    ghost predicate Scanning(slots: seq<Entry>, k0: nat, k: nat, good: bool)
      reads this, vol
    {
      && curPosition as nat == ENTRY_SIZE * k
      && (good ==> Positioned() && Searchable() && vol.Valid() && slots == Slots() && k0 <= k <= |slots|
                   && NextListed(slots, k) == NextListed(slots, k0))
    }

    /** What the loop of openNext has found once it stops. */
    ghost predicate NextFound(slots: seq<Entry>, k0: nat, ok: bool, index: nat)
      requires k0 <= |slots|
      reads this, vol
    {
      var n := NextListed(slots, k0);
      && (ok <==> n.Some?)
      && (ok ==> index == n.value % ENTRIES_PER_BLOCK && n.value < |slots| && curPosition as nat == ENTRY_SIZE * (n.value + 1)
                 && |vol.cacheData| == BLOCK_SIZE && EntryAt(vol.cacheData, index) == slots[n.value]
                 && BlockAt(Map(), ENTRY_SIZE * n.value) == Some(vol.cacheBlock))
    }

    /**
     * One round of the loop of openNext: reads slot k and decides whether
     * to stop (at a never-used slot, the end, a read error, or an
     * openable entry) or read on.
     */
    method NextStep(ghost slots: seq<Entry>, ghost k0: nat, ghost k: nat, ghost good: bool)
      returns (ok: bool, stop: bool, index: nat, failed: bool)
      requires Valid() && Scanning(slots, k0, k, good)
      modifies this`curPosition, this`curCluster, vol
      ensures Valid() && Meta() == old(Meta()) && Map() == old(Map()) && vol.Disk() == old(vol.Disk())
      ensures old(vol.Flushable()) ==> vol.Flushable()
      ensures index < ENTRIES_PER_BLOCK && (failed ==> stop && !ok)
      ensures !stop ==> !ok && Scanning(slots, k0, k + 1, good) && old(curPosition) < curPosition
      ensures good ==> !failed
      ensures good && stop ==> NextFound(slots, k0, ok, index)
    {
      failed := false;
      if curPosition >= fileSize {
        return false, true, 0, false;
      }
      if good {
        SlotBound(k, fileSize as nat);
      }
      var e;
      ok, index, e := SearchStep(slots, k, good);
      if !ok {
        return false, true, index, true;
      }
      if good {
        NextListedStep(slots, k);
      }
      if e.name[0] == NAME_FREE {
        return false, true, index, false;
      }
      stop := e.name[0] != NAME_DELETED && e.name[0] != NAME_DOT && IsFileOrSubdir(e);
      ok := stop;
    }

    // ------------------------------------------------------------- readDir

    /**
     * readDir as the source writes it: -1 unless this is a directory whose
     * cursor is on an entry boundary; otherwise reads entries (through
     * read) into dst from the cursor on, passing over deleted slots, "."
     * and "..", and entries that are neither files nor subdirectories, and
     * returns 32 at the next file or subdirectory, 0 at the end of the
     * directory and -1 on a read error. A never-used slot also ends the
     * reading with -1, although nothing follows it.
     */
    method ReadDirAsWritten(dst: array<byte>) returns (r: int)
      requires Valid() && ENTRY_SIZE <= dst.Length
      modifies this`curPosition, this`curCluster, vol, dst
      ensures Valid() && Map() == old(Map()) && vol.Disk() == old(vol.Disk())
      ensures !old(IsDir()) || old(curPosition) as nat % ENTRY_SIZE != 0 ==> r == -1
      ensures old(Searchable() && Positioned()) && old(curPosition) as nat % ENTRY_SIZE == 0 ==>
        var slots := old(Slots());
        var k0 := old(curPosition) as nat / ENTRY_SIZE;
        k0 <= |slots| && r == ReadDirAsWrittenResult(slots, k0) && DirRead(slots, k0, r == ENTRY_SIZE, dst)
    {
      if !IsDir() || curPosition % 32 != 0 {
        return -1;
      }
      var n, found, atFree := ReadDirLoop(dst);
      if found {
        return n;
      }
      if n != 0 {
        return -1;
      }
      r := 0;
    }

    /**
     * readDir as it is meant to work: as ReadDirAsWritten, except that a
     * never-used slot ends the reading with 0, the end of the directory.
     */
    method ReadDir(dst: array<byte>) returns (r: int)
      requires Valid() && ENTRY_SIZE <= dst.Length
      modifies this`curPosition, this`curCluster, vol, dst
      ensures Valid() && Map() == old(Map()) && vol.Disk() == old(vol.Disk())
      ensures !old(IsDir()) || old(curPosition) as nat % ENTRY_SIZE != 0 ==> r == -1
      ensures old(Searchable() && Positioned()) && old(curPosition) as nat % ENTRY_SIZE == 0 ==>
        var slots := old(Slots());
        var k0 := old(curPosition) as nat / ENTRY_SIZE;
        k0 <= |slots| && r == ReadDirResult(slots, k0) && DirRead(slots, k0, r == ENTRY_SIZE, dst)
    {
      if !IsDir() || curPosition % 32 != 0 {
        return -1;
      }
      var n, found, atFree := ReadDirLoop(dst);
      if found {
        return n;
      }
      if atFree {
        return 0;
      }
      if n != 0 {
        return -1;
      }
      r := 0;
    }

    /**
     * What readDir leaves when it finds an entry: the next file or
     * subdirectory from slot k0 on is in dst, and the cursor is just past it.
     */
    ghost predicate DirRead(slots: seq<Entry>, k0: nat, found: bool, dst: array<byte>)
      requires k0 <= |slots| && ENTRY_SIZE <= dst.Length
      reads this, dst
    {
      var x := NextListed(slots, k0);
      found ==> x.Some? && curPosition as nat == ENTRY_SIZE * (x.value + 1) && Decode(dst[..ENTRY_SIZE]) == slots[x.value]
    }

    /** What the loop of readDir has found once it stops: n is the last count read. */
    ghost predicate DirReadDone(slots: seq<Entry>, k0: nat, n: int, found: bool, atFree: bool, dst: array<byte>)
      requires k0 <= |slots| && ENTRY_SIZE <= dst.Length
      reads this, dst
    {
      var x := NextListed(slots, k0);
      && (found <==> x.Some?)
      && DirRead(slots, k0, found, dst)
      && (found ==> n == ENTRY_SIZE)
      && (!found ==> atFree == StopsAtFree(slots, k0) && n == (if atFree then ENTRY_SIZE else 0))
    }

    /**
     * The loop of readDir, from the cursor (on an entry boundary) on: reads
     * 32 bytes at a time into dst until a file or subdirectory entry is
     * read (found), a never-used slot is read (atFree), or a read does not
     * deliver 32 bytes (n is then what it returned).
     */
    method ReadDirLoop(dst: array<byte>) returns (n: int, found: bool, atFree: bool)
      requires Valid() && curPosition as nat % ENTRY_SIZE == 0 && ENTRY_SIZE <= dst.Length
      modifies this`curPosition, this`curCluster, vol, dst
      ensures Valid() && Map() == old(Map()) && vol.Disk() == old(vol.Disk())
      ensures old(Searchable() && Positioned()) ==>
        DirReadDone(old(Slots()), old(curPosition) as nat / ENTRY_SIZE, n, found, atFree, dst)
    {
      ghost var slots := Slots();
      ghost var good := Searchable() && Positioned();
      ghost var k: nat := curPosition as nat / ENTRY_SIZE;
      ghost var k0 := k;
      EntryPosition(k);
      if good && ENTRY_SIZE * k < fileSize as nat {
        SlotBound(k, fileSize as nat);
      }
      ghost var m, d := Map(), vol.Disk();
      while true
        invariant ReadingOn(m, d, slots, k0, k, good)
        decreases fileSize - curPosition
      {
        var stop;
        n, stop, found, atFree, k := ReadDirStep(dst, m, d, slots, k0, k, good);
        if stop {
          break;
        }
      }
    }

    /** The state the loop of readDir keeps: the volume's map and disk are m and d, and slot k is next. */
    ghost predicate ReadingOn(m: Layout, d: seq<seq<byte>>, slots: seq<Entry>, k0: nat, k: nat, good: bool)
      reads this, vol
    {
      Valid() && Map() == m && vol.Disk() == d && Scanning(slots, k0, k, good) && FreeAhead(slots, k0, k, good)
    }

    /** One round of the loop of readDir: reads slot k into dst and decides whether to stop. */
    method ReadDirStep(dst: array<byte>, ghost m: Layout, ghost d: seq<seq<byte>>, ghost slots: seq<Entry>,
                       ghost k0: nat, ghost k: nat, ghost good: bool)
      returns (n: int, stop: bool, found: bool, atFree: bool, ghost next: nat)
      requires ReadingOn(m, d, slots, k0, k, good) && ENTRY_SIZE <= dst.Length
      modifies this`curPosition, this`curCluster, vol, dst
      ensures Valid() && Map() == m && vol.Disk() == d
      ensures !stop ==> old(curPosition) < curPosition && ReadingOn(m, d, slots, k0, next, good)
      ensures good && stop ==> DirReadDone(slots, k0, n, found, atFree, dst)
    {
      n := ReadEntryBytes(dst, slots, k, good);
      next := k + 1;
      if n != 32 {
        return n, true, false, false, next;
      }
      var e := Decode(dst[..32]);
      if good {
        NextListedStep(slots, k);
      }
      atFree := e.name[0] == NAME_FREE;
      found := !atFree && e.name[0] != NAME_DELETED && e.name[0] != NAME_DOT && IsFileOrSubdir(e);
      stop := atFree || found;
    }

    /** read(dst, 32) at slot k of this directory, as readDir does it. */
    method ReadEntryBytes(dst: array<byte>, ghost slots: seq<Entry>, ghost k: nat, ghost good: bool) returns (n: int)
      requires Valid() && curPosition as nat == ENTRY_SIZE * k && ENTRY_SIZE <= dst.Length
      requires good ==> Positioned() && Searchable() && slots == Slots() && k <= |slots|
      modifies this`curPosition, this`curCluster, vol, dst
      ensures Valid() && Meta() == old(Meta()) && Map() == old(Map()) && vol.Disk() == old(vol.Disk())
      ensures old(vol.Flushable()) ==> vol.Flushable()
      ensures n == ENTRY_SIZE ==> curPosition as nat == ENTRY_SIZE * (k + 1)
      ensures n == ENTRY_SIZE && old(Positioned()) ==> Positioned()
      ensures good && k == |slots| ==> n == 0
      ensures good && k < |slots| ==> n == ENTRY_SIZE && Decode(dst[..ENTRY_SIZE]) == slots[k]
    {
      if good {
        SlotExtent(k, fileSize as nat);
      }
      ghost var done, count;
      n, done, count := Read(dst, 32);
      if good && n == 32 {
        HeldSlot(Map(), vol.Disk(), fileSize as nat / ENTRY_SIZE, k, dst[..32]);
      }
    }

    // ---------------------------------------------------------- growing a chain

    /**
     * addCluster: allocates one free cluster, linked after the current
     * cluster when there is one, and makes it current; a file without
     * clusters gets it as its first cluster, and its entry becomes dirty.
     */
    method AddCluster() returns (ok: bool)
      requires vol.Valid()
      modifies this`curCluster, this`firstCluster, this`flags, vol
      ensures vol.Valid() && vol.Disk() == old(vol.Disk()) && |vol.fat| == |old(vol.fat)|
      ensures unchanged(vol`cacheBlock, vol`cacheDirty, vol`cacheData, vol`blocks)
      ensures ok ==> old(curCluster) == 0 || 2 <= old(curCluster) < |vol.fat|
      ensures ok ==> 2 <= curCluster && curCluster as nat < |vol.fat| && old(vol.fat)[curCluster] == 0
      ensures ok ==> vol.fat == Linked(vol.geo, old(vol.fat), curCluster as nat, 1, old(curCluster) as nat)
      ensures ok ==> firstCluster == (if old(firstCluster) == 0 then curCluster else old(firstCluster))
      ensures ok ==> flags == if old(firstCluster) == 0 then old(flags).(dirDirty := true) else old(flags)
      ensures !ok ==> vol.fat == old(vol.fat) && curCluster == old(curCluster)
                      && firstCluster == old(firstCluster) && flags == old(flags)
    {
      var got, c := vol.AllocContiguous(1, curCluster);
      if !got {
        return false;
      }
      curCluster := c;
      if firstCluster == 0 {
        firstCluster := curCluster;
        flags := flags.(dirDirty := true);
      }
      ok := true;
    }

    /**
     * addDirCluster: grows a directory by one cluster whose blocks are all
     * zeroed (free entries), leaving the cluster's first block in the cache;
     * refused once the directory holds 0xFFFF entries.
     */
    method AddDirCluster() returns (ok: bool)
      requires Valid()
      modifies this`curCluster, this`firstCluster, this`flags, this`fileSize, vol
      ensures Valid() && |vol.fat| == |old(vol.fat)| && |vol.blocks| == |old(vol.blocks)|
      ensures old(fileSize) as nat / ENTRY_SIZE >= 0xFFFF ==> !ok
      ensures ok ==> fileSize as nat == old(fileSize) as nat + ClusterBytes(vol.geo)
      ensures ok ==> 2 <= curCluster && curCluster as nat < |vol.fat| && old(vol.fat)[curCluster] == 0
      ensures ok ==> vol.fat == Linked(vol.geo, old(vol.fat), curCluster as nat, 1, old(curCluster) as nat)
      ensures ok ==> firstCluster == (if old(firstCluster) == 0 then curCluster else old(firstCluster))
      ensures ok ==> vol.cacheBlock == ClusterStartBlock(vol.geo, curCluster) && vol.cacheDirty && vol.cacheData == Zeros512()
      ensures ok ==> ZeroedFrom(vol, ClusterStartBlock(vol.geo, curCluster), 0, old(vol.Disk()))
    {
      if fileSize / 32 >= 0xFFFF {
        return false;
      }
      ok := AddCluster();
      if !ok {
        return;
      }
      ok := ZeroCluster(vol, curCluster);
      if !ok {
        return;
      }
      GrowByCluster();
    }

    /** The size step of addDirCluster: the directory is one cluster longer. */
    method GrowByCluster()
      requires Valid() && fileSize as nat / ENTRY_SIZE < 0xFFFF
      modifies this`fileSize
      ensures Valid() && fileSize as nat == old(fileSize) as nat + ClusterBytes(vol.geo)
    {
      Pow2Bound(vol.geo.clusterSizeShift);
      fileSize := fileSize + (512 * BlocksPerCluster(vol.geo)) as uint32;
    }

    // ------------------------------------------------------------ truncate

    /**
     * truncate: shortens a file open for writing to length bytes. The
     * clusters after the one holding the new last byte are freed (all of
     * them, and the first cluster forgotten, for length 0), the entry is
     * synced, and the cursor goes back to where it was, or to the new end
     * if that is before it. An empty file is left alone.
     */
    method Truncate(length: uint32) returns (ok: bool)
      requires Valid()
      modifies this`curPosition, this`curCluster, this`firstCluster, this`fileSize, this`flags, this`writeError, vol
      ensures Valid() && ftype == old(ftype) && |vol.fat| == |old(vol.fat)| && |vol.blocks| == |old(vol.blocks)|
      ensures !old(IsFile() && flags.write) || length > old(fileSize) ==> !ok
      ensures !old(IsFile() && flags.write) || length > old(fileSize) || old(fileSize) == 0 ==>
        Meta() == old(Meta()) && curPosition == old(curPosition) && curCluster == old(curCluster) && unchanged(vol)
      ensures old(IsFile() && flags.write) && old(fileSize) == 0 && length == 0 ==> ok
      ensures ok ==> fileSize == length && curPosition == Min(old(curPosition) as int, length as int) as uint32
      ensures ok && old(fileSize) != 0 ==> flags == old(flags).(dirDirty := false) && !vol.cacheDirty
      ensures ok && old(fileSize) != 0 ==> firstCluster == if length == 0 then 0 else old(firstCluster)
      ensures ok && old(fileSize) != 0 ==>
        dirBlock < |old(vol.blocks)| &&
        vol.Disk() == SyncedDisk(old(vol.Disk()), dirBlock, dirIndex, false, length, firstCluster, vol.dateTime)
      ensures ok && old(fileSize) != 0 && (length == 0 || old(Positioned())) ==>
        ChainCut(vol.geo, old(vol.fat), old(firstCluster), length, vol.fat)
      ensures ok && length == 0 && old(fileSize) != 0 ==> curCluster == 0 && Positioned()
    {
      if !IsFile() || !flags.write {
        return false;
      }
      if length > fileSize {
        return false;
      }
      if fileSize == 0 {
        return true;
      }
      ok := Shorten(length);
    }

    /** The part of truncate that does the work, for a non-empty file open for writing. */
    method Shorten(length: uint32) returns (ok: bool)
      requires Valid() && IsFile() && flags.write && length <= fileSize && fileSize != 0
      modifies this`curPosition, this`curCluster, this`firstCluster, this`fileSize, this`flags, this`writeError, vol
      ensures Valid() && ftype == old(ftype) && |vol.fat| == |old(vol.fat)| && |vol.blocks| == |old(vol.blocks)|
      ensures ok ==> fileSize == length && curPosition == Min(old(curPosition) as int, length as int) as uint32
      ensures ok ==> flags == old(flags).(dirDirty := false) && !vol.cacheDirty
      ensures ok ==> firstCluster == if length == 0 then 0 else old(firstCluster)
      ensures ok ==>
        dirBlock < |old(vol.blocks)| &&
        vol.Disk() == SyncedDisk(old(vol.Disk()), dirBlock, dirIndex, false, length, firstCluster, vol.dateTime)
      ensures ok && (length == 0 || old(Positioned())) ==> ChainCut(vol.geo, old(vol.fat), old(firstCluster), length, vol.fat)
      ensures ok && length == 0 ==> curCluster == 0 && Positioned()
    {
      var newPos := if curPosition > length then length else curPosition;
      ok := CutTo(length);
      if !ok {
        return;
      }
      ok := Sync();
      if !ok {
        return;
      }
      ok := SeekSet(newPos);
    }

    /**
     * The freeing step of truncate: moves the cursor to the new end, frees
     * the clusters past it, and records the new size (the entry now dirty).
     */
    method CutTo(length: uint32) returns (ok: bool)
      requires Valid() && IsFile() && flags.write && length <= fileSize && fileSize != 0
      modifies this`curPosition, this`curCluster, this`firstCluster, this`fileSize, this`flags, vol
      ensures Valid() && ftype == old(ftype) && dirBlock == old(dirBlock) && dirIndex == old(dirIndex)
      ensures writeError == old(writeError)
      ensures vol.Disk() == old(vol.Disk()) && |vol.fat| == |old(vol.fat)| && |vol.blocks| == |old(vol.blocks)|
      ensures ok ==> fileSize == length && curPosition == length && flags == old(flags).(dirDirty := true)
      ensures ok ==> firstCluster == if length == 0 then 0 else old(firstCluster)
      ensures ok && (length == 0 || old(Positioned())) ==> ChainCut(vol.geo, old(vol.fat), old(firstCluster), length, vol.fat)
      ensures ok && length == 0 ==> curCluster == 0
    {
      ghost var pos0 := Positioned();
      ok := SeekSet(length);
      if !ok {
        return;
      }
      var first;
      ok, first := CutChain(vol, length, firstCluster, curCluster);
      if !ok {
        return;
      }
      SetCut(first, length);
    }

    /** The bookkeeping step of truncate: the new first cluster and size, the entry now dirty. */
    method SetCut(first: uint32, length: uint32)
      requires Valid() && curPosition == length && IsFile()
      modifies this`firstCluster, this`fileSize, this`flags
      ensures Valid() && firstCluster == first && fileSize == length && flags == old(flags).(dirDirty := true)
    {
      firstCluster := first;
      fileSize := length;
      flags := flags.(dirDirty := true);
    }

    // -------------------------------------------------------------- remove

    /**
     * remove: frees the file's clusters (truncate to 0, which refuses
     * anything but a file open for writing), marks its directory entry
     * deleted in the cache, closes the handle and writes the entry back.
     * A file of size 0 keeps whatever clusters it has.
     */
    method Remove() returns (ok: bool)
      requires Valid()
      modifies this`curPosition, this`curCluster, this`firstCluster, this`fileSize, this`flags, this`writeError,
               this`ftype, vol
      ensures Valid() && |vol.fat| == |old(vol.fat)| && |vol.blocks| == |old(vol.blocks)|
      ensures dirBlock == old(dirBlock) && dirIndex == old(dirIndex)
      ensures !old(IsFile() && flags.write) ==> !ok && Meta() == old(Meta()) && unchanged(vol)
      ensures ok ==> ftype == Closed && !vol.cacheDirty && dirBlock < |old(vol.blocks)|
      ensures ok ==> Vacant(EntryAt(vol.Disk()[dirBlock], dirIndex))
      ensures ok && old(fileSize) == 0 ==>
        vol.fat == old(vol.fat) && vol.Disk() == DeletedDisk(old(vol.Disk()), dirBlock, dirIndex)
      ensures ok && old(fileSize) != 0 ==>
        ChainCut(vol.geo, old(vol.fat), old(firstCluster), 0, vol.fat) &&
        vol.Disk() == DeletedDisk(SyncedDisk(old(vol.Disk()), dirBlock, dirIndex, false, 0, 0, vol.dateTime), dirBlock, dirIndex)
      ensures old(IsFile() && flags.write && vol.Flushable()) && old(fileSize) == 0 && dirBlock < |vol.blocks| ==> ok
    {
      ok := Truncate(0);
      if !ok {
        return;
      }
      ok := Unlink(this);
    }

    /**
     * rmdir: removes an empty subdirectory that is not the working
     * directory (cwd is the working directory's first cluster, when one is
     * set). The directory is read from its start as openNext reads it; a
     * file or subdirectory before the first never-used slot makes it
     * non-empty. The handle then becomes a normal file open for writing and
     * is removed, whatever its read-only attribute.
     */
    method Rmdir(cwd: Option<uint32>) returns (ok: bool)
      requires Valid()
      modifies this`curPosition, this`curCluster, this`firstCluster, this`fileSize, this`flags, this`writeError,
               this`ftype, vol
      ensures Valid() && |vol.fat| == |old(vol.fat)| && |vol.blocks| == |old(vol.blocks)|
      ensures dirBlock == old(dirBlock) && dirIndex == old(dirIndex)
      ensures !old(IsSubDir()) || cwd == Some(old(firstCluster)) ==> !ok
      ensures old(Searchable()) && NextListed(old(Slots()), 0).Some? ==> !ok
      ensures ok ==> ftype == Closed && dirBlock < |vol.blocks| && Vacant(EntryAt(vol.Disk()[dirBlock], dirIndex))
      ensures ok && old(fileSize) != 0 ==> ChainCut(vol.geo, old(vol.fat), old(firstCluster), 0, vol.fat)
    {
      if !IsSubDir() {
        return false;
      }
      if cwd.Some? && cwd.value == firstCluster {
        return false;
      }
      Rewind();
      var found, index, failed := NextEntry();
      if found || failed {
        return false;
      }
      ok := RemoveEmpty(this);
    }

    /**
     * rmRfStar: removes every file and subdirectory of this directory,
     * subdirectories recursively and files whatever their read-only
     * attribute, reading the directory from its start up to the first
     * never-used slot; then removes the directory itself unless it is a
     * root. fuel bounds the depth of the recursion. The seek after a removal
     * is 16-bit and may send the cursor back once; a second move back, which
     * the source cannot make, ends the loop with a failure.
     */
    method RmRfStar(cwd: Option<uint32>, fuel: nat) returns (ok: bool)
      requires Valid()
      modifies this`curPosition, this`curCluster, this`firstCluster, this`fileSize, this`flags, this`writeError,
               this`ftype, vol
      ensures Valid() && |vol.fat| == |old(vol.fat)| && |vol.blocks| == |old(vol.blocks)|
      ensures dirBlock == old(dirBlock) && dirIndex == old(dirIndex)
      ensures !old(IsDir()) ==> !ok
      ensures old(IsRoot()) ==> ftype == old(ftype)
      ensures !old(IsRoot()) && cwd == Some(old(firstCluster)) ==> !ok
      ensures ok && !old(IsRoot()) ==>
        ftype == Closed && dirBlock < |vol.blocks| && Vacant(EntryAt(vol.Disk()[dirBlock], dirIndex))
      decreases fuel, 2
    {
      var f := new SdFile(vol);
      Rewind();
      var wrapped := false;
      while curPosition < fileSize
        invariant Valid() && f.Valid() && f.vol == vol
        invariant Meta() == old(Meta()) && curPosition as nat % ENTRY_SIZE == 0
        invariant |vol.fat| == |old(vol.fat)| && |vol.blocks| == |old(vol.blocks)|
        decreases if wrapped then 0 else 1, fileSize - curPosition
      {
        var before := curPosition;
        var stop;
        ok, stop := RmRound(f, cwd, fuel);
        if !ok {
          return false;
        }
        if stop {
          break;
        }
        if curPosition <= before {
          if wrapped {
            return false;
          }
          wrapped := true;
        }
      }
      ok := true;
      if !IsRoot() {
        ok := Rmdir(cwd);
      }
    }

    /**
     * One round of the loop of rmRfStar: the read of a slot, and the
     * removal of its entry when asked for. The cursor moves on to the next
     * slot; after a removal it is set to 32 * (index + 1), taken in 16 bits,
     * which is back near the start of the directory when the slot was 2047
     * or beyond.
     */
    method RmRound(f: SdFile, cwd: Option<uint32>, fuel: nat) returns (ok: bool, stop: bool)
      requires Valid() && f.Valid() && f != this && f.vol == vol
      requires curPosition as nat % ENTRY_SIZE == 0 && curPosition < fileSize
      modifies this`curPosition, this`curCluster, f, vol
      ensures Valid() && f.Valid() && f.vol == vol && Meta() == old(Meta())
      ensures |vol.fat| == |old(vol.fat)| && |vol.blocks| == |old(vol.blocks)|
      ensures !old(IsDir()) ==> !ok
      ensures ok && !stop ==>
        && curPosition as nat % ENTRY_SIZE == 0
        && (curPosition as nat == old(curPosition) as nat + ENTRY_SIZE
            || curPosition as nat == EntryBytes(old(curPosition) as nat / ENTRY_SIZE + 1))
      decreases fuel, 1
    {
      var act, index;
      ok, stop, act, index := RmRead();
      if ok && act {
        ok := RmEntry(f, index, cwd, fuel);
        WrapNext(old(curPosition) as nat / ENTRY_SIZE);
      }
    }

    /**
     * The read at the head of a round of rmRfStar, at slot curPosition / 32,
     * which the source keeps in a uint16_t index (truncated to 16 bits):
     * stops at a never-used slot, passes over deleted slots, "." and "..",
     * and entries that are neither files nor subdirectories, and otherwise
     * asks for the entry to be removed (act).
     */
    method RmRead() returns (ok: bool, stop: bool, act: bool, index: uint16)
      requires Valid() && curPosition as nat % ENTRY_SIZE == 0 && curPosition < fileSize
      modifies this`curPosition, this`curCluster, vol
      ensures Valid() && vol.fat == old(vol.fat) && |vol.blocks| == |old(vol.blocks)|
      ensures index as nat == (old(curPosition) as nat / ENTRY_SIZE) % UINT16_LIMIT
      ensures !old(IsDir()) ==> !ok
      ensures ok && !stop && !act ==> curPosition as nat == old(curPosition) as nat + ENTRY_SIZE
      ensures ok && act ==> !stop
    {
      index := ((curPosition as nat / ENTRY_SIZE) % UINT16_LIMIT) as uint16;
      var got, i := ReadDirCache();
      if !got {
        return false, true, false, index;
      }
      var e := EntryAt(vol.cacheData, i);
      stop := e.name[0] == NAME_FREE;
      act := !stop && e.name[0] != NAME_DELETED && e.name[0] != NAME_DOT && IsFileOrSubdir(e);
      ok := true;
    }

    /**
     * The removal step of rmRfStar for the file or subdirectory in slot
     * index: opens it in f, removes it (recursively for a subdirectory),
     * and seeks to the next slot, 32 * (index + 1) taken in 16 bits, when
     * the cursor is not already there.
     */
    method RmEntry(f: SdFile, index: uint16, cwd: Option<uint32>, fuel: nat) returns (ok: bool)
      requires Valid() && f.Valid() && f != this && f.vol == vol
      modifies this`curPosition, this`curCluster, f, vol
      ensures Valid() && f.Valid() && f.vol == vol && Meta() == old(Meta())
      ensures |vol.fat| == |old(vol.fat)| && |vol.blocks| == |old(vol.blocks)|
      ensures ok ==> curPosition as nat == EntryBytes(index as nat + 1)
      decreases fuel, 0
    {
      ghost var links;
      ok, links := f.OpenIndex(this, index, READ_ONLY_OPEN);
      if !ok {
        return;
      }
      if f.IsSubDir() {
        if fuel == 0 {
          return false;
        }
        ok := f.RmRfStar(cwd, fuel - 1);
      } else {
        ok := ForceRemove(f);
      }
      if !ok {
        return;
      }
      var next := EntryBytes(index as nat + 1);
      if curPosition as nat != next {
        ok := SeekSet(next as uint32);
      }
    }

    // ---------------------------------------------------- contiguous files

    /**
     * createContiguous: creates the file dname in dir (O_CREAT, O_EXCL,
     * O_RDWR) and gives it size bytes in a run of consecutive clusters, just
     * enough for size bytes. Fails for size 0 and when the name exists; when
     * no run is free, the new file is removed again. created tells whether the
     * entry was created, runFound whether a run was found for it.
     */
    method CreateContiguous(dir: SdFile, dname: seq<byte>, size: uint32)
      returns (ok: bool, ghost created: bool, ghost runFound: bool)
      requires this != dir && Valid() && dir.Valid() && |dname| == NAME_SIZE
      modifies this, dir, dir.vol
      ensures Valid() && dir.Valid() && (ok ==> vol == dir.vol)
      ensures size == 0 ==> !ok
      ensures old(dir.Searchable()) && Scan(old(dir.Slots()), dname).found.Some? ==> !ok
      ensures ok ==> fileSize == size && !vol.cacheDirty && flags == Kept(CREATE_NEW)
      ensures ok ==>
        && IsFile() && Contiguous(vol.geo, vol.fat, firstCluster, ClustersFor(vol.geo, size as nat))
        && dirBlock < |vol.blocks|
        && EntryAt(vol.Disk()[dirBlock], dirIndex).fileSize == size
        && FirstCluster(EntryAt(vol.Disk()[dirBlock], dirIndex)) == firstCluster
      ensures ok && old(dir.Searchable()) ==> EntryAt(vol.Disk()[dirBlock], dirIndex).name == dname
      ensures !runFound ==> !ok
      ensures runFound ==> created
      ensures created ==> size != 0
      ensures old(dir.Searchable()) && size != 0 ==>
        var s := Scan(old(dir.Slots()), dname);
        s.found.None? && s.vacant.Some? ==> created
      ensures created && !runFound && old(dir.Searchable()) ==>
        && ftype == Closed && NoFreeRun(vol.fat, ClustersFor(vol.geo, size as nat))
        && dirBlock < |vol.blocks| && Vacant(EntryAt(vol.Disk()[dirBlock], dirIndex))
    {
      created, runFound := false, false;
      if size == 0 {
        return false, created, runFound;
      }
      ghost var good := dir.Searchable();
      ghost var s := if good then Scan(dir.Slots(), dname) else Search(None, None);
      ghost var links;
      ok, links := OpenName(dir, dname, CREATE_NEW);
      if !ok {
        return;
      }
      created := true;
      if good {
        assert s.found.None?;
        assert fileSize == 0 && firstCluster == 0 && dirBlock < |vol.blocks|;
        assert flags.write && vol.Flushable();
      }
      ghost var fat := vol.fat;
      ok, runFound := AllocateRun(this, size);
      if good && !runFound {
        assert NoFreeRun(fat, ClustersFor(vol.geo, size as nat));
      }
    }

    /**
     * contiguousRange: when the file's chain is one run of consecutive
     * clusters, the first and last device block of the run (the last in
     * 32-bit arithmetic); fails for a file without clusters, for a chain
     * that jumps, and for a link off the table.
     */
    method ContiguousRange() returns (ok: bool, bgnBlock: uint32, endBlock: uint32, ghost count: nat)
      requires Valid()
      ensures ok ==> firstCluster != 0 && Contiguous(vol.geo, vol.fat, firstCluster, count)
      ensures ok ==> bgnBlock == ClusterStartBlock(vol.geo, firstCluster)
                     && endBlock as nat == LastBlock(vol.geo, (firstCluster as nat + count - 1) as uint32)
      ensures forall n :: firstCluster != 0 && Contiguous(vol.geo, vol.fat, firstCluster, n) ==> ok && count == n
    {
      if firstCluster == 0 {
        return false, 0, 0, 0;
      }
      var c := firstCluster;
      while true
        invariant firstCluster <= c && (c == firstCluster || c as nat <= |vol.fat|)
        invariant forall i :: firstCluster as nat <= i < c as nat ==> vol.fat[i] as nat == i + 1
        invariant forall n :: Contiguous(vol.geo, vol.fat, firstCluster, n) ==> c as nat <= firstCluster as nat + n - 1
        decreases UINT32_LIMIT - c as nat
      {
        var got, next := vol.FatGet(c);
        if !got {
          return false, 0, 0, 0;
        }
        if next != c + 1 {
          if !IsEOC(vol.geo, next as nat) {
            return false, 0, 0, 0;
          }
          count := (c - firstCluster) as nat + 1;
          bgnBlock := ClusterStartBlock(vol.geo, firstCluster);
          endBlock := LastBlock(vol.geo, c) as uint32;
          return true, bgnBlock, endBlock, count;
        }
        c := c + 1;
      }
    }

    // --------------------------------------------------------------- write

    /** The handle is a normal file whose fields hold together, wherever its cursor is (write moves it past the end before the size catches up). */
    ghost predicate Writing()
      reads this, vol
    {
      vol.Valid() && dirIndex < ENTRIES_PER_BLOCK && ftype == Normal
    }

    /**
     * write(buf, nbyte): writes nbyte bytes of src at the cursor (at the end
     * of the file when it was opened for appending), growing the chain as
     * needed; the size becomes the larger of the old size and the new
     * cursor, and the entry is marked dirty when the size grows or, with a
     * date/time source, on any non-empty write; synced for O_SYNC. The
     * count comes back as an int16_t (negative from 32768 bytes on); -1 and
     * writeError on failure, and the ghost done says which. On a file whose
     * chain is well formed, a write that does not wrap the 32-bit cursor
     * leaves the bytes on the device from its start byte on, provided they
     * lie on different blocks (and, for O_SYNC, not on the entry's block),
     * and changes no other block.
     */
    method Write(src: seq<byte>, nbyte: uint16) returns (r: int, ghost done: bool)
      requires Valid() && nbyte as nat <= |src|
      modifies this`curPosition, this`curCluster, this`firstCluster, this`fileSize, this`flags, this`writeError, vol
      ensures vol.Valid() && ftype == old(ftype) && dirBlock == old(dirBlock) && dirIndex == old(dirIndex)
      ensures |vol.fat| == |old(vol.fat)| && |vol.blocks| == |old(vol.blocks)|
      ensures r == if done then AsInt16(nbyte) else -1
      ensures !done ==> writeError
      ensures !old(IsFile() && flags.write) ==>
        !done && Meta() == old(Meta()).(writeError := true) && curPosition == old(curPosition) && vol.fat == old(vol.fat)
      ensures done ==> Valid() && writeError == old(writeError)
      ensures done ==> curPosition as nat == (old(WriteStart()) + nbyte as nat) % UINT32_LIMIT
      ensures done ==> fileSize == Max(old(fileSize) as int, curPosition as int) as uint32
      ensures done && !old(flags.sync) && (curPosition > old(fileSize) || (vol.dateTime.Some? && nbyte > 0)) ==> flags.dirDirty
      ensures done && old(flags.sync) ==> !flags.dirDirty && !vol.cacheDirty
      ensures done && old(WellShaped()) && old(WriteStart()) + nbyte as nat < UINT32_LIMIT ==> WellShaped() && Positioned()
      ensures done && old(WellShaped()) && old(WriteStart()) + nbyte as nat < UINT32_LIMIT ==>
        Landed(Map(), old(vol.Disk()), vol.Disk(), old(WriteStart()), src[..nbyte], old(flags.sync), dirBlock)
    {
      if !IsFile() || !flags.write {
        writeError := true;
        return -1, false;
      }
      ghost var good := WellShaped() && WriteStart() + nbyte as nat < UINT32_LIMIT;
      ghost var n: nat := 0;
      if good {
        n :| Shaped(n);
      }
      var ok;
      ghost var n';
      ok, n' := WriteFrom(src, nbyte, n, good);
      if !ok {
        writeError := true;
        return -1, false;
      }
      r, done := AsInt16(nbyte), true;
    }

    /** The byte write starts at: the end of the file when it was opened for appending, the cursor otherwise. */
    function WriteStart(): nat
      reads this
    {
      if flags.append then fileSize as nat else curPosition as nat
    }

    /** The file's chain is well formed with n clusters and covers its size, and the cursor is on it. */
    ghost predicate Shaped(n: nat)
      reads this, vol
    {
      ShapedAt(Map(), n, curPosition as nat, curCluster, fileSize as nat)
    }

    /** The file's chain is well formed, covers its size, and holds the cursor. */
    ghost predicate WellShaped()
      reads this, vol
    {
      exists n: nat :: Shaped(n)
    }

    /** The work of write on a file open for writing: the seek to the end for O_APPEND, the bytes, the size and the sync. */
    method WriteFrom(src: seq<byte>, nbyte: uint16, ghost n: nat, ghost good: bool) returns (ok: bool, ghost n': nat)
      requires Valid() && IsFile() && flags.write && nbyte as nat <= |src|
      requires good ==> Shaped(n) && WriteStart() + nbyte as nat < UINT32_LIMIT
      modifies this`curPosition, this`curCluster, this`firstCluster, this`fileSize, this`flags, this`writeError, vol
      ensures Writing() && dirBlock == old(dirBlock) && dirIndex == old(dirIndex)
      ensures |vol.fat| == |old(vol.fat)| && |vol.blocks| == |old(vol.blocks)|
      ensures ok ==> Valid() && writeError == old(writeError)
      ensures ok ==> curPosition as nat == (old(WriteStart()) + nbyte as nat) % UINT32_LIMIT
      ensures ok ==> fileSize == Max(old(fileSize) as int, curPosition as int) as uint32
      ensures ok && !old(flags.sync) && (curPosition > old(fileSize) || (vol.dateTime.Some? && nbyte > 0)) ==> flags.dirDirty
      ensures ok && old(flags.sync) ==> !flags.dirDirty && !vol.cacheDirty
      ensures ok && good ==> n <= n' && Shaped(n')
      ensures ok && good ==> Landed(Map(), old(vol.Disk()), vol.Disk(), old(WriteStart()), src[..nbyte], old(flags.sync), dirBlock)
    {
      n' := n;
      ok := SeekAppend(nbyte, n, good);
      if !ok {
        return;
      }
      ghost var m, d, pos, cur, size;
      ok, n', m, d, pos, cur, size := WriteSettle(src, nbyte, n, good);
    }

    /** For O_APPEND, the cursor moves to the end of the file, where write starts. */
    method SeekAppend(nbyte: uint16, ghost n: nat, ghost good: bool) returns (ok: bool)
      requires Valid() && IsFile() && flags.write
      requires good ==> Shaped(n) && WriteStart() + nbyte as nat < UINT32_LIMIT
      modifies this`curPosition, this`curCluster
      ensures Valid()
      ensures ok ==> curPosition as nat == old(WriteStart())
      ensures ok && good ==> Shaped(n) && curPosition as nat + nbyte as nat < UINT32_LIMIT
    {
      ok := true;
      if flags.append && curPosition != fileSize {
        ok := SeekSet(fileSize);
      }
    }

    /**
     * write from the cursor on: the bytes, then the size and the sync; m
     * and d are the layout and the device afterwards, pos, cur and size
     * the cursor and the size.
     */
    method WriteSettle(src: seq<byte>, nbyte: uint16, ghost n: nat, ghost good: bool)
      returns (ok: bool, ghost n': nat, ghost m: Layout, ghost d: seq<seq<byte>>, ghost pos: nat, ghost cur: uint32, ghost size: nat)
      requires Valid() && IsFile() && flags.write && nbyte as nat <= |src|
      requires good ==> Shaped(n) && curPosition as nat + nbyte as nat < UINT32_LIMIT
      modifies this`curPosition, this`curCluster, this`firstCluster, this`fileSize, this`flags, this`writeError, vol
      ensures Writing() && dirBlock == old(dirBlock) && dirIndex == old(dirIndex)
      ensures |vol.fat| == |old(vol.fat)| && |vol.blocks| == |old(vol.blocks)|
      ensures ok ==> Valid() && writeError == old(writeError) && m == Map() && d == vol.Disk()
      ensures ok ==> pos == curPosition as nat && cur == curCluster && size == fileSize as nat
      ensures ok ==> curPosition as nat == (old(curPosition) as nat + nbyte as nat) % UINT32_LIMIT
      ensures ok ==> fileSize == Max(old(fileSize) as int, curPosition as int) as uint32
      ensures ok && !old(flags.sync) && (curPosition > old(fileSize) || (vol.dateTime.Some? && nbyte > 0)) ==> flags.dirDirty
      ensures ok && old(flags.sync) ==> !flags.dirDirty && !vol.cacheDirty
      ensures ok && good ==> n <= n' && ShapedAt(m, n', pos, cur, size)
      ensures ok && good ==> Landed(m, old(vol.Disk()), d, old(curPosition) as nat, src[..nbyte], old(flags.sync), dirBlock)
    {
      ghost var d1;
      ok, n', m, d1, pos, cur, size := ChunksShaped(src, nbyte, n, good);
      d := d1;
      if !ok {
        return;
      }
      ok, d := SettleLanded(nbyte, good, m, old(vol.Disk()), d1, old(curPosition) as nat, src);
    }

    /** write's loop, then the chain still covers the size the file will have. */
    method ChunksShaped(src: seq<byte>, nbyte: uint16, ghost n: nat, ghost good: bool)
      returns (ok: bool, ghost n': nat, ghost m: Layout, ghost d: seq<seq<byte>>, ghost pos: nat, ghost cur: uint32, ghost size: nat)
      requires Valid() && IsFile() && flags.write && nbyte as nat <= |src|
      requires good ==> Shaped(n) && curPosition as nat + nbyte as nat < UINT32_LIMIT
      modifies this`curPosition, this`curCluster, this`firstCluster, this`flags, vol
      ensures Writing() && |vol.fat| == |old(vol.fat)| && |vol.blocks| == |old(vol.blocks)|
      ensures flags == old(flags) || flags == old(flags).(dirDirty := true)
      ensures m == Map() && d == vol.Disk() && pos == curPosition as nat && cur == curCluster
      ensures size == Max(fileSize as nat, pos)
      ensures ok ==> curPosition as nat == (old(curPosition) as nat + nbyte as nat) % UINT32_LIMIT
      ensures ok && good ==> n <= n' && ShapedAt(m, n', pos, cur, size)
      ensures ok && good ==> Progress(m, old(vol.Disk()), d, old(curPosition) as nat, src, nbyte as nat)
    {
      ghost var size0 := fileSize as nat;
      ok, n', m, d := WriteChunks(src, nbyte, n, good);
      pos, cur := curPosition as nat, curCluster;
      size := Max(size0, pos);
      if ok && good {
        SizeCovered(m, n', pos, cur, size0, size);
      }
    }

    /** The end of write with what write's loop left on the device: the bytes have landed. */
    method SettleLanded(nbyte: uint16, ghost good: bool, ghost m: Layout, ghost d0: seq<seq<byte>>, ghost d1: seq<seq<byte>>,
                        ghost start: nat, ghost src: seq<byte>)
      returns (ok: bool, ghost d: seq<seq<byte>>)
      requires Writing() && d1 == vol.Disk() && m == Map()
      requires good ==> Progress(m, d0, d1, start, src, nbyte as nat)
      modifies this`fileSize, this`flags, this`writeError, vol
      ensures Writing() && |vol.fat| == |old(vol.fat)| && |vol.blocks| == |old(vol.blocks)|
      ensures ok ==> m == Map() && d == vol.Disk()
      ensures ok ==> Valid() && writeError == old(writeError)
      ensures ok ==> fileSize == Max(old(fileSize) as int, curPosition as int) as uint32
      ensures ok && !old(flags.sync) && (curPosition > old(fileSize) || (vol.dateTime.Some? && nbyte > 0)) ==> flags.dirDirty
      ensures ok && old(flags.sync) ==> !flags.dirDirty && !vol.cacheDirty
      ensures ok && good ==> Landed(m, d0, d, start, src[..nbyte], old(flags.sync), dirBlock)
    {
      ghost var sync := flags.sync;
      ok := Settle(nbyte);
      d := vol.Disk();
      if ok && good {
        WriteLands(m, d0, d1, d, start, src, nbyte as nat, sync, dirBlock);
      }
    }

    /**
     * The end of write: the size catches up with the cursor and the entry
     * is marked dirty when it grows, or on any non-empty write when a
     * date/time source is set; then the sync for O_SYNC.
     */
    method Settle(nbyte: uint16) returns (ok: bool)
      requires Writing()
      modifies this`fileSize, this`flags, this`writeError, vol
      ensures Writing() && |vol.fat| == |old(vol.fat)| && |vol.blocks| == |old(vol.blocks)|
      ensures ok ==> vol.fat == old(vol.fat)
      ensures ok ==> if old(flags.sync) then OnlyBlock(old(vol.Disk()), vol.Disk(), dirBlock) else vol.Disk() == old(vol.Disk())
      ensures ok ==> Valid() && writeError == old(writeError)
      ensures ok ==> fileSize == Max(old(fileSize) as int, curPosition as int) as uint32
      ensures ok && !old(flags.sync) && (curPosition > old(fileSize) || (vol.dateTime.Some? && nbyte > 0)) ==> flags.dirDirty
      ensures ok && old(flags.sync) ==> !flags.dirDirty && !vol.cacheDirty
    {
      if curPosition > fileSize {
        fileSize := curPosition;
        flags := flags.(dirDirty := true);
      } else if vol.dateTime.Some? && nbyte > 0 {
        flags := flags.(dirDirty := true);
      }
      ok := true;
      if flags.sync {
        ok := Sync();
      }
    }

    /**
     * The loop of write: nbyte bytes of src go to the file from the cursor
     * on, one block (or part of a block) at a time; the cursor advances in
     * 32-bit arithmetic. On failure the cursor is left after the bytes
     * written so far.
     */
    method WriteChunks(src: seq<byte>, nbyte: uint16, ghost n: nat, ghost good: bool)
      returns (ok: bool, ghost n': nat, ghost m: Layout, ghost d: seq<seq<byte>>)
      requires Writing() && nbyte as nat <= |src|
      requires good ==> WriteCursor(Map(), n, curPosition as nat, curCluster) && curPosition as nat + nbyte as nat < UINT32_LIMIT
      modifies this`curPosition, this`curCluster, this`firstCluster, this`flags, vol
      ensures Writing() && |vol.fat| == |old(vol.fat)| && |vol.blocks| == |old(vol.blocks)|
      ensures flags == old(flags) || flags == old(flags).(dirDirty := true)
      ensures ok ==> curPosition as nat == (old(curPosition) as nat + nbyte as nat) % UINT32_LIMIT
      ensures m == Map() && d == vol.Disk()
      ensures ok && good ==> n <= n' && WriteCursor(m, n', curPosition as nat, curCluster)
      ensures ok && good ==> Progress(m, old(vol.Disk()), d, old(curPosition) as nat, src, nbyte as nat)
    {
      n' := n;
      ghost var start, d0 := curPosition as nat, vol.Disk();
      m, d := Map(), d0;
      ProgressStart(m, d0, start, src);
      var nToWrite: uint16 := nbyte;
      var at: nat := 0;
      while nToWrite > 0
        invariant Writing() && |vol.fat| == |old(vol.fat)| && |vol.blocks| == |old(vol.blocks)|
        invariant flags == old(flags) || flags == old(flags).(dirDirty := true)
        invariant at + nToWrite as nat == nbyte as nat
        invariant curPosition as nat == (old(curPosition) as nat + at) % UINT32_LIMIT
        invariant m == Map() && d == vol.Disk()
        invariant good ==> n <= n' && Wrote(m, n', d0, d, start, src, at, curPosition as nat, curCluster)
        decreases nToWrite
      {
        ok, at, nToWrite, n', m, d := WriteMore(src, at, nToWrite, n', good, old(curPosition) as nat, d0, start, m, d);
        if !ok {
          return;
        }
      }
      ok := true;
    }

    /**
     * One round of write's loop: WriteStep on the nToWrite bytes of src from
     * at on, with m and d the layout and the disk; at' and rest are at and
     * nToWrite after it.
     */
    method WriteMore(src: seq<byte>, at: nat, nToWrite: uint16, ghost n: nat, ghost good: bool, ghost p0: nat,
                     ghost d0: seq<seq<byte>>, ghost start: nat, ghost m: Layout, ghost d: seq<seq<byte>>)
      returns (ok: bool, at': nat, rest: uint16, ghost n': nat, ghost m': Layout, ghost d': seq<seq<byte>>)
      requires Writing() && 0 < nToWrite && at + nToWrite as nat <= |src| && m == Map() && d == vol.Disk()
      requires curPosition as nat == (p0 + at) % UINT32_LIMIT
      requires good ==> start + at + nToWrite as nat < UINT32_LIMIT && Wrote(m, n, d0, d, start, src, at, curPosition as nat, curCluster)
      modifies this`curPosition, this`curCluster, this`firstCluster, this`flags, vol
      ensures Writing() && |vol.fat| == |old(vol.fat)| && |vol.blocks| == |old(vol.blocks)| && m' == Map() && d' == vol.Disk()
      ensures flags == old(flags) || flags == old(flags).(dirDirty := true)
      ensures ok ==> at' + rest as nat == at + nToWrite as nat && rest < nToWrite && curPosition as nat == (p0 + at') % UINT32_LIMIT
      ensures ok && good ==> n <= n' && Wrote(m', n', d0, d', start, src, at', curPosition as nat, curCluster)
    {
      ghost var pos, cur, part := curPosition as nat, curCluster, src[at..at + nToWrite as nat];
      var w;
      ok, w, n', m', d' := WriteStep(src[at..at + nToWrite as nat], n, good, m, d);
      if !ok {
        return false, at, nToWrite, n', m', d';
      }
      at', rest := at + w, nToWrite - w as uint16;
      if good {
        StepWrote(m, m', n, n', d0, d, d', start, src, at, part, w, at', pos, curPosition as nat, cur, curCluster);
      }
      ModAdd(p0, at, w);
    }

    /**
     * One round of the loop of write: the bytes of src that fit in the
     * block of the cursor (entering the next cluster at a cluster start)
     * are written, and the cursor moves past them.
     */
    method WriteStep(src: seq<byte>, ghost n: nat, ghost good: bool, ghost m: Layout, ghost d: seq<seq<byte>>)
      returns (ok: bool, w: nat, ghost n': nat, ghost m': Layout, ghost d': seq<seq<byte>>)
      requires Writing() && 0 < |src| < UINT16_LIMIT && m == Map() && d == vol.Disk()
      requires good ==> WriteCursor(m, n, curPosition as nat, curCluster) && curPosition as nat + |src| < UINT32_LIMIT
      modifies this`curPosition, this`curCluster, this`firstCluster, this`flags, vol
      ensures Writing() && |vol.fat| == |old(vol.fat)| && |vol.blocks| == |old(vol.blocks)| && m' == Map() && d' == vol.Disk()
      ensures flags == old(flags) || flags == old(flags).(dirDirty := true)
      ensures ok ==> 0 < w <= |src| && curPosition as nat == (old(curPosition) as nat + w) % UINT32_LIMIT
      ensures ok && good ==> n <= n' && WriteCursor(m', n', curPosition as nat, curCluster)
      ensures ok && good ==> Stepped(m, m', d, d', old(curPosition) as nat, src[..w])
    {
      ok, n' := ReachCluster(n, good);
      m', d' := Map(), vol.Disk();
      if !ok {
        return false, 0, n', m', d';
      }
      ok, w := PutStep(src, n', good);
      m', d' := Map(), vol.Disk();
    }

    /**
     * The cluster part of write's step: at a cluster start the next cluster
     * is entered (EnterCluster); elsewhere the cursor's cluster already
     * holds the byte at the cursor.
     */
    method ReachCluster(ghost n: nat, ghost good: bool) returns (ok: bool, ghost n': nat)
      requires Writing()
      requires good ==> WriteCursor(Map(), n, curPosition as nat, curCluster)
      modifies this`curCluster, this`firstCluster, this`flags, vol
      ensures Writing() && |vol.fat| == |old(vol.fat)| && |vol.blocks| == |old(vol.blocks)|
      ensures flags == old(flags) || flags == old(flags).(dirDirty := true)
      ensures vol.Disk() == old(vol.Disk())
      ensures ok && good ==> n <= n' && WriteOn(Map(), n', curPosition as nat, curCluster)
      ensures ok && good ==> SameBelow(old(Map()), Map(), curPosition as nat)
    {
      n' := n;
      IndexOfZero(vol.geo);
      if BlockOfCluster(vol.geo, curPosition as nat) == 0 && curPosition as nat % BLOCK_SIZE == 0 {
        ok, n' := EnterCluster(n, good);
      } else {
        ok := true;
        if good {
          StayOnChain(Map(), n, curPosition as nat, curCluster);
        }
      }
    }

    /**
     * The block part of write's step: the bytes of src that fit in the rest
     * of the cursor's block go to the block blockOfCluster of the cursor's
     * cluster, and the cursor moves past them.
     */
    method PutStep(src: seq<byte>, ghost n: nat, ghost good: bool) returns (ok: bool, w: nat)
      requires Writing() && 0 < |src| < UINT16_LIMIT
      requires good ==> WriteOn(Map(), n, curPosition as nat, curCluster) && curPosition as nat + |src| < UINT32_LIMIT
      modifies this`curPosition, vol
      ensures Writing() && vol.fat == old(vol.fat) && |vol.blocks| == |old(vol.blocks)|
      ensures ok ==> 0 < w <= |src| && curPosition as nat == (old(curPosition) as nat + w) % UINT32_LIMIT
      ensures ok && good ==> WriteCursor(Map(), n, curPosition as nat, curCluster)
      ensures ok && good ==> Placed(Map(), old(vol.Disk()), vol.Disk(), old(curPosition) as nat, src[..w])
    {
      var blockOfCluster := BlockOfCluster(vol.geo, curPosition as nat);
      var blockOffset := curPosition as nat % BLOCK_SIZE;
      w := Min(BLOCK_SIZE - blockOffset, |src|);
      var block := ((ClusterStartBlock(vol.geo, curCluster) as nat + blockOfCluster) % UINT32_LIMIT) as uint32;
      var next := ((curPosition as nat + w) % UINT32_LIMIT) as uint32;
      ghost var m := Map();
      if good {
        AdvanceOnChain(m, n, curPosition as nat, w, curCluster);
        assert next as nat == curPosition as nat + w;
      }
      ok := PutChunk(vol, block, blockOffset, src[..w], curPosition >= fileSize);
      if !ok {
        return;
      }
      assert Map() == m;
      curPosition := next;
    }

    /**
     * The step of write at the start of a cluster: the file's first
     * cluster (allocated when the file has none), or the next one of the
     * chain (allocated at the end of the chain).
     */
    method EnterCluster(ghost n: nat, ghost good: bool) returns (ok: bool, ghost n': nat)
      requires Writing() && curPosition as nat % BLOCK_SIZE == 0 && BlockOfCluster(vol.geo, curPosition as nat) == 0
      requires good ==> WriteCursor(Map(), n, curPosition as nat, curCluster)
      modifies this`curCluster, this`firstCluster, this`flags, vol
      ensures Writing() && |vol.fat| == |old(vol.fat)| && |vol.blocks| == |old(vol.blocks)|
      ensures flags == old(flags) || flags == old(flags).(dirDirty := true)
      ensures vol.Disk() == old(vol.Disk())
      ensures ok && good ==> n <= n' && WriteOn(Map(), n', curPosition as nat, curCluster)
      ensures ok && good ==> SameBelow(old(Map()), Map(), curPosition as nat)
    {
      n' := n;
      ghost var m := Map();
      if good {
        CursorCluster(m, n, curPosition as nat, curCluster);
      }
      if curCluster == 0 {
        if firstCluster == 0 {
          ok := AddCluster();
          if ok && good {
            NewChain(m, curCluster, vol.fat);
            n' := 1;
          }
        } else {
          curCluster := firstCluster;
          ok := true;
          if good {
            StartOnChain(m, n);
          }
        }
      } else {
        var next;
        ok, next := vol.FatGet(curCluster);
        if !ok {
          return;
        }
        if IsEOC(vol.geo, next) {
          ghost var cur := curCluster;
          ok := AddCluster();
          if ok && good {
            GrowChain(m, n, curPosition as nat, cur, curCluster, vol.fat);
            n' := n + 1;
          }
        } else {
          if good {
            FollowChain(m, n, curPosition as nat, curCluster);
          }
          curCluster := next;
        }
      }
    }
  }

  /** The chain of m is well formed with n clusters, holds the cursor (pos, cur) and covers a file of size bytes. */
  ghost predicate ShapedAt(m: Layout, n: nat, pos: nat, cur: uint32, size: nat) {
    WriteCursor(m, n, pos, cur) && (size == 0 || ClusterIndex(m.g, size - 1) < n)
  }

  /** When the size catches up with the cursor, the chain still covers it. */
  lemma SizeCovered(m: Layout, n: nat, pos: nat, cur: uint32, size0: nat, size: nat)
    requires WriteCursor(m, n, pos, cur)
    requires size0 == 0 || ClusterIndex(m.g, size0 - 1) < n
    requires size == Max(size0, pos)
    ensures ShapedAt(m, n, pos, cur, size)
  {
  }

  /**
   * What a write of s from byte start of the file leaves on the device d,
   * from d0: if the bytes lie on different blocks (and, when sync is set,
   * not on block dir) d holds them; every block none of them lies on
   * (other than dir when sync is set) is as in d0.
   */
  ghost predicate Landed(m: Layout, d0: seq<seq<byte>>, d: seq<seq<byte>>, start: nat, s: seq<byte>, sync: bool, dir: uint32) {
    var end := start + |s|;
    && (DistinctBlocks(m, start, end) && (sync ==> Avoids(m, start, end, dir)) ==> Holds(m, d, start, s))
    && Untouched(m, start, end, d0, d, if sync then {dir} else {})
  }

  /** The loop's progress over all nbyte bytes, then the sync's write of block dir, is a landed write. */
  lemma WriteLands(m: Layout, d0: seq<seq<byte>>, d1: seq<seq<byte>>, d2: seq<seq<byte>>, start: nat, src: seq<byte>,
                   nbyte: nat, sync: bool, dir: uint32)
    requires Progress(m, d0, d1, start, src, nbyte)
    requires if sync then OnlyBlock(d1, d2, dir) else d2 == d1
    ensures Landed(m, d0, d2, start, src[..nbyte], sync, dir)
  {
    if sync && DistinctBlocks(m, start, start + nbyte) && Avoids(m, start, start + nbyte, dir) {
      HoldsOffBlock(m, d1, d2, start, src[..nbyte], dir);
    }
  }

  /** write's loop after its first at bytes from byte start: the cursor (pos, cur) is past them on a well-formed chain of n clusters, and Progress holds. */
  ghost predicate Wrote(m: Layout, n: nat, d0: seq<seq<byte>>, d: seq<seq<byte>>, start: nat, src: seq<byte>, at: nat, pos: nat, cur: uint32) {
    pos == start + at && WriteCursor(m, n, pos, cur) && Progress(m, d0, d, start, src, at)
  }

  /** One round of write's loop, from the cursor (pos, cur) to (pos', cur'), keeps Wrote. */
  lemma StepWrote(m: Layout, m': Layout, n: nat, n': nat, d0: seq<seq<byte>>, d: seq<seq<byte>>, d': seq<seq<byte>>, start: nat,
                  src: seq<byte>, at: nat, part: seq<byte>, w: nat, at': nat, pos: nat, pos': nat, cur: uint32, cur': uint32)
    requires Wrote(m, n, d0, d, start, src, at, pos, cur)
    requires at + |part| <= |src| && part == src[at..at + |part|] && start + at + |part| < UINT32_LIMIT
    requires 0 < w <= |part| && at' == at + w
    requires Stepped(m, m', d, d', pos, part[..w])
    requires WriteCursor(m', n', pos', cur') && pos' == (pos + w) % UINT32_LIMIT
    ensures Wrote(m', n', d0, d', start, src, at', pos', cur')
  {
    ProgressStep(m, m', d0, d, d', start, src, at, part, w, at');
    CursorStep(start, at, w, at', pos, pos');
  }

  /** The cursor w bytes past start + at is at start + at', at' = at + w, when that is below 2^32. */
  lemma CursorStep(start: nat, at: nat, w: nat, at': nat, pos: nat, pos': nat)
    requires pos == start + at && at' == at + w && start + at' < UINT32_LIMIT && pos' == (pos + w) % UINT32_LIMIT
    ensures pos' == start + at'
  {
    SmallMod(pos + w);
  }

  /** A position below 2^32 is its own 32-bit value. */
  lemma SmallMod(p: nat)
    requires p < UINT32_LIMIT
    ensures p % UINT32_LIMIT == p
  {
  }

  /** Adding in 32-bit arithmetic step by step. */
  lemma ModAdd(p: nat, a: nat, n: nat)
    ensures ((p + a) % UINT32_LIMIT + n) % UINT32_LIMIT == (p + a + n) % UINT32_LIMIT
  {
  }

  // ------------------------------------------------- what write leaves on the device

  /** w is a cluster of the table other than the reserved clusters 0 and 1. */
  predicate InTable(fat: seq<uint32>, w: Option<uint32>) {
    w.Some? && 2 <= w.value && w.value as nat < |fat|
  }

  /**
   * The file's chain is well formed with n clusters: a file without a first
   * cluster has none; otherwise the chain from the first cluster ends after
   * exactly n links, through n pairwise different clusters of the table.
   */
  ghost predicate ChainOf(m: Layout, n: nat) {
    && !m.rootFixed
    && (m.first == 0 ==> n == 0)
    && (m.first != 0 ==>
          && ChainLinks(m.g, m.fat, m.first, n) && DistinctPrefix(m.fat, m.first, n)
          && forall j :: 0 <= j < n ==> InTable(m.fat, Walk(m.fat, m.first, j)))
  }

  /** The cursor (pos, cur) is consistent with a well-formed chain of n clusters that reaches byte pos - 1. */
  ghost predicate WriteCursor(m: Layout, n: nat, pos: nat, cur: uint32) {
    ChainOf(m, n) && Cursor(m, pos, cur) && (pos == 0 || ClusterIndex(m.g, pos - 1) < n)
  }

  /** cur is the cluster of a well-formed chain of n clusters that holds byte pos. */
  ghost predicate WriteOn(m: Layout, n: nat, pos: nat, cur: uint32) {
    ChainOf(m, n) && OnCluster(m, pos, cur) && ClusterIndex(m.g, pos) < n
  }

  /** The layouts m and m' put bytes 0 .. pos-1 of the file on the same blocks. */
  ghost predicate SameBelow(m: Layout, m': Layout, pos: nat) {
    forall q :: 0 <= q < pos ==> BlockAt(m', q) == BlockAt(m, q)
  }

  /** Bytes lo .. hi-1 of the file that lie in different 512-byte blocks of the file lie on different device blocks. */
  ghost predicate DistinctBlocks(m: Layout, lo: nat, hi: nat) {
    forall p, q :: lo <= p < hi && lo <= q < hi && p / BLOCK_SIZE != q / BLOCK_SIZE ==> BlockAt(m, p) != BlockAt(m, q)
  }

  /** No byte lo .. hi-1 of the file lies on device block b. */
  ghost predicate Avoids(m: Layout, lo: nat, hi: nat, b: uint32) {
    forall q :: lo <= q < hi ==> BlockAt(m, q) != Some(b)
  }

  /** disk' is disk with chunk stored at offset of block, the bytes of the block before offset kept and every other block unchanged. */
  ghost predicate Written(disk: seq<seq<byte>>, disk': seq<seq<byte>>, block: nat, offset: nat, chunk: seq<byte>) {
    && |disk'| == |disk| && block < |disk| && offset + |chunk| <= BLOCK_SIZE
    && |disk[block]| == BLOCK_SIZE && |disk'[block]| == BLOCK_SIZE
    && disk'[block][offset .. offset + |chunk|] == chunk
    && disk'[block][..offset] == disk[block][..offset]
    && disk' == disk[block := disk'[block]]
  }

  /**
   * chunk was written at byte p of the file: stored in the block holding p
   * when that block is on the device, and nothing changed when it is not.
   */
  ghost predicate Placed(m: Layout, disk: seq<seq<byte>>, disk': seq<seq<byte>>, p: nat, chunk: seq<byte>) {
    && BlockAt(m, p).Some? && p % BLOCK_SIZE + |chunk| <= BLOCK_SIZE
    && if BlockAt(m, p).value as nat < |disk| then Written(disk, disk', BlockAt(m, p).value as nat, p % BLOCK_SIZE, chunk)
       else disk' == disk
  }

  /** Only block b may differ between disk and disk'. */
  ghost predicate OnlyBlock(disk: seq<seq<byte>>, disk': seq<seq<byte>>, b: uint32) {
    |disk'| == |disk| && if b as nat < |disk| then disk' == disk[b as nat := disk'[b]] else disk' == disk
  }

  /**
   * What write has done after its first at bytes, from byte start of the
   * file: if those bytes lie on different device blocks, d holds them; and
   * every block none of them lies on is as in d0.
   */
  ghost predicate Progress(m: Layout, d0: seq<seq<byte>>, d: seq<seq<byte>>, start: nat, src: seq<byte>, at: nat) {
    && at <= |src|
    && (DistinctBlocks(m, start, start + at) ==> Holds(m, d, start, src[..at]))
    && Untouched(m, start, start + at, d0, d, {})
  }

  /** Byte 0 is in cluster 0 of the chain. */
  lemma IndexOfZero(g: Geometry)
    ensures ClusterIndex(g, 0) == 0 && BlockOfCluster(g, 0) == 0
  {
    ShiftIsDivMod(0, g.clusterSizeShift);
  }

  /** Past byte 0, the cursor's cluster is a cluster of the table other than 0 and 1, and the file has a first cluster. */
  lemma CursorCluster(m: Layout, n: nat, pos: nat, cur: uint32)
    requires WriteCursor(m, n, pos, cur)
    ensures pos > 0 ==> 2 <= cur && cur as nat < |m.fat| && m.first != 0
  {
    if pos > 0 {
      assert InTable(m.fat, Walk(m.fat, m.first, ClusterIndex(m.g, pos - 1)));
    }
  }

  /** Off a cluster start, the cluster of the cursor also holds byte pos. */
  lemma StayOnChain(m: Layout, n: nat, pos: nat, cur: uint32)
    requires WriteCursor(m, n, pos, cur) && pos > 0 && !(pos % BLOCK_SIZE == 0 && BlockOfCluster(m.g, pos) == 0)
    ensures WriteOn(m, n, pos, cur)
  {
    ClusterOfPrevious(m.g, pos);
  }

  /**
   * Writing w bytes of the block of pos from the cluster that holds pos:
   * the block is that cluster's block of pos, and afterwards the cursor is
   * on the same cluster.
   */
  lemma AdvanceOnChain(m: Layout, n: nat, pos: nat, w: nat, cur: uint32)
    requires WriteOn(m, n, pos, cur) && 0 < w && pos % BLOCK_SIZE + w <= BLOCK_SIZE
    ensures WriteCursor(m, n, pos + w, cur)
    ensures BlockAt(m, pos) == Some(((ClusterStartBlock(m.g, cur) as nat + BlockOfCluster(m.g, pos)) % UINT32_LIMIT) as uint32)
  {
    CursorAdvance(m, pos, w, cur);
    InBlock(pos, w - 1);
    SameBlock(m, pos, pos + w - 1);
  }

  /** At byte 0 of a file with clusters, the first cluster holds the byte. */
  lemma StartOnChain(m: Layout, n: nat)
    requires ChainOf(m, n) && m.first != 0
    ensures WriteOn(m, n, 0, m.first)
  {
    IndexOfZero(m.g);
  }

  /**
   * At a cluster start past byte 0, a successor of the cursor's cluster
   * that does not end the chain is the next cluster of the chain.
   */
  lemma FollowChain(m: Layout, n: nat, pos: nat, cur: uint32)
    requires WriteCursor(m, n, pos, cur) && pos > 0 && pos % BLOCK_SIZE == 0 && BlockOfCluster(m.g, pos) == 0
    requires cur as nat < |m.fat| && !IsEOC(m.g, m.fat[cur])
    ensures WriteOn(m, n, pos, m.fat[cur])
  {
    ClusterOfPrevious(m.g, pos);
    WalkNext(m.fat, m.first, ClusterIndex(m.g, pos - 1));
  }

  /** The first cluster allocated for a file without clusters is a chain of one cluster holding byte 0. */
  lemma NewChain(m: Layout, c: uint32, fat': seq<uint32>)
    requires !m.rootFixed && m.first == 0 && |m.fat| < EocMin(m.g)
    requires 2 <= c && c as nat < |m.fat| && m.fat[c] == 0 && fat' == Linked(m.g, m.fat, c as nat, 1, 0)
    ensures WriteOn(m.(fat := fat', first := c), 1, 0, c)
  {
    LinkedIsChain(m.g, m.fat, c as nat, 1, 0);
    IndexOfZero(m.g);
  }

  /** Layouts that agree on the walk up to the cluster of byte pos - 1 put bytes 0 .. pos-1 on the same blocks. */
  lemma SameBelowOfWalks(m: Layout, m': Layout, pos: nat)
    requires m'.g == m.g && m'.first == m.first && m'.rootFixed == m.rootFixed && pos > 0
    requires forall j :: 0 <= j <= ClusterIndex(m.g, pos - 1) ==> Walk(m'.fat, m.first, j) == Walk(m.fat, m.first, j)
    ensures SameBelow(m, m', pos)
  {
    forall q | 0 <= q < pos
      ensures BlockAt(m', q) == BlockAt(m, q)
    {
      ClusterIndexMonotone(m.g, q, pos - 1);
    }
  }

  /**
   * Linking a free cluster c after the last cluster cur (walk k) of a
   * well-formed chain changes no link before it: the table entries of the
   * clusters before cur are those of neither cur nor c.
   */
  lemma GrowKeepsWalk(m: Layout, n: nat, k: nat, cur: uint32, c: uint32, fat': seq<uint32>)
    requires ChainOf(m, n) && m.first != 0 && k < n && Walk(m.fat, m.first, k) == Some(cur) && |m.fat| < EocMin(m.g)
    requires 2 <= c && c as nat < |m.fat| && m.fat[c] == 0 && fat' == Linked(m.g, m.fat, c as nat, 1, cur as nat)
    ensures forall j :: 0 <= j <= k ==> Walk(fat', m.first, j) == Walk(m.fat, m.first, j)
  {
    forall j | 0 <= j < k
      ensures SameAt(m.fat, fat', Walk(m.fat, m.first, j))
    {
      WalkNext(m.fat, m.first, j);
      assert InTable(m.fat, Walk(m.fat, m.first, j + 1));
    }
    forall j | 0 <= j <= k
      ensures Walk(fat', m.first, j) == Walk(m.fat, m.first, j)
    {
      WalkFrame(m.fat, fat', m.first, j);
    }
  }

  /**
   * At a cluster start past byte 0 where the cursor's cluster ends the
   * chain, linking a free cluster c after it gives a well-formed chain of
   * n + 1 clusters whose last one, c, holds byte pos; bytes before pos stay
   * on their blocks.
   */
  lemma GrowChain(m: Layout, n: nat, pos: nat, cur: uint32, c: uint32, fat': seq<uint32>)
    requires WriteCursor(m, n, pos, cur) && pos > 0 && pos % BLOCK_SIZE == 0 && BlockOfCluster(m.g, pos) == 0
    requires cur as nat < |m.fat| && IsEOC(m.g, m.fat[cur]) && |m.fat| < EocMin(m.g)
    requires 2 <= c && c as nat < |m.fat| && m.fat[c] == 0 && fat' == Linked(m.g, m.fat, c as nat, 1, cur as nat)
    ensures WriteOn(m.(fat := fat'), n + 1, pos, c) && SameBelow(m, m.(fat := fat'), pos)
  {
    var k := ClusterIndex(m.g, pos - 1);
    var m' := m.(fat := fat');
    ClusterOfPrevious(m.g, pos);
    WalkNext(m.fat, m.first, k);
    assert k + 1 == n;
    GrowKeepsWalk(m, n, k, cur, c, fat');
    WalkNext(fat', m.first, k);
    WalkNext(fat', m.first, k + 1);
    forall j | 0 <= j <= k
      ensures Walk(m.fat, m.first, j) != Some(c)
    {
      if j < k {
        WalkNext(m.fat, m.first, j);
        assert InTable(m.fat, Walk(m.fat, m.first, j + 1));
      }
    }
    assert ChainLinks(m.g, fat', m.first, n + 1);
    assert DistinctPrefix(fat', m.first, n + 1);
    SameBelowOfWalks(m, m', pos);
  }

  /** A chunk written in place keeps the bytes already held before it, when all lie on different device blocks. */
  lemma HoldsKept(m: Layout, d: seq<seq<byte>>, d': seq<seq<byte>>, start: nat, s: seq<byte>, chunk: seq<byte>, hi: nat)
    requires Placed(m, d, d', start + |s|, chunk) && start + |s| < hi && DistinctBlocks(m, start, hi)
    requires Holds(m, d, start, s)
    ensures Holds(m, d', start, s)
  {
    var pos := start + |s|;
    var block := BlockAt(m, pos).value;
    forall i | 0 <= i < |s|
      ensures HoldsAt(m, d', start, s, i)
    {
      var q := start + i;
      assert HoldsAt(m, d, start, s, i);
      if block as nat < |d| && BlockAt(m, q) == Some(block) {
        assert q / BLOCK_SIZE == pos / BLOCK_SIZE;
        assert q % BLOCK_SIZE < pos % BLOCK_SIZE;
        assert d'[block][..pos % BLOCK_SIZE][q % BLOCK_SIZE] == d[block][..pos % BLOCK_SIZE][q % BLOCK_SIZE];
      }
    }
  }

  /** Every block of d0 outside except on which no byte lo .. hi-1 of the file lies is the same in d. */
  ghost predicate Untouched(m: Layout, lo: nat, hi: nat, d0: seq<seq<byte>>, d: seq<seq<byte>>, except: set<uint32>) {
    && |d| == |d0|
    && forall b: uint32 {:trigger Avoids(m, lo, hi, b)} :: b as nat < |d0| && b !in except && Avoids(m, lo, hi, b) ==> d[b] == d0[b]
  }

  /** Before write's loop nothing is written and nothing has changed. */
  lemma ProgressStart(m: Layout, d0: seq<seq<byte>>, start: nat, src: seq<byte>)
    ensures Progress(m, d0, d0, start, src, 0)
  {
  }

  /**
   * One step of write from byte pos: the bytes before pos stay on their
   * blocks, and chunk is placed at pos.
   */
  ghost predicate Stepped(m: Layout, m': Layout, d: seq<seq<byte>>, d': seq<seq<byte>>, pos: nat, chunk: seq<byte>) {
    SameBelow(m, m', pos) && Placed(m', d, d', pos, chunk)
  }

  /** One round of write's loop keeps Progress: the first w bytes of part, the rest of src, are placed after the bytes written so far. */
  lemma ProgressStep(m: Layout, m': Layout, d0: seq<seq<byte>>, d: seq<seq<byte>>, d': seq<seq<byte>>,
                     start: nat, src: seq<byte>, at: nat, part: seq<byte>, w: nat, at': nat)
    requires Progress(m, d0, d, start, src, at) && 0 < w <= |part| && at + |part| <= |src| && part == src[at..at + |part|]
    requires Stepped(m, m', d, d', start + at, part[..w]) && at' == at + w
    ensures Progress(m', d0, d', start, src, at')
  {
    assert part[..w] == src[at..at + w];
    HoldsStep(m, m', d, d', start, src, at, w);
    UntouchedStep(m, m', d0, d, d', start, at, src[at..at + w]);
  }

  /** The bytes held before a step are still held after it, with the step's chunk after them, when all lie on different blocks. */
  lemma HoldsStep(m: Layout, m': Layout, d: seq<seq<byte>>, d': seq<seq<byte>>, start: nat, src: seq<byte>, at: nat, w: nat)
    requires 0 < w && at + w <= |src| && (DistinctBlocks(m, start, start + at) ==> Holds(m, d, start, src[..at]))
    requires Stepped(m, m', d, d', start + at, src[at..at + w])
    ensures DistinctBlocks(m', start, start + at + w) ==> Holds(m', d', start, src[..at + w])
  {
    var pos := start + at;
    if DistinctBlocks(m', start, pos + w) {
      assert DistinctBlocks(m, start, pos);
      assert Holds(m', d, start, src[..at]) by {
        forall i | 0 <= i < at
          ensures HoldsAt(m', d, start, src[..at], i)
        {
          assert HoldsAt(m, d, start, src[..at], i);
        }
      }
      HoldsKept(m', d, d', start, src[..at], src[at..at + w], pos + w);
      HoldsBlock(m', d', pos, src[at..at + w], BlockAt(m', pos).value);
      HoldsGrow(m', d', start, src, at, w);
    }
  }

  /** A step changes only the block its chunk is placed on, so every block no byte so far lies on is still as it was. */
  lemma UntouchedStep(m: Layout, m': Layout, d0: seq<seq<byte>>, d: seq<seq<byte>>, d': seq<seq<byte>>, start: nat, at: nat,
                      chunk: seq<byte>)
    requires 0 < |chunk| && Untouched(m, start, start + at, d0, d, {})
    requires Stepped(m, m', d, d', start + at, chunk)
    ensures Untouched(m', start, start + at + |chunk|, d0, d', {})
  {
    var pos := start + at;
    forall b: uint32 | b as nat < |d0| && Avoids(m', start, pos + |chunk|, b)
      ensures d'[b] == d[b] == d0[b]
    {
      assert BlockAt(m', pos) != Some(b);
      assert Avoids(m, start, pos, b) by {
        forall q | start <= q < pos
          ensures BlockAt(m, q) != Some(b)
        {
          assert BlockAt(m', q) != Some(b);
        }
      }
    }
  }

  /** Bytes held on blocks other than b are still held when only block b changes. */
  lemma HoldsOffBlock(m: Layout, d: seq<seq<byte>>, d': seq<seq<byte>>, p: nat, s: seq<byte>, b: uint32)
    requires OnlyBlock(d, d', b) && Avoids(m, p, p + |s|, b) && Holds(m, d, p, s)
    ensures Holds(m, d', p, s)
  {
    forall i | 0 <= i < |s|
      ensures HoldsAt(m, d', p, s, i)
    {
      assert HoldsAt(m, d, p, s, i);
    }
  }

  /**
   * What read copies is what write stored: two byte strings of the same
   * length held from p, on blocks of the device, are equal.
   */
  lemma HoldsDetermines(m: Layout, disk: seq<seq<byte>>, p: nat, a: seq<byte>, b: seq<byte>)
    requires |a| == |b| && Holds(m, disk, p, a) && Holds(m, disk, p, b) && Resolves(m, |disk|, p, |a|)
    ensures a == b
  {
    forall i | 0 <= i < |a|
      ensures a[i] == b[i]
    {
      assert HoldsAt(m, disk, p, a, i) && HoldsAt(m, disk, p, b, i);
      assert OnDevice(m, |disk|, p + i);
    }
  }

  /**
   * The block write of write: a whole block goes straight to the device
   * (dropping it from the cache if the cache holds it); part of a block
   * goes through the cache, which takes the block without reading it when
   * the write starts a block past the end of the file.
   */
  method PutChunk(vol: Volume, block: uint32, offset: nat, chunk: seq<byte>, pastEnd: bool) returns (ok: bool)
    requires vol.Valid() && 0 < |chunk| && offset + |chunk| <= BLOCK_SIZE
    modifies vol
    ensures vol.Valid() && vol.fat == old(vol.fat) && |vol.blocks| == |old(vol.blocks)|
    ensures |chunk| == BLOCK_SIZE ==> (ok <==> block < |vol.blocks|) && vol.Disk() == if ok then old(vol.Disk())[block := chunk] else old(vol.Disk())
    ensures |chunk| < BLOCK_SIZE && ok && block < |vol.blocks| ==>
      vol.cacheBlock == block && vol.cacheDirty && vol.cacheData[offset..offset + |chunk|] == chunk
    ensures ok ==>
      if block as nat < |vol.blocks| then Written(old(vol.Disk()), vol.Disk(), block as nat, offset, chunk)
      else vol.Disk() == old(vol.Disk())
  {
    if |chunk| == BLOCK_SIZE {
      if vol.cacheBlock == block {
        vol.CacheSetBlockNumber(0xFFFF_FFFF, false);
      }
      ok := vol.WriteBlock(block, chunk);
    } else {
      if offset == 0 && pastEnd {
        ok := vol.CacheFlush();
        if !ok {
          return;
        }
        vol.CacheSetBlockNumber(block, true);
      } else {
        ok := vol.CacheRawBlock(block, true);
        if !ok {
          return;
        }
      }
      vol.CopyToCache(offset, chunk);
    }
  }


  /**
   * The freeing step of truncate, with the cursor at the new end: for
   * length 0 the whole chain from first goes and the file has no first
   * cluster; otherwise the chain is cut after cur.
   */
  method CutChain(vol: Volume, length: uint32, first: uint32, cur: uint32) returns (ok: bool, first': uint32)
    requires vol.Valid()
    modifies vol
    ensures vol.Valid() && vol.Disk() == old(vol.Disk()) && |vol.fat| == |old(vol.fat)| && |vol.blocks| == |old(vol.blocks)|
    ensures first' == if length == 0 then 0 else first
    ensures ok && (length == 0 || LastCluster(vol.geo, old(vol.fat), first, length, cur)) ==>
      ChainCut(vol.geo, old(vol.fat), first, length, vol.fat)
  {
    if length == 0 {
      var freed, k := vol.FreeChain(first);
      return freed, 0;
    }
    first' := first;
    var got, toFree := vol.FatGet(cur);
    if !got {
      return false, first';
    }
    if !IsEOC(vol.geo, toFree) {
      ghost var fat0 := vol.fat;
      var freed, k := vol.FreeChain(toFree);
      if !freed {
        return false, first';
      }
      ok := vol.FatPutEOC(cur);
      assert fat0[cur] == toFree;
    } else {
      ok := true;
    }
  }

  /**
   * fat' is fat after truncating the file starting at first to length
   * bytes: for length 0 the whole chain is freed, otherwise the chain is
   * cut after the cluster holding the last byte kept.
   */
  ghost predicate ChainCut(g: Geometry, fat: seq<uint32>, first: uint32, length: uint32, fat': seq<uint32>) {
    if length == 0 then
      (first == 0 ==> fat' == fat) &&
      (first != 0 ==> exists k :: ChainLinks(g, fat, first, k) && fat' == FreeAll(fat, ChainSet(fat, first, k)))
    else
      exists c: uint32 :: LastCluster(g, fat, first, length, c) && Trimmed(g, fat, c, fat')
  }

  /** A chain ends after one number of links only. */
  lemma ChainLinksUnique(g: Geometry, fat: seq<uint32>, c: uint32, a: nat, b: nat)
    requires ChainLinks(g, fat, c, a) && ChainLinks(g, fat, c, b)
    ensures a == b
  {
  }

  /**
   * When the chain from first ends after total links and the chain from
   * the successor of its n-th cluster c ends after k links, the two are the
   * same chain: total is n + 1 + k, and cluster n + 1 + j of the first is
   * cluster j of the second.
   */
  lemma ChainRest(g: Geometry, fat: seq<uint32>, first: uint32, total: nat, n: nat, c: uint32, k: nat)
    requires ChainLinks(g, fat, first, total) && n < total
    requires Walk(fat, first, n) == Some(c) && c < |fat| && !IsEOC(g, fat[c])
    requires ChainLinks(g, fat, fat[c], k)
    ensures total == n + 1 + k
    ensures forall j :: 0 <= j <= k ==> Walk(fat, first, n + 1 + j) == Walk(fat, fat[c], j)
  {
    WalkNext(fat, first, n);
    forall j | 0 <= j <= k
      ensures Walk(fat, first, n + 1 + j) == Walk(fat, fat[c], j)
    {
      WalkAdd(fat, first, n + 1, j);
    }
    forall j | 1 <= j < n + 1 + k
      ensures Walk(fat, first, j).Some? && !IsEOC(g, Walk(fat, first, j).value)
    {
      if j > n {
        assert Walk(fat, first, n + 1 + (j - n - 1)) == Walk(fat, fat[c], j - n - 1);
      }
    }
    assert Walk(fat, first, n + 1 + k) == Walk(fat, fat[c], k);
    ChainLinksUnique(g, fat, first, total, n + 1 + k);
  }

  /**
   * Truncating a well-formed chain (one whose clusters are pairwise
   * different) to length > 0 bytes that it covers leaves a chain of exactly
   * ClusterIndex(length - 1) + 1 clusters: the first ones of the old chain.
   */
  lemma TruncatedChain(g: Geometry, fat: seq<uint32>, first: uint32, total: nat, length: uint32, fat': seq<uint32>)
    requires |fat'| == |fat| && 0 < length
    requires ChainLinks(g, fat, first, total) && DistinctPrefix(fat, first, total)
    requires ClusterIndex(g, length as nat - 1) < total
    requires ChainCut(g, fat, first, length, fat')
    ensures ChainLinks(g, fat', first, ClusterIndex(g, length as nat - 1) + 1)
    ensures forall j :: 0 <= j <= ClusterIndex(g, length as nat - 1) ==> Walk(fat', first, j) == Walk(fat, first, j)
  {
    var n := ClusterIndex(g, length as nat - 1);
    var c: uint32 :| LastCluster(g, fat, first, length, c) && Trimmed(g, fat, c, fat');
    forall i | 0 <= i < n
      ensures SameAt(fat, fat', Walk(fat, first, i))
    {
      var w := Walk(fat, first, i);
      if w.Some? && w.value < |fat| {
        assert w.value != c;
        if fat[c] != 0 && !IsEOC(g, fat[c]) {
          var k :| ChainLinks(g, fat, fat[c], k) && fat' == FreeAll(fat, ChainSet(fat, fat[c], k))[c := EocMark(g)];
          ChainRest(g, fat, first, total, n, c, k);
        }
      }
    }
    forall j | 0 <= j <= n
      ensures Walk(fat', first, j) == Walk(fat, first, j)
    {
      WalkFrame(fat, fat', first, j);
    }
    WalkNext(fat', first, n);
  }

  /** The disk after sync rewrote slot index of block with the handle's size and first cluster. */
  ghost function SyncedDisk(disk: seq<seq<byte>>, block: uint32, index: nat, isDir: bool, size: uint32, first: uint32,
                            stamp: Option<Stamp>): seq<seq<byte>>
    requires block < |disk| && |disk[block]| == BLOCK_SIZE && index < ENTRIES_PER_BLOCK
  {
    disk[block := WithEntry(disk[block], index, Synced(EntryAt(disk[block], index), isDir, size, first, stamp))]
  }

  /** The disk after remove marked slot index of block deleted. */
  ghost function DeletedDisk(disk: seq<seq<byte>>, block: uint32, index: nat): (d: seq<seq<byte>>)
    requires block < |disk| && |disk[block]| == BLOCK_SIZE && index < ENTRIES_PER_BLOCK
    ensures |d| == |disk| && |d[block]| == BLOCK_SIZE
  {
    disk[block := WithEntry(disk[block], index, MarkDeleted(EntryAt(disk[block], index)))]
  }

  /**
   * After remove, slot index of block holds the deleted entry, a slot no
   * search by name matches and openNext skips, while every other slot and
   * every other block are as they were.
   */
  lemma DeletedDiskEntries(disk: seq<seq<byte>>, block: uint32, index: nat)
    requires block < |disk| && |disk[block]| == BLOCK_SIZE && index < ENTRIES_PER_BLOCK
    ensures var d := DeletedDisk(disk, block, index);
      && EntryAt(d[block], index) == MarkDeleted(EntryAt(disk[block], index))
      && Vacant(EntryAt(d[block], index)) && !Listed(EntryAt(d[block], index))
      && (forall j :: 0 <= j < ENTRIES_PER_BLOCK && j != index ==> EntryAt(d[block], j) == EntryAt(disk[block], j))
      && (forall b :: 0 <= b < |disk| && b != block ==> d[b] == disk[b])
  {
    var e := MarkDeleted(EntryAt(disk[block], index));
    forall j | 0 <= j < ENTRIES_PER_BLOCK
      ensures EntryAt(WithEntry(disk[block], index, e), j) == if j == index then e else EntryAt(disk[block], j)
    {
      WithEntryAt(disk[block], index, e, j);
    }
  }

  /** The entry update of remove: caches block for writing and marks its slot index deleted. */
  method DeleteEntry(vol: Volume, block: uint32, index: nat) returns (ok: bool)
    requires vol.Valid() && index < ENTRIES_PER_BLOCK
    modifies vol
    ensures vol.Valid() && vol.fat == old(vol.fat) && |vol.blocks| == |old(vol.blocks)|
    ensures ok <==> block == old(vol.cacheBlock) || (old(vol.Flushable()) && block < |vol.blocks|)
    ensures ok ==> vol.cacheBlock == block && vol.cacheDirty
    ensures ok && block < |vol.blocks| ==> vol.Disk() == DeletedDisk(old(vol.Disk()), block, index)
    ensures !ok ==> vol.Disk() == old(vol.Disk())
  {
    ok := vol.CacheRawBlock(block, true);
    if !ok {
      return;
    }
    vol.PutCachedEntry(index, MarkDeleted(EntryAt(vol.cacheData, index)));
  }

  /** The end of remove: marks file's entry deleted, closes file, and writes the entry back. */
  method Unlink(file: SdFile) returns (ok: bool)
    requires file.vol.Valid() && file.dirIndex < ENTRIES_PER_BLOCK
    modifies file`ftype, file.vol
    ensures file.vol.Valid() && file.vol.fat == old(file.vol.fat) && |file.vol.blocks| == |old(file.vol.blocks)|
    ensures ok ==> file.ftype == Closed && !file.vol.cacheDirty && file.dirBlock < |file.vol.blocks|
    ensures ok ==> file.vol.Disk() == DeletedDisk(old(file.vol.Disk()), file.dirBlock, file.dirIndex)
    ensures ok ==> Vacant(EntryAt(file.vol.Disk()[file.dirBlock], file.dirIndex))
    ensures old(file.vol.Flushable()) && file.dirBlock < |file.vol.blocks| ==> ok
  {
    ok := DeleteEntry(file.vol, file.dirBlock, file.dirIndex);
    if !ok {
      return;
    }
    file.ftype := Closed;
    ok := file.vol.CacheFlush();
    if ok {
      DeletedDiskEntries(old(file.vol.Disk()), file.dirBlock, file.dirIndex);
    }
  }

  /** The end of rmdir: the empty directory becomes a normal file open for writing, and is removed. */
  method RemoveEmpty(file: SdFile) returns (ok: bool)
    requires file.Valid()
    modifies file`curPosition, file`curCluster, file`firstCluster, file`fileSize, file`flags, file`writeError,
             file`ftype, file.vol
    ensures file.Valid() && |file.vol.fat| == |old(file.vol.fat)| && |file.vol.blocks| == |old(file.vol.blocks)|
    ensures file.dirBlock == old(file.dirBlock) && file.dirIndex == old(file.dirIndex)
    ensures ok ==> file.ftype == Closed && file.dirBlock < |file.vol.blocks|
                   && Vacant(EntryAt(file.vol.Disk()[file.dirBlock], file.dirIndex))
    ensures ok && old(file.fileSize) != 0 ==>
      ChainCut(file.vol.geo, old(file.vol.fat), old(file.firstCluster), 0, file.vol.fat)
  {
    file.ftype := Normal;
    file.flags := file.flags.(write := true);
    ok := file.Remove();
  }

  /** The removal of a file by rmRfStar: the handle is made writable, whatever the file's read-only attribute, and removed. */
  method ForceRemove(file: SdFile) returns (ok: bool)
    requires file.Valid()
    modifies file`curPosition, file`curCluster, file`firstCluster, file`fileSize, file`flags, file`writeError,
             file`ftype, file.vol
    ensures file.Valid() && |file.vol.fat| == |old(file.vol.fat)| && |file.vol.blocks| == |old(file.vol.blocks)|
    ensures !old(file.IsFile()) ==> !ok
    ensures ok ==> file.ftype == Closed && file.dirBlock < |file.vol.blocks|
                   && Vacant(EntryAt(file.vol.Disk()[file.dirBlock], file.dirIndex))
  {
    file.flags := file.flags.(write := true);
    ok := file.Remove();
  }

  /** The access bits of O_READ alone. */
  const READ_ONLY_OPEN: OpenFlags := OpenFlags(true, false, false, false, false, false, false)

  /** The access bits of O_WRITE alone. */
  const WRITE_ONLY: OpenFlags := OpenFlags(false, true, false, false, false, false, false)

  /**
   * The static remove(dirFile, path), for an 11-byte name: opens the
   * entry for writing in a handle of its own and removes it. Fails when
   * the name is missing, and for a directory or a read-only file.
   */
  method RemoveName(dir: SdFile, dname: seq<byte>) returns (ok: bool)
    requires dir.Valid() && |dname| == NAME_SIZE
    modifies dir, dir.vol
    ensures dir.Valid()
    ensures old(dir.Searchable()) ==>
      var slots := old(dir.Slots());
      var s := Scan(slots, dname);
      && (s.found.None? ==> !ok)
      && (ok ==> s.found.value < |slots| && DirEntry.IsFile(slots[s.found.value])
                 && BlockAt(old(dir.Map()), ENTRY_SIZE * s.found.value).Some?
                 && var b := BlockAt(old(dir.Map()), ENTRY_SIZE * s.found.value).value;
                    b < |dir.vol.blocks| && Vacant(EntryAt(dir.vol.Disk()[b], s.found.value % ENTRIES_PER_BLOCK)))
  {
    var file, got := OpenToRemove(dir, dname);
    if !got {
      return false;
    }
    ok := file.Remove();
  }

  /** The open of the static remove: a new handle on dname in dir, for writing. */
  method OpenToRemove(dir: SdFile, dname: seq<byte>) returns (file: SdFile, got: bool)
    requires dir.Valid() && |dname| == NAME_SIZE
    modifies dir, dir.vol
    ensures fresh(file) && file.Valid() && dir.Valid() && file.vol == dir.vol == old(dir.vol)
    ensures old(dir.Searchable()) ==>
      var slots := old(dir.Slots());
      var s := Scan(slots, dname);
      && (s.found.None? ==> !got)
      && (got ==> s.found.value < |slots| && (DirEntry.IsFile(slots[s.found.value]) <==> file.IsFile())
                  && BlockAt(old(dir.Map()), ENTRY_SIZE * s.found.value) == Some(file.dirBlock)
                  && file.dirIndex == s.found.value % ENTRIES_PER_BLOCK)
  {
    file := new SdFile(dir.vol);
    ghost var links;
    got, links := file.OpenName(dir, dname, WRITE_ONLY);
    if got && old(dir.Searchable()) {
      var f := Scan(old(dir.Slots()), dname).found.value;
      assert BlockAt(old(dir.Map()), ENTRY_SIZE * f) == Some(file.dirBlock) && file.dirIndex == f % ENTRIES_PER_BLOCK;
    }
  }

  /** The fields openRoot sets once the root is known: type t, first cluster, size, read only, cursor at the start. */
  method OpenAsRoot(file: SdFile, v: Volume, t: FileType, first: uint32, size: uint32)
    requires file.Valid() && v.Valid() && (t == RootFixed || t == Root32) && size as nat % ENTRY_SIZE == 0
    modifies file`vol, file`ftype, file`firstCluster, file`fileSize, file`flags, file`curCluster, file`curPosition,
             file`dirBlock, file`dirIndex
    ensures file.Valid() && file.Positioned()
    ensures file.vol == v && file.ftype == t && file.firstCluster == first && file.fileSize == size
    ensures file.flags == READ_ONLY && file.curPosition == 0 && file.curCluster == 0
    ensures file.dirBlock == 0 && file.dirIndex == 0
  {
    file.vol, file.ftype, file.firstCluster, file.fileSize := v, t, first, size;
    file.flags := READ_ONLY;
    file.curCluster, file.curPosition := 0, 0;
    file.dirBlock, file.dirIndex := 0, 0;
  }

  /**
   * openRoot as the source writes it, on the handle's fields: on a FAT32
   * volume the type and first cluster are set before chainSize runs, and a
   * failure of chainSize (rootSize is None) returns false without undoing
   * them.
   */
  function OpenRootAsWritten(h: Handle, v: Volume, rootSize: Option<uint32>): (r: (bool, Handle))
    ensures h.ftype != Closed ==> r == (false, h)
    ensures r.0 ==> r.1.vol == v && r.1.flags == READ_ONLY && r.1.dirBlock == 0 && r.1.dirIndex == 0
    ensures r.0 <==> h.ftype == Closed && (v.geo.fatType == 16 || (v.geo.fatType == 32 && rootSize.Some?))
    ensures r.0 && v.geo.fatType == 16 ==>
      r.1.ftype == RootFixed && r.1.fileSize as nat == ENTRY_SIZE * (v.geo.rootDirEntryCount as nat % SLOT_WRAP)
  {
    if h.ftype != Closed then (false, h)
    else if v.geo.fatType == 16 then
      (true, h.(vol := v, ftype := RootFixed, firstCluster := 0, fileSize := EntryBytes(v.geo.rootDirEntryCount as nat) as uint32,
                flags := READ_ONLY, dirBlock := 0, dirIndex := 0))
    else if v.geo.fatType == 32 then
      var h' := h.(ftype := Root32, firstCluster := v.geo.rootDirStart);
      match rootSize
      case None => (false, h')
      case Some(size) => (true, h'.(vol := v, fileSize := size, flags := READ_ONLY, dirBlock := 0, dirIndex := 0))
    else (false, h)
  }

  /**
   * When chainSize fails on the FAT32 root, openRoot as written reports
   * failure yet leaves the handle open, as a FAT32 root directory on its
   * old volume with its old size: a later openRoot on it fails as "already
   * open", and reads go to the wrong volume.
   */
  lemma OpenRootFailureLeavesHandleOpen(h: Handle, v: Volume)
    requires h.ftype == Closed && v.geo.fatType == 32
    ensures var r := OpenRootAsWritten(h, v, None);
      && !r.0 && r.1.ftype == Root32 && r.1.vol == h.vol && r.1.fileSize == h.fileSize
      && !OpenRootAsWritten(r.1, v, Some(0)).0
  {
  }

  /** The flags of createContiguous: O_CREAT | O_EXCL | O_RDWR. */
  const CREATE_NEW: OpenFlags := OpenFlags(true, true, false, false, true, true, false)

  /**
   * The clusters createContiguous allocates for size bytes,
   * ((size - 1) >> (clusterSizeShift + 9)) + 1: the fewest clusters that
   * hold size bytes.
   */
  function ClustersFor(g: Geometry, size: nat): (count: nat)
    requires size > 0
    ensures count >= 1
    ensures (count - 1) * ClusterBytes(g) < size <= count * ClusterBytes(g)
  {
    ClustersForBounds(g, size);
    Shr(size - 1, g.clusterSizeShift + 9) + 1
  }

  /** (size - 1) >> (clusterSizeShift + 9) is (size - 1) divided by the cluster size. */
  lemma ClustersForBounds(g: Geometry, size: nat)
    requires size > 0
    ensures var q := Shr(size - 1, g.clusterSizeShift + 9);
      q * ClusterBytes(g) < size <= (q + 1) * ClusterBytes(g)
  {
    var k := g.clusterSizeShift + 9;
    ShrLowSplit(size - 1, k);
    ClusterBytesPow2(g);
    QuotientBounds(size - 1, Shr(size - 1, k), Pow2(k), LowBits(size - 1, k));
  }

  /** A cluster is 2^(clusterSizeShift + 9) bytes. */
  lemma ClusterBytesPow2(g: Geometry)
    ensures ClusterBytes(g) == Pow2(g.clusterSizeShift + 9)
  {
    Pow2Add(9, g.clusterSizeShift);
    assert Pow2(9) == BLOCK_SIZE;
  }

  /** x lies between q * d and the next multiple of d when it is q * d plus a remainder below d. */
  lemma QuotientBounds(x: nat, q: nat, d: nat, r: nat)
    requires x == q * d + r && r < d
    ensures q * d <= x < (q + 1) * d
  {
    assert (q + 1) * d == q * d + d;
  }

  /**
   * The chain from cluster first is the run first .. first + count - 1:
   * each cluster of the run links to the next, and the last one ends the
   * chain.
   */
  predicate Contiguous(g: Geometry, fat: seq<uint32>, first: uint32, count: nat) {
    && count >= 1 && first as nat + count <= |fat|
    && (forall i :: first as nat <= i < first as nat + count - 1 ==> fat[i] as nat == i + 1)
    && IsEOC(g, fat[first as nat + count - 1] as nat)
  }

  /** The last device block of cluster c: its start block plus blocksPerCluster - 1, in 32-bit arithmetic. */
  function LastBlock(g: Geometry, c: uint32): (b: nat)
    ensures b < UINT32_LIMIT
  {
    (ClusterStartBlock(g, c) as nat + BlocksPerCluster(g) - 1) % UINT32_LIMIT
  }

  /**
   * The part of createContiguous after the entry is created: allocates the
   * run of clusters size needs (linked after the file's first cluster, if
   * it has one), makes the run the file's chain and size its size, and
   * syncs; when no run is free (runFound is false), removes the file.
   */
  method AllocateRun(file: SdFile, size: uint32) returns (ok: bool, ghost runFound: bool)
    requires file.Valid() && file.IsFile() && size > 0 && file.curPosition == 0
    modifies file`curPosition, file`curCluster, file`firstCluster, file`fileSize, file`flags, file`writeError,
             file`ftype, file.vol
    ensures file.Valid()
    ensures !runFound ==> !ok
    ensures old(file.firstCluster) == 0 ==>
      (runFound <==> !NoFreeRun(old(file.vol.fat), ClustersFor(file.vol.geo, size as nat)))
    ensures !runFound && old(file.flags.write && file.fileSize == 0 && file.vol.Flushable()
                             && file.dirBlock < |file.vol.blocks|) ==>
      && file.ftype == Closed && file.vol.fat == old(file.vol.fat) && |file.vol.blocks| == |old(file.vol.blocks)|
      && Vacant(EntryAt(file.vol.Disk()[file.dirBlock], file.dirIndex))
    ensures ok ==> file.fileSize == size && file.flags == old(file.flags).(dirDirty := false) && !file.vol.cacheDirty
    ensures ok && old(file.firstCluster) == 0 ==>
      Contiguous(file.vol.geo, file.vol.fat, file.firstCluster, ClustersFor(file.vol.geo, size as nat))
    ensures ok ==>
      && file.IsFile() && file.dirBlock < |file.vol.blocks| == |old(file.vol.blocks)|
      && var e := EntryAt(file.vol.Disk()[file.dirBlock], file.dirIndex);
         && e.name == EntryAt(old(file.vol.Disk())[file.dirBlock], file.dirIndex).name
         && e.fileSize == size && FirstCluster(e) == file.firstCluster
  {
    var count := ClustersFor(file.vol.geo, size as nat);
    var got, first := file.vol.AllocContiguous(count, file.firstCluster);
    runFound := got;
    if !got {
      var _ := file.Remove();
      return false, runFound;
    }
    ok := RecordRun(file, first, size);
  }

  /** The end of createContiguous: the run from first and size become the file's, and the entry is synced. */
  method RecordRun(file: SdFile, first: uint32, size: uint32) returns (ok: bool)
    requires file.Valid() && file.IsFile() && file.curPosition == 0
    modifies file`firstCluster, file`fileSize, file`flags, file`writeError, file.vol
    ensures file.Valid() && file.vol.fat == old(file.vol.fat)
    ensures file.firstCluster == first && file.fileSize == size
    ensures ok ==> file.flags == old(file.flags).(dirDirty := false) && !file.vol.cacheDirty
    ensures ok ==> file.dirBlock < |file.vol.blocks| == |old(file.vol.blocks)|
    ensures ok ==>
      EntryAt(file.vol.Disk()[file.dirBlock], file.dirIndex)
        == Synced(EntryAt(old(file.vol.Disk())[file.dirBlock], file.dirIndex), false, size, first, file.vol.dateTime)
  {
    SetRun(file, first, size);
    ok := file.Sync();
    if ok {
      SyncedDiskEntry(old(file.vol.Disk()), file.dirBlock, file.dirIndex, false, size, first, file.vol.dateTime);
    }
  }

  /** The run from first and size become the file's, and its entry is out of date. */
  method SetRun(file: SdFile, first: uint32, size: uint32)
    requires file.Valid() && file.IsFile() && file.curPosition == 0
    modifies file`firstCluster, file`fileSize, file`flags
    ensures file.Valid() && file.IsOpen()
    ensures file.firstCluster == first && file.fileSize == size && file.flags == old(file.flags).(dirDirty := true)
  {
    file.firstCluster := first;
    file.fileSize := size;
    file.flags := file.flags.(dirDirty := true);
  }

  /** After sync rewrote slot index of block, the slot holds the rewritten entry. */
  lemma SyncedDiskEntry(disk: seq<seq<byte>>, block: uint32, index: nat, isDir: bool, size: uint32, first: uint32,
                        stamp: Option<Stamp>)
    requires block < |disk| && |disk[block]| == BLOCK_SIZE && index < ENTRIES_PER_BLOCK
    ensures var d := SyncedDisk(disk, block, index, isDir, size, first, stamp);
      && |d| == |disk| && |d[block]| == BLOCK_SIZE
      && EntryAt(d[block], index) == Synced(EntryAt(disk[block], index), isDir, size, first, stamp)
  {
    var e := EntryAt(disk[block], index);
    WithEntryAt(disk[block], index, Synced(e, isDir, size, first, stamp), index);
  }

  /** c is the cluster holding the last of the first length > 0 bytes of the file starting at first. */
  ghost predicate LastCluster(g: Geometry, fat: seq<uint32>, first: uint32, length: uint32, c: uint32) {
    length > 0 && Walk(fat, first, ClusterIndex(g, length as nat - 1)) == Some(c)
  }

  /**
   * fat' is fat cut after cluster c: unchanged when c already ends its
   * chain, otherwise the chain after c freed (nothing to free when c links
   * to the free mark 0) and c marked end-of-chain.
   */
  ghost predicate Trimmed(g: Geometry, fat: seq<uint32>, c: uint32, fat': seq<uint32>) {
    c < |fat| &&
    (IsEOC(g, fat[c]) ==> fat' == fat) &&
    (fat[c] == 0 ==> fat' == fat[c := EocMark(g)]) &&
    (fat[c] != 0 && !IsEOC(g, fat[c]) ==>
      exists k :: ChainLinks(g, fat, fat[c], k) && fat' == FreeAll(fat, ChainSet(fat, fat[c], k))[c := EocMark(g)])
  }

  /** The all-zero entry that memset leaves: a never-used slot. */
  function ZeroEntry(): (e: Entry)
    ensures WellFormed(e) && EndSlot(e) && IsFile(e) && FirstCluster(e) == 0 && e.fileSize == 0
  {
    Entry(seq(NAME_SIZE, i => 0), 0, 0, 0, 0, 0, 0, 0, 0, 0, 0, 0)
  }

  /**
   * The search and create steps of open by name, for handle file in
   * directory dir: file takes dir's volume, dir is searched from its start,
   * the first vacant slot the search met becomes file's entry location
   * (its block and its index in the block), and a missing entry is created.
   * Leaves the entry to open in slot index of the cached block.
   */
  method Locate(file: SdFile, dir: SdFile, dname: seq<byte>, oflag: OpenFlags) returns (ok: bool, index: nat)
    requires file != dir && file.Valid() && dir.Valid() && |dname| == NAME_SIZE
    modifies file`vol, file`dirBlock, file`dirIndex, dir`curPosition, dir`curCluster, dir`firstCluster, dir`flags,
             dir`fileSize, dir.vol
    ensures file.vol == dir.vol && file.Valid() && dir.Valid() && index < ENTRIES_PER_BLOCK
    ensures ok && oflag.excl ==> EntryAt(dir.vol.cacheData, index) == NewEntry(dname, dir.vol.dateTime)
    ensures old(dir.Searchable()) ==>
      var slots := old(dir.Slots());
      var s := Scan(slots, dname);
      && (s.vacant.Some? ==>
            BlockAt(old(dir.Map()), ENTRY_SIZE * s.vacant.value) == Some(file.dirBlock)
            && file.dirIndex == s.vacant.value % ENTRIES_PER_BLOCK)
      && (s.found.Some? && oflag.excl ==> !ok)
      && (s.found.None? && !(oflag.creat && oflag.write) ==> !ok)
      && (s.found.None? && s.vacant.None? && old(dir.ftype) == RootFixed ==> !ok)
      && (s.found.Some? && !oflag.excl ==> ok)
      && (s.found.None? && s.vacant.Some? && oflag.creat && oflag.write ==> ok)
      && (ok && s.found.Some? ==>
            BlockAt(old(dir.Map()), ENTRY_SIZE * s.found.value) == Some(dir.vol.cacheBlock)
            && index == s.found.value % ENTRIES_PER_BLOCK && s.found.value < |slots|
            && EntryAt(dir.vol.cacheData, index) == slots[s.found.value]
            && dir.vol.fat == old(dir.vol.fat) && dir.vol.Disk() == old(dir.vol.Disk()))
      && (ok && s.found.None? ==>
            dir.vol.cacheBlock < |dir.vol.blocks| && !dir.vol.cacheDirty
            && EntryAt(dir.vol.cacheData, index) == NewEntry(dname, dir.vol.dateTime)
            && (s.vacant.Some? ==> dir.vol.cacheBlock == file.dirBlock && index == file.dirIndex))
  {
    var found, vacant, vacantBlock, vacantIndex;
    ok, found, index, vacant, vacantBlock, vacantIndex := Find(file, dir, dname);
    if !ok {
      return;
    }
    if found {
      return !oflag.excl, index;
    }
    ok, index := MakeEntry(dir, dname, oflag, vacant, vacantBlock, vacantIndex);
  }

  /**
   * The search loop of open by name with its bookkeeping: file takes dir's
   * volume, dir is rewound and searched for dname, and the first vacant
   * slot met becomes file's entry location. When found, the entry is in
   * slot index of the cached block.
   */
  method Find(file: SdFile, dir: SdFile, dname: seq<byte>)
    returns (ok: bool, found: bool, index: nat, vacant: bool, vacantBlock: uint32, vacantIndex: nat)
    requires file != dir && file.Valid() && dir.Valid() && |dname| == NAME_SIZE
    modifies file`vol, file`dirBlock, file`dirIndex, dir`curPosition, dir`curCluster, dir.vol
    ensures file.vol == dir.vol && file.Valid() && dir.Valid() && index < ENTRIES_PER_BLOCK && vacantIndex < ENTRIES_PER_BLOCK
    ensures dir.Meta() == old(dir.Meta()) && dir.vol.fat == old(dir.vol.fat) && dir.vol.Disk() == old(dir.vol.Disk())
    ensures vacant ==> file.dirBlock == vacantBlock && file.dirIndex == vacantIndex
    ensures old(dir.Searchable()) ==>
      var slots := old(dir.Slots());
      var s := Scan(slots, dname);
      && ok && found == s.found.Some? && vacant == s.vacant.Some? && dir.vol.Flushable()
      && (vacant ==>
            BlockAt(old(dir.Map()), ENTRY_SIZE * s.vacant.value) == Some(vacantBlock)
            && vacantIndex == s.vacant.value % ENTRIES_PER_BLOCK && vacantBlock < |dir.vol.blocks|)
      && (found ==>
            BlockAt(old(dir.Map()), ENTRY_SIZE * s.found.value) == Some(dir.vol.cacheBlock)
            && index == s.found.value % ENTRIES_PER_BLOCK && s.found.value < |slots|
            && EntryAt(dir.vol.cacheData, index) == slots[s.found.value])
  {
    ghost var m, disk, n := dir.Map(), dir.vol.Disk(), dir.fileSize as nat / ENTRY_SIZE;
    ghost var good := dir.Searchable();
    dir.Rewind();
    ok, found, index, vacant, vacantBlock, vacantIndex := dir.SearchDir(dname);
    file.vol, file.dirBlock, file.dirIndex :=
      dir.vol, if vacant then vacantBlock else file.dirBlock, if vacant then vacantIndex else file.dirIndex;
    if good && found {
      ghost var f := Scan(SlotsUpTo(m, disk, n), dname).found.value;
      CachedSlot(m, disk, n, f, dir.vol.cacheBlock, dir.vol.cacheData);
    }
    if good && vacant {
      ghost var v := Scan(SlotsUpTo(m, disk, n), dname).vacant.value;
      ScanMeaning(SlotsUpTo(m, disk, n), dname);
      SlotExtent(v, dir.fileSize as nat);
      assert OnDevice(m, |dir.vol.blocks|, ENTRY_SIZE * v);
    }
  }

  /**
   * The checks of open by index before the entry is opened: file takes
   * dir's volume; it must not be open already nor asked for O_EXCL, and
   * slot index of dir must be read into the cache and be listed. The
   * slot is found at byte 32 * index taken in 16 bits: slot index mod 2048.
   */
  method SelectSlot(file: SdFile, dir: SdFile, index: uint16, oflag: OpenFlags) returns (ok: bool)
    requires file != dir && file.Valid() && dir.Valid()
    modifies file`vol, dir`curPosition, dir`curCluster, dir.vol
    ensures file.vol == dir.vol && file.Valid() && dir.Valid()
    ensures dir.Meta() == old(dir.Meta()) && dir.vol.fat == old(dir.vol.fat) && dir.vol.Disk() == old(dir.vol.Disk())
    ensures file.IsOpen() || oflag.excl ==> !ok
    ensures old(dir.Searchable() && dir.Positioned()) ==>
      var slots, w := old(dir.Slots()), index as nat % SLOT_WRAP;
      && (ok ==> w < |slots| && Listed(slots[w]))
      && (ok ==> EntryAt(dir.vol.cacheData, index as nat % ENTRIES_PER_BLOCK) == slots[w]
                 && BlockAt(old(dir.Map()), ENTRY_SIZE * w) == Some(dir.vol.cacheBlock))
      && (!file.IsOpen() && !oflag.excl && w < |slots| && Listed(slots[w]) ==> ok)
  {
    if file.IsOpen() || oflag.excl {
      file.vol := dir.vol;
      return false;
    }
    var read, i, e := dir.ReadSlot(index);
    file.vol := dir.vol;
    ok := read && e.name[0] != NAME_FREE && e.name[0] != NAME_DELETED && e.name[0] != NAME_DOT;
  }

  /**
   * The part of openNext before the entry is opened: fails when file is
   * open already; otherwise file takes dir's volume and dir's loop finds
   * the entry to open, in slot index of the cached block.
   */
  method SelectNext(file: SdFile, dir: SdFile) returns (ok: bool, index: nat)
    requires file != dir && file.Valid() && dir.Valid() && dir.curPosition as nat % ENTRY_SIZE == 0
    modifies file`vol, dir`curPosition, dir`curCluster, dir.vol
    ensures file.Valid() && dir.Valid() && index < ENTRIES_PER_BLOCK
    ensures dir.Meta() == old(dir.Meta()) && dir.vol.fat == old(dir.vol.fat) && dir.vol.Disk() == old(dir.vol.Disk())
    ensures file.IsOpen() ==> !ok && file.vol == old(file.vol)
    ensures !file.IsOpen() ==> file.vol == dir.vol
    ensures old(dir.Searchable() && dir.Positioned()) ==>
      var slots := old(dir.Slots());
      var n := NextListed(slots, old(dir.curPosition) as nat / ENTRY_SIZE);
      && (ok <==> !file.IsOpen() && n.Some?)
      && (ok ==> index == n.value % ENTRIES_PER_BLOCK && n.value < |slots|
                 && dir.curPosition as nat == ENTRY_SIZE * (n.value + 1)
                 && EntryAt(dir.vol.cacheData, index) == slots[n.value]
                 && BlockAt(old(dir.Map()), ENTRY_SIZE * n.value) == Some(dir.vol.cacheBlock))
  {
    if file.IsOpen() {
      return false, 0;
    }
    var failed;
    ok, index, failed := dir.NextEntry();
    file.vol := dir.vol;
  }

  /**
   * The create step of open by name, taken only with O_CREAT and O_WRITE:
   * caches the vacant slot's block for writing, or (not in a fixed FAT16
   * root) adds a zeroed cluster to dir and takes its first slot, then
   * stores the new entry there and writes the block back.
   */
  method MakeEntry(dir: SdFile, dname: seq<byte>, oflag: OpenFlags, vacant: bool, block: uint32, slot: nat)
    returns (ok: bool, index: nat)
    requires dir.Valid() && |dname| == NAME_SIZE && slot < ENTRIES_PER_BLOCK
    modifies dir`curCluster, dir`firstCluster, dir`flags, dir`fileSize, dir.vol
    ensures dir.Valid() && index < ENTRIES_PER_BLOCK
    ensures !(oflag.creat && oflag.write) ==> !ok
    ensures !vacant && dir.ftype == RootFixed ==> !ok
    ensures vacant ==> index == slot && dir.Meta() == old(dir.Meta()) && dir.vol.fat == old(dir.vol.fat)
    ensures vacant && oflag.creat && oflag.write && old(dir.vol.Flushable()) && block < |old(dir.vol.blocks)| ==> ok
    ensures ok ==>
      !dir.vol.cacheDirty && dir.vol.cacheBlock < |dir.vol.blocks|
      && EntryAt(dir.vol.cacheData, index) == NewEntry(dname, dir.vol.dateTime)
    ensures ok && vacant ==>
      dir.vol.cacheBlock == block && block < |old(dir.vol.blocks)| &&
      dir.vol.Disk() == old(dir.vol.Disk())[block := WithEntry(old(dir.vol.Disk())[block], slot, NewEntry(dname, dir.vol.dateTime))]
    ensures ok && !vacant ==>
      index == 0 && dir.fileSize as nat == old(dir.fileSize) as nat + ClusterBytes(dir.vol.geo)
      && dir.vol.cacheBlock == ClusterStartBlock(dir.vol.geo, dir.curCluster)
      && |dir.vol.fat| == |old(dir.vol.fat)| && 2 <= dir.curCluster as nat < |dir.vol.fat|
      && dir.vol.fat == Linked(dir.vol.geo, old(dir.vol.fat), dir.curCluster as nat, 1, old(dir.curCluster) as nat)
  {
    index := slot;
    if !oflag.creat || !oflag.write {
      return false, index;
    }
    if vacant {
      ok := FillSlot(dir.vol, block, slot, NewEntry(dname, dir.vol.dateTime));
    } else {
      index := 0;
      if dir.ftype == RootFixed {
        return false, index;
      }
      ok := FillNewCluster(dir, NewEntry(dname, dir.vol.dateTime));
    }
  }

  /** Stores entry e into slot index of block, through the cache, and writes the block back. */
  method FillSlot(vol: Volume, block: uint32, index: nat, e: Entry) returns (ok: bool)
    requires vol.Valid() && index < ENTRIES_PER_BLOCK && WellFormed(e)
    modifies vol
    ensures vol.Valid() && vol.fat == old(vol.fat) && |vol.blocks| == |old(vol.blocks)|
    ensures ok ==> !vol.cacheDirty && vol.cacheBlock == block && block < |vol.blocks| && EntryAt(vol.cacheData, index) == e
    ensures ok ==> vol.Disk() == old(vol.Disk())[block := WithEntry(old(vol.Disk())[block], index, e)]
    ensures old(vol.Flushable()) && block < |vol.blocks| ==> ok
  {
    ok := vol.CacheRawBlock(block, true);
    if !ok {
      return;
    }
    ok := WriteNewEntry(vol, index, e);
  }

  /**
   * Adds a zeroed cluster to dir (addDirCluster), which leaves the
   * cluster's first block in the cache, then stores entry e into its first
   * slot and writes the block back.
   */
  method FillNewCluster(dir: SdFile, e: Entry) returns (ok: bool)
    requires dir.Valid() && WellFormed(e)
    modifies dir`curCluster, dir`firstCluster, dir`flags, dir`fileSize, dir.vol
    ensures dir.Valid() && dir.vol.Valid()
    ensures ok ==>
      !dir.vol.cacheDirty && dir.vol.cacheBlock < |dir.vol.blocks| && EntryAt(dir.vol.cacheData, 0) == e
      && dir.fileSize as nat == old(dir.fileSize) as nat + ClusterBytes(dir.vol.geo)
      && dir.vol.cacheBlock == ClusterStartBlock(dir.vol.geo, dir.curCluster)
      && |dir.vol.fat| == |old(dir.vol.fat)| && 2 <= dir.curCluster as nat < |dir.vol.fat|
      && dir.vol.fat == Linked(dir.vol.geo, old(dir.vol.fat), dir.curCluster as nat, 1, old(dir.curCluster) as nat)
  {
    ok := dir.AddDirCluster();
    if !ok {
      return;
    }
    ok := WriteNewEntry(dir.vol, 0, e);
  }

  /**
   * The entry open by name creates: zero but for its name, its creation
   * stamp (from the date/time source, or 2000-01-01 01:00:00 when none is
   * set), and its write and access stamps, which copy the creation stamp.
   */
  function NewEntry(name: seq<byte>, stamp: Option<Stamp>): (e: Entry)
    requires |name| == NAME_SIZE
    ensures WellFormed(e) && e.name == name && DirEntry.IsFile(e) && !RefusesWrite(e)
    ensures FirstCluster(e) == 0 && e.fileSize == 0
    ensures e.lastWriteDate == e.lastAccessDate == e.creationDate && e.lastWriteTime == e.creationTime
    ensures stamp.None? ==> e.creationDate == DEFAULT_DATE && e.creationTime == DEFAULT_TIME
    ensures stamp.Some? ==> e.creationDate == stamp.value.date && e.creationTime == stamp.value.time
  {
    var t := if stamp.Some? then stamp.value else Stamp(DEFAULT_DATE, DEFAULT_TIME);
    Entry(name, 0, 0, 0, t.time, t.date, t.date, 0, t.time, t.date, 0, 0)
  }

  /** A store of entry e into slot index of the dirty cached block, then the write-back of the block. */
  method WriteNewEntry(vol: Volume, index: nat, e: Entry) returns (ok: bool)
    requires vol.Valid() && vol.cacheDirty && index < ENTRIES_PER_BLOCK && WellFormed(e)
    modifies vol
    ensures vol.Valid() && vol.fat == old(vol.fat) && |vol.blocks| == |old(vol.blocks)|
    ensures ok <==> old(vol.cacheBlock) < |old(vol.blocks)|
    ensures ok ==> !vol.cacheDirty && vol.cacheBlock == old(vol.cacheBlock) && EntryAt(vol.cacheData, index) == e
    ensures ok ==> vol.Disk() == old(vol.Disk())[vol.cacheBlock := WithEntry(old(vol.cacheData), index, e)]
  {
    vol.PutCachedEntry(index, e);
    WithEntryAt(old(vol.cacheData), index, e, index);
    ok := vol.CacheFlush();
  }

  /** The cached block holding slot f of a directory gives, at f's index, the entry the slot sequence has. */
  lemma CachedSlot(m: Layout, disk: seq<seq<byte>>, n: nat, f: nat, b: uint32, data: seq<byte>)
    requires f < n && BlockAt(m, ENTRY_SIZE * f) == Some(b) && b < |disk| && disk[b] == data && |data| == BLOCK_SIZE
    ensures EntryAt(data, f % ENTRIES_PER_BLOCK) == SlotsUpTo(m, disk, n)[f]
  {
    SlotsIndex(m, disk, n, f);
  }

  /** The 32 bytes the file holds from the start of slot k, on the device, are the entry in slot k. */
  lemma HeldSlot(m: Layout, disk: seq<seq<byte>>, n: nat, k: nat, bytes: seq<byte>)
    requires k < n && |bytes| == ENTRY_SIZE && Holds(m, disk, ENTRY_SIZE * k, bytes)
    requires OnDevice(m, |disk|, ENTRY_SIZE * k) && forall b :: 0 <= b < |disk| ==> |disk[b]| == BLOCK_SIZE
    ensures Decode(bytes) == SlotsUpTo(m, disk, n)[k]
  {
    SlotsIndex(m, disk, n, k);
    HeldSlotBytes(m, disk, k, bytes);
  }

  /** The 32 bytes held from the start of slot k are that slot's part of its device block. */
  lemma HeldSlotBytes(m: Layout, disk: seq<seq<byte>>, k: nat, bytes: seq<byte>)
    requires |bytes| == ENTRY_SIZE && Holds(m, disk, ENTRY_SIZE * k, bytes)
    requires OnDevice(m, |disk|, ENTRY_SIZE * k) && forall b :: 0 <= b < |disk| ==> |disk[b]| == BLOCK_SIZE
    ensures var b := BlockAt(m, ENTRY_SIZE * k).value; var j := k % ENTRIES_PER_BLOCK;
      bytes == disk[b][ENTRY_SIZE * j .. ENTRY_SIZE * j + ENTRY_SIZE]
  {
    var p := ENTRY_SIZE * k;
    var b := BlockAt(m, p).value;
    var j := k % ENTRIES_PER_BLOCK;
    DivUnique(p, BLOCK_SIZE, k / ENTRIES_PER_BLOCK, ENTRY_SIZE * j);
    forall i | 0 <= i < ENTRY_SIZE
      ensures bytes[i] == disk[b][ENTRY_SIZE * j + i]
    {
      assert HoldsAt(m, disk, p, bytes, i);
      InBlock(p, i);
      SameBlock(m, p, p + i);
    }
  }

  /** Slots 0 .. n-1 of the directory laid out by m, as disk holds them. */
  ghost function SlotsUpTo(m: Layout, disk: seq<seq<byte>>, n: nat): (s: seq<Entry>)
    ensures |s| == n
  {
    if n == 0 then [] else SlotsUpTo(m, disk, n - 1) + [SlotEntry(m, disk, n - 1)]
  }

  /** Slot k of the sequence is the entry the device holds for slot k. */
  lemma {:induction false} SlotsIndex(m: Layout, disk: seq<seq<byte>>, n: nat, k: nat)
    requires k < n
    ensures SlotsUpTo(m, disk, n)[k] == SlotEntry(m, disk, k)
  {
    if k < n - 1 {
      SlotsIndex(m, disk, n - 1, k);
    }
  }

  /** Slot k of the directory laid out by m, as disk holds it; a zero entry where the slot is off the device. */
  ghost function SlotEntry(m: Layout, disk: seq<seq<byte>>, k: nat): (e: Entry)
    ensures WellFormed(e)
  {
    match BlockAt(m, ENTRY_SIZE * k)
    case Some(b) => if b < |disk| && |disk[b]| == BLOCK_SIZE then EntryAt(disk[b], k % ENTRIES_PER_BLOCK) else ZeroEntry()
    case None => ZeroEntry()
  }

  /**
   * The loop of read: copies count bytes from position pos of the file to
   * dst[0 .. count], one block at a time, and returns the cursor after the
   * bytes copied (all of them unless ok is false).
   */
  method ReadBytes(vol: Volume, dst: array<byte>, count: uint32, rootFixed: bool, first: uint32, pos: uint32, cur: uint32,
                   ghost m: Layout, ghost disk: seq<seq<byte>>, ghost pos0: bool)
    returns (ok: bool, pos': uint32, cur': uint32)
    requires vol.Valid() && m == Layout(vol.geo, vol.fat, rootFixed, first) && disk == vol.Disk()
    requires count as nat <= dst.Length && pos as nat + count as nat < UINT32_LIMIT
    requires pos0 ==> Cursor(m, pos as nat, cur)
    modifies vol, dst
    ensures vol.Valid() && vol.fat == m.fat && vol.Disk() == disk
    ensures old(vol.Flushable()) ==> vol.Flushable()
    ensures pos as nat <= pos' as nat <= pos as nat + count as nat
    ensures ok ==> pos' as nat == pos as nat + count as nat
    ensures ok && pos0 ==> Cursor(m, pos' as nat, cur') && Holds(m, disk, pos as nat, dst[..count])
    ensures ok && pos0 && 0 < count as nat < BLOCK_SIZE ==> BlockAt(m, pos as nat + count as nat - 1) == Some(vol.cacheBlock)
    ensures ok ==> forall i :: count as nat <= i < dst.Length ==> dst[i] == old(dst[i])
    ensures pos0 && old(vol.Flushable()) && Resolves(m, |disk|, pos as nat, count as nat) ==> ok
  {
    ghost var good := pos0 && old(vol.Flushable()) && Resolves(m, |disk|, pos as nat, count as nat);
    pos', cur' := pos, cur;
    var toRead := count;
    var at: nat := 0;
    while toRead > 0
      invariant vol.Valid() && vol.fat == m.fat && vol.Disk() == disk
      invariant old(vol.Flushable()) ==> vol.Flushable()
      invariant at + toRead as nat == count as nat && pos' as nat == pos as nat + at
      invariant pos0 ==> Cursor(m, pos' as nat, cur')
      invariant pos0 ==> Holds(m, disk, pos as nat, dst[..at])
      invariant pos0 && 0 < at < BLOCK_SIZE ==> BlockAt(m, pos as nat + at - 1) == Some(vol.cacheBlock)
      invariant forall i :: at <= i < dst.Length ==> dst[i] == old(dst[i])
    {
      assert good ==> OnDevice(m, |disk|, pos' as nat);
      var n;
      ok, n, cur' := ReadMore(vol, dst, at, toRead, rootFixed, first, pos', cur', m, disk, pos as nat, pos0);
      if !ok {
        return;
      }
      at, pos', toRead := at + n as nat, pos' + n, toRead - n;
    }
    ok := true;
  }

  /**
   * The block-locating step of read: at the start of a cluster the cursor
   * moves to the first cluster (position 0) or to the next cluster of the
   * chain; the block is then blockOfCluster of that cluster. On failure the
   * cluster is left as it was.
   */
  method LocateBlock(vol: Volume, rootFixed: bool, first: uint32, pos: uint32, cur: uint32, ghost m: Layout)
    returns (ok: bool, block: uint32, cur': uint32)
    requires vol.Valid() && m == Layout(vol.geo, vol.fat, rootFixed, first)
    ensures ok && Cursor(m, pos as nat, cur) ==> OnCluster(m, pos as nat, cur') && BlockAt(m, pos as nat) == Some(block)
    ensures Cursor(m, pos as nat, cur) && BlockAt(m, pos as nat).Some? ==> ok
  {
    cur' := cur;
    var offset := pos % 512;
    if rootFixed {
      return true, ((vol.geo.rootDirStart as nat + pos as nat / 512) % UINT32_LIMIT) as uint32, cur';
    }
    var boc := BlockOfCluster(vol.geo, pos as nat);
    if pos > 0 {
      ClusterOfPrevious(vol.geo, pos as nat);
    } else {
      ShiftIsDivMod(0, vol.geo.clusterSizeShift);
    }
    if offset == 0 && boc == 0 {
      if pos == 0 {
        cur' := first;
      } else {
        WalkNext(vol.fat, first, ClusterIndex(vol.geo, pos as nat - 1));
        var got, next := vol.FatGet(cur);
        if !got {
          return false, 0, cur';
        }
        cur' := next;
      }
    }
    ok := true;
    block := ((ClusterStartBlock(vol.geo, cur') as nat + boc) % UINT32_LIMIT) as uint32;
  }

  /** One round of the loop of read: ReadChunk, with dst[..at] extended by the bytes it copied. */
  method ReadMore(vol: Volume, dst: array<byte>, at: nat, toRead: uint32, rootFixed: bool, first: uint32,
                  pos: uint32, cur: uint32, ghost m: Layout, ghost disk: seq<seq<byte>>, ghost p0: nat, ghost pos0: bool)
    returns (ok: bool, n: uint32, cur': uint32)
    requires vol.Valid() && m == Layout(vol.geo, vol.fat, rootFixed, first) && disk == vol.Disk()
    requires toRead > 0 && at + toRead as nat <= dst.Length
    requires pos as nat == p0 + at && pos as nat + toRead as nat < UINT32_LIMIT
    requires pos0 ==> Cursor(m, pos as nat, cur) && Holds(m, disk, p0, dst[..at])
    modifies vol, dst
    ensures vol.Valid() && vol.fat == m.fat && vol.Disk() == disk
    ensures old(vol.Flushable()) ==> vol.Flushable()
    ensures ok ==> 1 <= n <= toRead
    ensures ok && pos0 ==> Cursor(m, pos as nat + n as nat, cur') && Holds(m, disk, p0, dst[..at + n as nat])
    ensures ok && pos0 && n < 512 ==> BlockAt(m, pos as nat + n as nat - 1) == Some(vol.cacheBlock)
    ensures ok ==> forall i :: at + n as nat <= i < dst.Length ==> dst[i] == old(dst[i])
    ensures pos0 && old(vol.Flushable()) && OnDevice(m, |disk|, pos as nat) ==> ok
  {
    ghost var prev := dst[..at];
    ok, n, cur' := ReadChunk(vol, dst, at, toRead, rootFixed, first, pos, cur, m, disk, p0, pos0);
    if ok && pos0 {
      assert dst[..at] == prev;
      HoldsGrow(m, disk, p0, dst[..], at, n as nat);
    }
  }

  /**
   * One pass of read's loop: locates the cursor's block and copies the rest
   * of that block, or toRead bytes if fewer, to dst[at ..]. Returns the
   * number of bytes copied and the cursor's new cluster.
   */
  method ReadChunk(vol: Volume, dst: array<byte>, at: nat, toRead: uint32, rootFixed: bool, first: uint32,
                   pos: uint32, cur: uint32, ghost m: Layout, ghost disk: seq<seq<byte>>, ghost p0: nat, ghost pos0: bool)
    returns (ok: bool, n: uint32, cur': uint32)
    requires vol.Valid() && m == Layout(vol.geo, vol.fat, rootFixed, first) && disk == vol.Disk()
    requires toRead > 0 && at + toRead as nat <= dst.Length
    requires pos as nat == p0 + at && pos as nat + toRead as nat < UINT32_LIMIT
    requires pos0 ==> Cursor(m, pos as nat, cur)
    modifies vol, dst
    ensures vol.Valid() && vol.fat == m.fat && vol.Disk() == disk
    ensures old(vol.Flushable()) ==> vol.Flushable()
    ensures ok ==> 1 <= n <= toRead
    ensures ok && pos0 ==> Cursor(m, pos as nat + n as nat, cur') && Holds(m, disk, pos as nat, dst[at..at + n as nat])
    ensures ok && pos0 && n < 512 ==> BlockAt(m, pos as nat + n as nat - 1) == Some(vol.cacheBlock)
    ensures forall i :: 0 <= i < dst.Length && !(ok && at <= i < at + n as nat) ==> dst[i] == old(dst[i])
    ensures pos0 && old(vol.Flushable()) && OnDevice(m, |disk|, pos as nat) ==> ok
  {
    var block;
    ok, block, cur' := LocateBlock(vol, rootFixed, first, pos, cur, m);
    if !ok {
      return false, 0, cur';
    }
    var offset := pos % 512;
    n := if toRead > 512 - offset then 512 - offset else toRead;
    ghost var prev := dst[..at];
    ok := CopyFromBlock(vol, block, offset as nat, n as nat, dst, at);
    if !ok {
      return false, 0, cur';
    }
    if pos0 {
      HoldsBlock(m, disk, pos as nat, dst[at..at + n as nat], block);
      CursorAdvance(m, pos as nat, n as nat, cur');
    }
  }

  /**
   * The copy step of read: n bytes from offset of block go to dst[at ..],
   * straight from the device for a whole block the cache does not hold,
   * through the cache otherwise.
   */
  method CopyFromBlock(vol: Volume, block: uint32, offset: nat, n: nat, dst: array<byte>, at: nat) returns (ok: bool)
    requires vol.Valid() && 1 <= n && offset + n <= BLOCK_SIZE && at + n <= dst.Length
    modifies vol, dst
    ensures vol.Valid() && vol.Disk() == old(vol.Disk()) && vol.fat == old(vol.fat)
    ensures old(vol.Flushable()) ==> vol.Flushable()
    ensures ok && block < |vol.blocks| ==> dst[at..at + n] == vol.Disk()[block][offset..offset + n]
    ensures ok && n < BLOCK_SIZE ==> vol.cacheBlock == block
    ensures forall i :: 0 <= i < dst.Length && !(ok && at <= i < at + n) ==> dst[i] == old(dst[i])
    ensures old(vol.Flushable()) && block < |vol.blocks| ==> ok
  {
    if n == 512 && block != vol.cacheBlock {
      ok := vol.ReadBlock(block, dst, at);
    } else {
      ok := vol.CacheRawBlock(block, false);
      if ok {
        forall i | at <= i < at + n {
          dst[i] := vol.cacheData[offset + (i - at)];
        }
      }
    }
  }

  /**
   * Reading n bytes from the cursor's block leaves the cursor on the cluster
   * of the last byte read, in the same device block.
   */
  lemma CursorAdvance(m: Layout, pos: nat, n: nat, cur: uint32)
    requires n >= 1 && pos % BLOCK_SIZE + n <= BLOCK_SIZE
    requires m.rootFixed || Walk(m.fat, m.first, ClusterIndex(m.g, pos)) == Some(cur)
    ensures m.rootFixed || Walk(m.fat, m.first, ClusterIndex(m.g, pos + n - 1)) == Some(cur)
    ensures BlockAt(m, pos + n - 1) == BlockAt(m, pos)
  {
    InBlock(pos, n - 1);
    SameBlock(m, pos, pos + n - 1);
  }

  /**
   * The directory-entry update of sync: caches block for writing and
   * replaces its entry index by the synced entry, unless that entry has been
   * deleted (by another handle on the same file).
   */
  method RewriteEntry(vol: Volume, block: uint32, index: nat, isDir: bool, size: uint32, first: uint32)
    returns (ok: bool)
    requires vol.Valid() && index < ENTRIES_PER_BLOCK
    modifies vol
    ensures vol.Valid() && vol.fat == old(vol.fat) && |vol.blocks| == |old(vol.blocks)|
    ensures ok ==> vol.cacheDirty && vol.cacheBlock == block
    ensures ok && block < |vol.blocks| ==>
      EntryAt(old(vol.Disk())[block], index).name[0] != NAME_DELETED &&
      vol.Disk() == SyncedDisk(old(vol.Disk()), block, index, isDir, size, first, vol.dateTime)
    ensures (old(vol.Flushable()) && block < |vol.blocks| && EntryAt(old(vol.Disk())[block], index).name[0] == NAME_DELETED) ==> !ok
    ensures (old(vol.Flushable()) && block < |vol.blocks| && EntryAt(old(vol.Disk())[block], index).name[0] != NAME_DELETED) ==> ok
  {
    ok := vol.CacheRawBlock(block, true);
    if !ok {
      return;
    }
    var d := EntryAt(vol.cacheData, index);
    if d.name[0] == NAME_DELETED {
      return false;
    }
    vol.PutCachedEntry(index, Synced(d, isDir, size, first, vol.dateTime));
  }

  /**
   * The zeroing loop of addDirCluster: cacheZeroBlock on the blocks of
   * cluster c from the last to the first, so that the first stays cached.
   */
  method ZeroCluster(vol: Volume, c: uint32) returns (ok: bool)
    requires vol.Valid()
    modifies vol
    ensures vol.Valid() && vol.fat == old(vol.fat) && |vol.blocks| == |old(vol.blocks)|
    ensures ok ==> vol.cacheBlock == ClusterStartBlock(vol.geo, c) && vol.cacheDirty && vol.cacheData == Zeros512()
    ensures ok ==> ZeroedFrom(vol, ClusterStartBlock(vol.geo, c), 0, old(vol.Disk()))
  {
    ghost var disk := vol.Disk();
    ghost var fat0 := vol.fat;
    var block := ClusterStartBlock(vol.geo, c);
    var i: nat := BlocksPerCluster(vol.geo);
    assert BlocksPerCluster(vol.geo) <= 128 by {
      Pow2Bound(vol.geo.clusterSizeShift);
    }
    while i != 0
      modifies vol
      invariant i <= BlocksPerCluster(vol.geo) <= 128
      invariant vol.Valid() && |vol.blocks| == |disk| && vol.fat == fat0
      invariant ZeroedFrom(vol, block, i, disk)
      invariant i < BlocksPerCluster(vol.geo) ==>
        Offset(block, vol.cacheBlock as nat) == i && vol.cacheDirty && vol.cacheData == Zeros512()
    {
      var zeroed := ZeroBlock(vol, block, i, disk);
      if !zeroed {
        return false;
      }
      i := i - 1;
    }
    OffsetUnique(block, 0, vol.cacheBlock as nat);
    ok := true;
  }

  /** An entry never straddles a block: the 32 bytes from an entry boundary share one block. */
  lemma EntryInBlock(p: nat)
    requires p % ENTRY_SIZE == 0
    ensures (p + ENTRY_SIZE - 1) / BLOCK_SIZE == p / BLOCK_SIZE
  {
    var a := p / ENTRY_SIZE;
    DivUnique(p + ENTRY_SIZE - 1, BLOCK_SIZE, a / ENTRIES_PER_BLOCK, ENTRY_SIZE * (a % ENTRIES_PER_BLOCK) + ENTRY_SIZE - 1);
    DivUnique(p, BLOCK_SIZE, a / ENTRIES_PER_BLOCK, ENTRY_SIZE * (a % ENTRIES_PER_BLOCK));
  }

  /** Slot k of a directory starts at byte 32 k, an entry boundary. */
  lemma EntryPosition(k: nat)
    ensures (ENTRY_SIZE * k) % ENTRY_SIZE == 0 && (ENTRY_SIZE * k) / ENTRY_SIZE == k
  {
    DivUnique(ENTRY_SIZE * k, ENTRY_SIZE, k, 0);
  }

  /** 65536 / 32: slot numbers that differ by a multiple of it give the same 16-bit byte offset. */
  const SLOT_WRAP: nat := 2048

  /**
   * The product 32 * k as the source computes it for a uint16_t k: on the
   * AVR target unsigned int is 16 bits wide, so the product is taken
   * modulo 65536. It is the offset of slot k mod 2048, an entry boundary.
   */
  function EntryBytes(k: nat): (p: nat)
    ensures p == ENTRY_SIZE * (k % SLOT_WRAP) && p < UINT16_LIMIT
    ensures p % ENTRY_SIZE == 0 && p / ENTRY_SIZE == k % SLOT_WRAP
  {
    WrapProduct(k);
    EntryPosition(k % SLOT_WRAP);
    (ENTRY_SIZE * k) % UINT16_LIMIT
  }

  /** 32 k is 65536 (k / 2048) + 32 (k mod 2048), so the 16-bit product is the offset of slot k mod 2048. */
  lemma WrapProduct(k: nat)
    ensures (ENTRY_SIZE * k) % UINT16_LIMIT == ENTRY_SIZE * (k % SLOT_WRAP)
  {
    var q, r := k / SLOT_WRAP, k % SLOT_WRAP;
    assert ENTRY_SIZE * k == q * UINT16_LIMIT + ENTRY_SIZE * r;
    DivUnique(ENTRY_SIZE * k, UINT16_LIMIT, q, ENTRY_SIZE * r);
  }

  /** Wrapping a slot number at 2048 keeps its place in its block: 2048 is a multiple of 16. */
  lemma WrapIndex(k: nat)
    ensures (k % SLOT_WRAP) % ENTRIES_PER_BLOCK == k % ENTRIES_PER_BLOCK
  {
    var r := k % SLOT_WRAP;
    DivUnique(k, ENTRIES_PER_BLOCK, (k / SLOT_WRAP) * 128 + r / ENTRIES_PER_BLOCK, r % ENTRIES_PER_BLOCK);
  }

  /** The slot after slot k, with k first truncated to 16 bits, wraps at 2048 as the slot after k does. */
  lemma WrapNext(k: nat)
    ensures (k % UINT16_LIMIT + 1) % SLOT_WRAP == (k + 1) % SLOT_WRAP
  {
    var r := (k + 1) % SLOT_WRAP;
    DivUnique(k + 1, SLOT_WRAP, (k + 1) / SLOT_WRAP, r);
    DivUnique(k % UINT16_LIMIT + 1, SLOT_WRAP, (k % UINT16_LIMIT + 1) / SLOT_WRAP, (k % UINT16_LIMIT + 1) % SLOT_WRAP);
    DivUnique(k, UINT16_LIMIT, k / UINT16_LIMIT, k % UINT16_LIMIT);
    assert k + 1 == (k / UINT16_LIMIT) * 32 * SLOT_WRAP + (k % UINT16_LIMIT + 1);
    DivUnique(k + 1, SLOT_WRAP, (k / UINT16_LIMIT) * 32 + (k % UINT16_LIMIT + 1) / SLOT_WRAP, (k % UINT16_LIMIT + 1) % SLOT_WRAP);
  }

  /** An entry that starts before the end of a directory is one of its slots. */
  lemma SlotBound(k: nat, size: nat)
    requires ENTRY_SIZE * k < size && size % ENTRY_SIZE == 0
    ensures k < size / ENTRY_SIZE
  {
    DivUnique(size, ENTRY_SIZE, size / ENTRY_SIZE, 0);
  }

  /** The search of slots, resumed at slot k with what it remembered from the slots before, finds what the whole search finds. */
  ghost predicate Resumes(slots: seq<Entry>, name: seq<byte>, k: nat, v: Option<nat>, good: bool)
  {
    good ==> k <= |slots| && ScanFrom(slots, name, k, v) == Scan(slots, name)
  }

  /** Passing over slot k, which neither ends the directory nor carries the name, keeps the search on course. */
  lemma ResumeNext(slots: seq<Entry>, name: seq<byte>, k: nat, v: Option<nat>, v': Option<nat>, good: bool)
    returns (next: nat)
    requires Resumes(slots, name, k, v, good)
    requires good ==> k < |slots| && !EndSlot(slots[k]) && !Named(slots[k], name)
                      && v' == (if v.None? && Vacant(slots[k]) then Some(k) else v)
    ensures next == k + 1 && Resumes(slots, name, next, v', good)
  {
    next := k + 1;
    if good {
      ScanFromStep(slots, name, k, v);
    }
  }

  /** Reading on from slot k stops at a never-used slot exactly when reading on from slot k0 does. */
  ghost predicate FreeAhead(slots: seq<Entry>, k0: nat, k: nat, good: bool)
  {
    good ==> k0 <= k <= |slots| && StopsAtFree(slots, k) == StopsAtFree(slots, k0)
  }


  /** Slot k of a directory of size bytes fits in it, and the slot after the last one starts at its end. */
  lemma SlotExtent(k: nat, size: nat)
    requires size % ENTRY_SIZE == 0 && k <= size / ENTRY_SIZE
    ensures k < size / ENTRY_SIZE ==> ENTRY_SIZE * k + ENTRY_SIZE <= size
    ensures k == size / ENTRY_SIZE ==> ENTRY_SIZE * k == size
  {
    DivUnique(size, ENTRY_SIZE, size / ENTRY_SIZE, 0);
  }

  /** In a directory whose size is a whole number of entries, an entry that starts before the end fits. */
  lemma NextEntryFits(p: nat, size: nat)
    requires p % ENTRY_SIZE == 0 && size % ENTRY_SIZE == 0 && p < size
    ensures p + ENTRY_SIZE <= size
  {
  }

  /** How far block b lies after block start, counting in 32-bit block numbers. */
  function Offset(start: uint32, b: nat): nat {
    (b - start as int) % UINT32_LIMIT
  }

  /** The blocks from distance i to the end of the cluster at start hold zeros, the others what disk holds. */
  ghost predicate ZeroedFrom(vol: Volume, start: uint32, i: nat, disk: seq<seq<byte>>)
    reads vol
    requires vol.Valid() && |vol.blocks| == |disk|
  {
    forall b :: 0 <= b < |disk| ==>
      vol.Disk()[b] == if i <= Offset(start, b) < BlocksPerCluster(vol.geo) then Zeros512() else disk[b]
  }

  /** One pass of the zeroing loop: zeroes the block at distance i - 1 from start. */
  method ZeroBlock(vol: Volume, start: uint32, i: nat, ghost disk: seq<seq<byte>>) returns (ok: bool)
    requires vol.Valid() && |vol.blocks| == |disk| && 0 < i <= BlocksPerCluster(vol.geo) <= 128
    requires ZeroedFrom(vol, start, i, disk)
    modifies vol
    ensures vol.Valid() && |vol.blocks| == |disk| && vol.fat == old(vol.fat)
    ensures ok ==> ZeroedFrom(vol, start, i - 1, disk)
    ensures ok ==> Offset(start, vol.cacheBlock as nat) == i - 1 && vol.cacheDirty && vol.cacheData == Zeros512()
  {
    var zb: uint32 := ((start as nat + i - 1) % UINT32_LIMIT) as uint32;
    ok := vol.CacheZeroBlock(zb);
    if ok {
      OffsetOf(start, i - 1);
      forall b | 0 <= b < |disk|
        ensures vol.Disk()[b] == if i - 1 <= Offset(start, b) < BlocksPerCluster(vol.geo) then Zeros512() else disk[b]
      {
        OffsetUnique(start, i - 1, b);
      }
    }
  }

  /** Within 32-bit block numbers, the block at a given distance from start is unique. */
  lemma OffsetUnique(start: uint32, j: nat, b: nat)
    requires j < UINT32_LIMIT && b < UINT32_LIMIT
    ensures Offset(start, b) == j <==> b == (start as nat + j) % UINT32_LIMIT
  {
  }

  lemma OffsetOf(start: uint32, j: nat)
    requires j < UINT32_LIMIT
    ensures Offset(start, (start as nat + j) % UINT32_LIMIT) == j
  {
  }

  lemma Pow2Bound(k: nat)
    requires k <= 7
    ensures Pow2(k) <= 128
  {
    Pow2Monotone(k, 7);
  }

  /** 2^(a + b) is 2^a times 2^b. */
  lemma {:induction false} Pow2Add(a: nat, b: nat)
    ensures Pow2(a + b) == Pow2(a) * Pow2(b)
    decreases b
  {
    if b > 0 {
      Pow2Add(a, b - 1);
      assert Pow2(a + b) == 2 * (Pow2(a) * Pow2(b - 1));
    }
  }

  lemma {:induction false} Pow2Monotone(j: nat, k: nat)
    requires j <= k
    ensures Pow2(j) <= Pow2(k)
    decreases k
  {
    if j < k {
      Pow2Monotone(j, k - 1);
    }
  }

  /**
   * The directory entry as sync rewrites it: the size (kept for a
   * directory), the first cluster split into its halves, and the write and
   * access dates and write time from the date/time source, if one is set.
   */
  function Synced(e: Entry, isDir: bool, size: uint32, first: uint32, stamp: Option<Stamp>): (r: Entry)
    requires WellFormed(e)
    ensures WellFormed(r) && r.name == e.name && r.attributes == e.attributes
    ensures FirstCluster(r) == first
    ensures r.fileSize == if isDir then e.fileSize else size
    ensures r.creationDate == e.creationDate && r.creationTime == e.creationTime
  {
    var sized := if isDir then e else e.(fileSize := size);
    var linked := WithFirstCluster(sized, first);
    JoinSplit(sized, first);
    match stamp
    case None => linked
    case Some(t) => linked.(lastWriteDate := t.date, lastWriteTime := t.time, lastAccessDate := t.date)
  }

  /** A walk that fails at some step fails for every longer walk. */
  lemma WalkOff(fat: seq<uint32>, c: uint32, done: nat, rest: nat)
    requires rest > 0 && Walk(fat, c, done).Some? && Walk(fat, c, done).value >= |fat|
    ensures Walk(fat, c, done + rest).None?
  {
    WalkAdd(fat, c, done, rest);
  }
}
