/**
 * The volume services SdFile relies on, modelled abstractly: the file
 * allocation table as a sequence of entries, the device as a sequence of
 * 512-byte blocks, and the single block cache (block number, dirty bit,
 * contents). The FAT is kept apart from the blocks, so table accesses do
 * not pass through the cache.
 */
module FatVolume {
  import opened Bytes
  import opened Fat
  import opened DirEntry

  /** The table with the entries of the given clusters marked free. */
  function FreeAll(fat: seq<uint32>, xs: set<uint32>): (r: seq<uint32>)
    ensures |r| == |fat|
  {
    seq(|fat|, i requires 0 <= i < |fat| => if i in xs then 0 else fat[i])
  }

  /** The first k clusters of the chain starting at c. */
  function ChainSet(fat: seq<uint32>, c: uint32, k: nat): set<uint32>
  {
    set j | 0 <= j < k && Walk(fat, c, j).Some? :: Walk(fat, c, j).value
  }

  /**
   * The chain from c ends after exactly k links: the clusters reached after
   * 1 .. k-1 links are on the table and not end-of-chain, the k-th is.
   */
  ghost predicate ChainLinks(g: Geometry, fat: seq<uint32>, c: uint32, k: nat) {
    && k >= 1
    && (forall j :: 1 <= j < k ==> Walk(fat, c, j).Some? && !IsEOC(g, Walk(fat, c, j).value))
    && Walk(fat, c, k).Some? && IsEOC(g, Walk(fat, c, k).value)
  }

  /** The first k clusters of the chain from c are pairwise different. */
  ghost predicate DistinctPrefix(fat: seq<uint32>, c: uint32, k: nat) {
    forall i, j :: 0 <= i < j < k && Walk(fat, c, j).Some? ==> Walk(fat, c, i) != Walk(fat, c, j)
  }

  /** Clusters b .. b+count-1 are all free. */
  predicate RunFree(fat: seq<uint32>, b: nat, count: nat)
    requires b + count <= |fat|
  {
    forall i :: b <= i < b + count ==> fat[i] == 0
  }

  /** No run of count free clusters starts at cluster 2 or later. */
  ghost predicate NoFreeRun(fat: seq<uint32>, count: nat) {
    forall b :: 2 <= b && b + count <= |fat| ==> !RunFree(fat, b, count)
  }

  /**
   * The table after allocating the run b .. b+count-1: each cluster links to
   * the next, the last holds the end-of-chain mark, and a non-zero tail is
   * linked to the start of the run.
   */
  function Linked(g: Geometry, fat: seq<uint32>, b: nat, count: nat, tail: nat): (r: seq<uint32>)
    requires count >= 1 && b + count <= |fat| <= UINT32_LIMIT
    ensures |r| == |fat|
  {
    seq(|fat|, i requires 0 <= i < |fat| => LinkedAt(g, fat, b, count, tail, i))
  }

  function LinkedAt(g: Geometry, fat: seq<uint32>, b: nat, count: nat, tail: nat, i: nat): uint32
    requires count >= 1 && b + count <= |fat| <= UINT32_LIMIT && i < |fat|
  {
    if tail != 0 && i == tail then b as uint32
    else if b <= i < b + count - 1 then (i + 1) as uint32
    else if i == b + count - 1 then EocMark(g)
    else fat[i]
  }

  class Volume {
    const geo: Geometry
    /** The date/time callback (dateTime_), fixed for the volume: None when no callback is set. */
    const dateTime: Option<Stamp>
    /** The allocation table, indexed by cluster number. */
    var fat: seq<uint32>
    /** The device, indexed by block number. */
    var blocks: seq<seq<byte>>
    /** cacheBlockNumber_: the block the cache holds. */
    var cacheBlock: uint32
    var cacheDirty: bool
    var cacheData: seq<byte>

    ghost predicate Valid()
      reads this
    {
      && GoodGeometry(geo)
      && 2 <= |fat| < EocMin(geo)
      && |blocks| < UINT32_LIMIT
      && (forall b :: 0 <= b < |blocks| ==> |blocks[b]| == BLOCK_SIZE)
      && |cacheData| == BLOCK_SIZE
      && (!cacheDirty && cacheBlock < |blocks| ==> blocks[cacheBlock] == cacheData)
    }

    /** What the device holds once the cache is written back. */
    ghost function Disk(): (d: seq<seq<byte>>)
      reads this
      requires Valid()
      ensures |d| == |blocks| && forall b :: 0 <= b < |d| ==> |d[b]| == BLOCK_SIZE
      ensures cacheBlock < |blocks| ==> d[cacheBlock] == cacheData
    {
      if cacheDirty && cacheBlock < |blocks| then blocks[cacheBlock := cacheData] else blocks
    }

    /** The cache can be written back: it is clean or holds a block of the device. */
    ghost predicate Flushable()
      reads this
    {
      !cacheDirty || cacheBlock < |blocks|
    }

    constructor (geo: Geometry, fat: seq<uint32>, blocks: seq<seq<byte>>, dateTime: Option<Stamp>)
      requires GoodGeometry(geo) && 2 <= |fat| < EocMin(geo) && |blocks| < UINT32_LIMIT
      requires forall b :: 0 <= b < |blocks| ==> |blocks[b]| == BLOCK_SIZE
      ensures Valid() && Disk() == blocks && this.fat == fat && this.geo == geo && this.dateTime == dateTime
      ensures !cacheDirty && cacheBlock == 0xFFFF_FFFF
    {
      this.geo := geo;
      this.dateTime := dateTime;
      this.fat := fat;
      this.blocks := blocks;
      cacheBlock := 0xFFFF_FFFF;
      cacheDirty := false;
      cacheData := seq(BLOCK_SIZE, i => 0);
    }

    // ------------------------------------------------------------------- FAT

    /** fatGet: the table entry of cluster c; fails past the last cluster. */
    method FatGet(c: uint32) returns (ok: bool, next: uint32)
      ensures ok <==> c < |fat|
      ensures ok ==> next == fat[c]
    {
      if c < |fat| as int {
        ok, next := true, fat[c];
      } else {
        ok, next := false, 0;
      }
    }

    /** fatPut: sets the table entry of cluster c; the two reserved entries and clusters past the end are refused. */
    method FatPut(c: uint32, v: uint32) returns (ok: bool)
      requires Valid()
      modifies this
      ensures Valid() && Disk() == old(Disk())
      ensures unchanged(`blocks, `cacheBlock, `cacheDirty, `cacheData)
      ensures ok <==> 2 <= c < |old(fat)|
      ensures fat == if ok then old(fat)[c := v] else old(fat)
    {
      if c < 2 || c >= |fat| as int {
        return false;
      }
      fat := fat[c := v];
      ok := true;
    }

    /** fatPutEOC: ends a chain at cluster c. */
    method FatPutEOC(c: uint32) returns (ok: bool)
      requires Valid()
      modifies this
      ensures Valid() && Disk() == old(Disk())
      ensures unchanged(`blocks, `cacheBlock, `cacheDirty, `cacheData)
      ensures ok <==> 2 <= c < |old(fat)|
      ensures fat == if ok then old(fat)[c := EocMark(geo)] else old(fat)
    {
      ok := FatPut(c, EocMark(geo));
    }

    /**
     * allocContiguous: finds count free clusters in a row (first fit from
     * cluster 2), chains them, ends the chain, and links a non-zero tail to
     * the run.
     */
    method AllocContiguous(count: nat, tail: uint32) returns (ok: bool, first: uint32)
      requires Valid() && count >= 1
      modifies this
      ensures Valid() && Disk() == old(Disk())
      ensures unchanged(`blocks, `cacheBlock, `cacheDirty, `cacheData)
      ensures |fat| == |old(fat)|
      ensures ok ==> 2 <= first && first + count <= |fat| && RunFree(old(fat), first, count)
      ensures ok ==> tail == 0 || 2 <= tail < |fat|
      ensures fat == if ok then Linked(geo, old(fat), first, count, tail) else old(fat)
      ensures !ok && (tail == 0 || 2 <= tail < |fat|) ==> NoFreeRun(fat, count)
    {
      if tail != 0 && (tail < 2 || tail >= |fat| as int) {
        return false, 0;
      }
      var b: nat := 2;
      while b + count <= |fat| && !RunFree(fat, b, count)
        invariant 2 <= b
        invariant forall c :: 2 <= c < b && c + count <= |fat| ==> !RunFree(fat, c, count)
        decreases |fat| - b
      {
        b := b + 1;
      }
      if b + count > |fat| {
        return false, 0;
      }
      fat := Linked(geo, fat, b, count, tail);
      ok, first := true, b as uint32;
    }

    /**
     * freeChain: marks every cluster of the chain from c free. A chain that
     * comes back to a cluster already freed reads 0 there and then fails on
     * the reserved cluster 0; cluster 0 itself is an empty chain.
     */
    method FreeChain(c: uint32) returns (ok: bool, ghost k: nat)
      requires Valid()
      modifies this
      ensures Valid() && Disk() == old(Disk())
      ensures |fat| == |old(fat)|
      ensures unchanged(`blocks, `cacheBlock, `cacheDirty, `cacheData)
      ensures c == 0 ==> ok && fat == old(fat)
      ensures ok && c != 0 ==>
        (ChainLinks(geo, old(fat), c, k) && DistinctPrefix(old(fat), c, k)
         && fat == FreeAll(old(fat), ChainSet(old(fat), c, k)))
    {
      if c == 0 {
        return true, 0;
      }
      ghost var fat0 := fat;
      var cur: uint32 := c;
      k := 0;
      ghost var again := false;
      while true
        invariant Valid() && Disk() == old(Disk()) && |fat| == |fat0|
        invariant unchanged(`blocks, `cacheBlock, `cacheDirty, `cacheData)
        invariant again ==> cur == 0
        invariant !again ==> Walk(fat0, c, k) == Some(cur)
        invariant !again ==> fat == FreeAll(fat0, ChainSet(fat0, c, k))
        invariant !again ==> DistinctPrefix(fat0, c, k)
        invariant !again ==> forall j :: 1 <= j <= k ==> Walk(fat0, c, j).Some? && !IsEOC(geo, Walk(fat0, c, j).value)
        invariant forall x :: x in ChainSet(fat0, c, k) ==> 2 <= x < |fat|
        decreases NonFree(fat), if 2 <= cur < |fat| then 1 else 0
      {
        var got, next := FatGet(cur);
        if !got {
          return false, k;
        }
        ghost var before := fat;
        ghost var seen := cur in ChainSet(fat0, c, k);
        var put := FatPut(cur, 0);
        if !put {
          return false, k;
        }
        FreeStep(before, cur);
        if seen {
          assert next == 0;
          again := true;
        } else {
          FreeChainStep(fat0, c, k, cur, before, next);
          k := k + 1;
        }
        cur := next;
        if IsEOC(geo, cur) {
          return true, k;
        }
      }
    }

    /** chainSize: the bytes in the chain from c, one cluster per link up to end-of-chain, in 32-bit arithmetic. */
    method ChainSize(c: uint32) returns (ok: bool, size: uint32, ghost k: nat)
      requires Valid()
      ensures ok ==> ChainLinks(geo, fat, c, k) && size as nat == ChainBytes(geo, k)
      ensures forall j: nat :: ChainLinks(geo, fat, c, j) && j <= |fat| + 1 ==> ok
    {
      var cur := c;
      var s: uint32 := 0;
      k := 0;
      var n: nat := 0;
      while n <= |fat|
        invariant Walk(fat, c, k) == Some(cur)
        invariant s as nat == ChainBytes(geo, k) && k == n
        invariant forall j :: 1 <= j <= k ==> Walk(fat, c, j).Some? && !IsEOC(geo, Walk(fat, c, j).value)
        decreases |fat| + 1 - n
      {
        var got;
        got, cur := FatGet(cur);
        WalkNext(fat, c, k);
        if !got {
          assert Walk(fat, c, k + 1).None?;
          return false, 0, k;
        }
        SizeStep(k, ClusterBytes(geo), s);
        s := (s + ClusterBytes(geo)) % UINT32_LIMIT;
        k := k + 1;
        if IsEOC(geo, cur) {
          return true, s, k;
        }
        n := n + 1;
      }
      ok, size := false, 0;
    }

    // ----------------------------------------------------------------- cache

    /** cacheFlush: writes a dirty cache block back to the device. */
    method CacheFlush() returns (ok: bool)
      requires Valid()
      modifies this
      ensures Valid() && Disk() == old(Disk())
      ensures unchanged(`fat, `cacheBlock, `cacheData)
      ensures ok <==> old(Flushable())
      ensures ok ==> !cacheDirty && blocks == old(Disk())
      ensures !ok ==> unchanged(this)
    {
      if cacheDirty {
        if cacheBlock >= |blocks| as int {
          return false;
        }
        blocks := blocks[cacheBlock := cacheData];
        cacheDirty := false;
      }
      ok := true;
    }

    /**
     * cacheRawBlock: makes block b the cached block, writing back a dirty
     * different block first and reading b from the device; for writing, the
     * cache is also marked dirty.
     */
    method CacheRawBlock(b: uint32, forWrite: bool) returns (ok: bool)
      requires Valid()
      modifies this
      ensures Valid() && Disk() == old(Disk())
      ensures unchanged(`fat)
      ensures ok <==> b == old(cacheBlock) || (old(Flushable()) && b < |blocks|)
      ensures ok ==> cacheBlock == b && (b < |blocks| ==> cacheData == Disk()[b])
      ensures ok ==> cacheDirty == (if b == old(cacheBlock) then old(cacheDirty) || forWrite else forWrite)
      ensures !forWrite && old(Flushable()) ==> Flushable()
    {
      if cacheBlock != b {
        ok := CacheFlush();
        if !ok {
          return;
        }
        if b >= |blocks| as int {
          return false;
        }
        cacheData := blocks[b];
        cacheBlock := b;
      }
      if forWrite {
        cacheDirty := true;
      }
      ok := true;
    }

    /** cacheZeroBlock: writes back the cache, then holds block b as 512 zero bytes, dirty. */
    method CacheZeroBlock(b: uint32) returns (ok: bool)
      requires Valid()
      modifies this
      ensures Valid()
      ensures unchanged(`fat)
      ensures ok <==> old(Flushable())
      ensures ok ==> cacheBlock == b && cacheDirty && cacheData == Zeros512()
      ensures ok ==> Disk() == if b < |old(blocks)| then old(Disk())[b := Zeros512()] else old(Disk())
      ensures !ok ==> Disk() == old(Disk())
    {
      ok := CacheFlush();
      if !ok {
        return;
      }
      ghost var disk := blocks;
      cacheData := Zeros512();
      cacheBlock := b;
      cacheDirty := true;
    }

    /** cacheSetBlockNumber: relabels the cache, either dirty or as a block off the device. */
    method CacheSetBlockNumber(b: uint32, dirty: bool)
      requires Valid() && (dirty || b >= |blocks|)
      modifies this
      ensures Valid()
      ensures unchanged(`fat, `blocks, `cacheData)
      ensures cacheBlock == b && cacheDirty == dirty
    {
      cacheBlock := b;
      cacheDirty := dirty;
    }

    /** A store through a dir_t pointer into the cache: slot i of the cached block becomes e. */
    method PutCachedEntry(i: nat, e: Entry)
      requires Valid() && cacheDirty && i < ENTRIES_PER_BLOCK && WellFormed(e)
      modifies this`cacheData
      ensures Valid() && cacheData == WithEntry(old(cacheData), i, e)
      ensures Disk() == if cacheBlock < |blocks| then old(Disk())[cacheBlock := cacheData] else old(Disk())
    {
      cacheData := WithEntry(cacheData, i, e);
    }

    /** memcpy into the cache: bytes offset .. offset+|data|-1 of the cached block become data. */
    method CopyToCache(offset: nat, data: seq<byte>)
      requires Valid() && cacheDirty && offset + |data| <= BLOCK_SIZE
      modifies this`cacheData
      ensures Valid() && cacheData == old(cacheData)[..offset] + data + old(cacheData)[offset + |data|..]
      ensures Disk() == if cacheBlock < |blocks| then old(Disk())[cacheBlock := cacheData] else old(Disk())
    {
      cacheData := cacheData[..offset] + data + cacheData[offset + |data|..];
    }

    /** readBlock: copies block b of the device to dst[at .. at+512]. */
    method ReadBlock(b: uint32, dst: array<byte>, at: nat) returns (ok: bool)
      requires Valid() && at + BLOCK_SIZE <= dst.Length
      modifies dst
      ensures ok <==> b < |blocks|
      ensures ok ==> dst[at..at + BLOCK_SIZE] == blocks[b]
      ensures forall i :: 0 <= i < dst.Length && !(ok && at <= i < at + BLOCK_SIZE) ==> dst[i] == old(dst[i])
    {
      if b >= |blocks| as int {
        return false;
      }
      forall i | at <= i < at + BLOCK_SIZE {
        dst[i] := blocks[b][i - at];
      }
      ok := true;
    }

    /** writeBlock: stores 512 bytes as block b of the device; the cache must not hold b. */
    method WriteBlock(b: uint32, src: seq<byte>) returns (ok: bool)
      requires Valid() && |src| == BLOCK_SIZE && (b != cacheBlock || b >= |blocks|)
      modifies this
      ensures Valid()
      ensures unchanged(`fat, `cacheBlock, `cacheDirty, `cacheData)
      ensures ok <==> b < |old(blocks)|
      ensures Disk() == if ok then old(Disk())[b := src] else old(Disk())
    {
      if b >= |blocks| as int {
        return false;
      }
      blocks := blocks[b := src];
      ok := true;
    }
  }

  /** Following j links from the start of a freshly linked run stays in the run. */
  lemma {:induction false} LinkedWalk(g: Geometry, fat: seq<uint32>, b: nat, count: nat, tail: nat, j: nat)
    requires count >= 1 && b + count <= |fat| <= UINT32_LIMIT && RunFree(fat, b, count)
    requires tail == 0 || (tail < |fat| && fat[tail] != 0)
    requires j < count
    ensures Walk(Linked(g, fat, b, count, tail), b as uint32, j) == Some((b + j) as uint32)
    decreases j
  {
    if j > 0 {
      LinkedWalk(g, fat, b, count, tail, j - 1);
      WalkNext(Linked(g, fat, b, count, tail), b as uint32, j - 1);
    }
  }

  /**
   * The run that allocContiguous links is a chain of exactly count clusters
   * ending with the end-of-chain mark, and a tail cluster in use now leads
   * to its first cluster.
   */
  lemma LinkedIsChain(g: Geometry, fat: seq<uint32>, b: nat, count: nat, tail: nat)
    requires count >= 1 && b + count <= |fat| <= EocMin(g) && RunFree(fat, b, count)
    requires tail == 0 || (tail < |fat| && fat[tail] != 0)
    ensures ChainLinks(g, Linked(g, fat, b, count, tail), b as uint32, count)
    ensures tail != 0 ==> Walk(Linked(g, fat, b, count, tail), tail as uint32, 1) == Some(b as uint32)
  {
    var r := Linked(g, fat, b, count, tail);
    var c: uint32 := b as uint32;
    forall j | 1 <= j < count
      ensures Walk(r, c, j).Some? && !IsEOC(g, Walk(r, c, j).value)
    {
      LinkedWalk(g, fat, b, count, tail, j);
    }
    LinkedWalk(g, fat, b, count, tail, count - 1);
    WalkNext(r, b as uint32, count - 1);
  }

  function Zeros512(): (r: seq<byte>)
    ensures |r| == BLOCK_SIZE && forall i :: 0 <= i < BLOCK_SIZE ==> r[i] == 0
  {
    seq(BLOCK_SIZE, i => 0)
  }

  /** The running size of chainSize: one more cluster, still modulo 2^32. */
  lemma SizeStep(k: nat, cb: nat, s: nat)
    requires s == (k * cb) % UINT32_LIMIT
    ensures (s + cb) % UINT32_LIMIT == ((k + 1) * cb) % UINT32_LIMIT
  {
    var x := k * cb;
    assert (k + 1) * cb == x + cb;
    assert x == UINT32_LIMIT * (x / UINT32_LIMIT) + s;
    assert x + cb == UINT32_LIMIT * (x / UINT32_LIMIT) + (s + cb);
  }

  /** The clusters whose table entry is in use. */
  function NonFree(fat: seq<uint32>): set<nat>
  {
    set i | 0 <= i < |fat| && fat[i] != 0
  }

  /** Freeing a used entry shrinks the set of used entries; freeing a free one keeps it. */
  lemma FreeStep(fat: seq<uint32>, c: nat)
    requires c < |fat|
    ensures fat[c] != 0 ==> NonFree(fat[c := 0]) < NonFree(fat)
    ensures fat[c] == 0 ==> fat[c := 0] == fat
  {
    if fat[c] != 0 {
      assert c in NonFree(fat) && c !in NonFree(fat[c := 0]);
    }
  }

  /** One step of freeChain on a cluster not yet freed keeps the loop's picture of the table. */
  lemma FreeChainStep(fat0: seq<uint32>, c: uint32, k: nat, cur: uint32, before: seq<uint32>, next: uint32)
    requires Walk(fat0, c, k) == Some(cur) && 2 <= cur < |fat0|
    requires before == FreeAll(fat0, ChainSet(fat0, c, k)) && cur !in ChainSet(fat0, c, k)
    requires next == before[cur]
    requires DistinctPrefix(fat0, c, k)
    ensures Walk(fat0, c, k + 1) == Some(next)
    ensures before[cur := 0] == FreeAll(fat0, ChainSet(fat0, c, k + 1))
    ensures ChainSet(fat0, c, k + 1) == ChainSet(fat0, c, k) + {cur}
    ensures DistinctPrefix(fat0, c, k + 1)
  {
    WalkNext(fat0, c, k);
    assert ChainSet(fat0, c, k + 1) == ChainSet(fat0, c, k) + {cur};
    assert before[cur := 0] == FreeAll(fat0, ChainSet(fat0, c, k + 1));
    forall i, j | 0 <= i < j < k + 1 && Walk(fat0, c, j).Some?
      ensures Walk(fat0, c, i) != Walk(fat0, c, j)
    {
      if j == k {
        assert Walk(fat0, c, i).Some? ==> Walk(fat0, c, i).value in ChainSet(fat0, c, k);
      }
    }
  }
}
