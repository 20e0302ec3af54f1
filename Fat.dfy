/**
 * Values of a FAT volume that SdFile computes with: the geometry, the
 * end-of-chain test, cluster and block arithmetic for a byte position, and
 * walking a cluster chain through the file allocation table.
 */
module Fat {
  import opened Bytes

  const BLOCK_SIZE: nat := 512
  /** Smallest FAT16 entry value that ends a chain. */
  const FAT16_EOC_MIN: nat := 0xFFF8
  /** Smallest FAT32 entry value that ends a chain. */
  const FAT32_EOC_MIN: nat := 0x0FFF_FFF8

  /**
   * What SdFile reads from its volume: FAT type, cluster size as a shift of
   * the block count, the first data block, and the root directory (its first
   * block and entry count for a fixed FAT16 root, its first cluster on FAT32).
   */
  datatype Geometry = Geometry(
    fatType: nat,
    clusterSizeShift: nat,
    dataStartBlock: uint32,
    rootDirStart: uint32,
    rootDirEntryCount: uint16)

  /**
   * A cluster holds at most 128 blocks. The FAT type is left free: 16 and 32
   * are the types SdFile handles, any other value stands for a volume that
   * is not initialised (or FAT12, which is not supported).
   */
  predicate GoodGeometry(g: Geometry) {
    g.clusterSizeShift <= 7
  }

  function BlocksPerCluster(g: Geometry): (r: nat)
    ensures r >= 1
  {
    Pow2(g.clusterSizeShift)
  }

  /** Bytes in a cluster: 512 << clusterSizeShift. */
  function ClusterBytes(g: Geometry): (r: nat)
    ensures r >= BLOCK_SIZE
  {
    BLOCK_SIZE * BlocksPerCluster(g)
  }

  /** The bytes of a chain of k clusters, added up in 32-bit arithmetic as chainSize does. */
  function ChainBytes(g: Geometry, k: nat): (r: nat)
    ensures r < UINT32_LIMIT && r % 32 == 0
  {
    ChainBytesAligned(g, k);
    (k * ClusterBytes(g)) % UINT32_LIMIT
  }

  /** A cluster is a whole number of 32-byte units, and so is what wrapping to 32 bits leaves of a multiple of it. */
  lemma ChainBytesAligned(g: Geometry, k: nat)
    ensures ((k * ClusterBytes(g)) % UINT32_LIMIT) % 32 == 0
  {
    var a := 16 * k * BlocksPerCluster(g);
    var x := k * ClusterBytes(g);
    assert x == 32 * a;
    var q := x / UINT32_LIMIT;
    var r := x % UINT32_LIMIT;
    assert x == q * UINT32_LIMIT + r;
    assert r == 32 * (a - q * 0x800_0000);
    DivUnique(r, 32, a - q * 0x800_0000, 0);
  }

  // ------------------------------------------------------------ bit shifts

  /** x >> k. */
  function Shr(x: nat, k: nat): nat
    decreases k
  {
    if k == 0 then x else Shr(x / 2, k - 1)
  }

  /** x & ((1 << k) - 1): the k low bits of x. */
  function LowBits(x: nat, k: nat): nat
    decreases k
  {
    if k == 0 then 0 else x % 2 + 2 * LowBits(x / 2, k - 1)
  }

  /** x << k. */
  function Shl(x: nat, k: nat): nat
    decreases k
  {
    if k == 0 then x else Shl(2 * x, k - 1)
  }

  /** x splits into its high bits x >> k and its k low bits. */
  lemma {:induction false} ShrLowSplit(x: nat, k: nat)
    ensures x == Shr(x, k) * Pow2(k) + LowBits(x, k) && LowBits(x, k) < Pow2(k)
    decreases k
  {
    if k > 0 {
      ShrLowSplit(x / 2, k - 1);
      assert Shr(x, k) * Pow2(k) == 2 * (Shr(x / 2, k - 1) * Pow2(k - 1));
    }
  }

  /** Shifting right by k is dividing by 2^k, masking the k low bits is the remainder. */
  lemma ShiftIsDivMod(x: nat, k: nat)
    ensures Shr(x, k) == x / Pow2(k) && LowBits(x, k) == x % Pow2(k)
  {
    ShrLowSplit(x, k);
    DivUnique(x, Pow2(k), Shr(x, k), LowBits(x, k));
  }

  /** Shifting left by k is multiplying by 2^k. */
  lemma {:induction false} ShlIsMul(x: nat, k: nat)
    ensures Shl(x, k) == x * Pow2(k)
    decreases k
  {
    if k > 0 {
      ShlIsMul(2 * x, k - 1);
    }
  }

  /**
   * Going back from a > 0 to a - 1 lowers a >> k by one exactly when the k
   * low bits of a are all zero.
   */
  lemma {:induction false} ShrPrevious(a: nat, k: nat)
    requires a > 0
    ensures LowBits(a, k) == 0 ==> Shr(a - 1, k) + 1 == Shr(a, k)
    ensures LowBits(a, k) != 0 ==> Shr(a - 1, k) == Shr(a, k)
    decreases k
  {
    if k > 0 && a % 2 == 0 {
      ShrPrevious(a / 2, k - 1);
    }
  }

  /** x >> k is monotone in x. */
  lemma {:induction false} ShrMonotone(x: nat, y: nat, k: nat)
    requires x <= y
    ensures Shr(x, k) <= Shr(y, k)
    decreases k
  {
    if k > 0 {
      ShrMonotone(x / 2, y / 2, k - 1);
    }
  }

  /** The index in its chain of the cluster holding byte p: p >> (9 + clusterSizeShift). */
  function ClusterIndex(g: Geometry, p: nat): nat {
    Shr(p / BLOCK_SIZE, g.clusterSizeShift)
  }

  /** The cluster index is the quotient of the position by the cluster size. */
  lemma ClusterIndexIsDiv(g: Geometry, p: nat)
    ensures ClusterIndex(g, p) == p / ClusterBytes(g)
  {
    ShiftIsDivMod(p / BLOCK_SIZE, g.clusterSizeShift);
    DivDiv(p, BLOCK_SIZE, BlocksPerCluster(g));
  }

  /** The smallest table entry that ends a chain on this volume. */
  function EocMin(g: Geometry): nat {
    if g.fatType == 16 then FAT16_EOC_MIN else FAT32_EOC_MIN
  }

  /** isEOC: the entry value ends a chain. */
  predicate IsEOC(g: Geometry, c: nat) {
    c >= EocMin(g)
  }

  /** The value fatPutEOC stores in the last cluster of a chain. */
  function EocMark(g: Geometry): (r: uint32)
    ensures IsEOC(g, r)
  {
    if g.fatType == 16 then 0xFFFF else 0x0FFF_FFFF
  }

  /**
   * clusterStartBlock: dataStartBlock + ((c - 2) << clusterSizeShift), all in
   * 32-bit unsigned arithmetic (clusters 0 and 1 wrap around).
   */
  function ClusterStartBlock(g: Geometry, c: uint32): uint32 {
    (g.dataStartBlock as nat + Shl((c as int - 2) % UINT32_LIMIT, g.clusterSizeShift)) % UINT32_LIMIT
  }

  /** blockOfCluster: (pos >> 9) & (blocksPerCluster - 1), the block of pos within its cluster. */
  function BlockOfCluster(g: Geometry, pos: nat): nat {
    LowBits(pos / BLOCK_SIZE, g.clusterSizeShift)
  }

  /** The block of a position within its cluster is below the number of blocks per cluster. */
  lemma BlockOfClusterBound(g: Geometry, pos: nat)
    ensures BlockOfCluster(g, pos) < BlocksPerCluster(g)
  {
    ShrLowSplit(pos / BLOCK_SIZE, g.clusterSizeShift);
  }

  /** The cluster reached from c by following k links of the table; None when a link is off the table. */
  function Walk(fat: seq<uint32>, c: uint32, k: nat): Option<uint32>
    decreases k
  {
    if k == 0 then Some(c)
    else if c < |fat| then Walk(fat, fat[c], k - 1)
    else None
  }

  /** Following j links and then k more is following j + k links. */
  lemma {:induction false} WalkAdd(fat: seq<uint32>, c: uint32, j: nat, k: nat)
    ensures Walk(fat, c, j + k) == match Walk(fat, c, j) { case None => None case Some(d) => Walk(fat, d, k) }
    decreases j
  {
    if j > 0 && c < |fat| {
      WalkAdd(fat, fat[c], j - 1, k);
    }
  }

  /** One more link: the successor in the table of the cluster reached after j links. */
  lemma WalkNext(fat: seq<uint32>, c: uint32, j: nat)
    ensures Walk(fat, c, j + 1) == match Walk(fat, c, j) {
      case None => None
      case Some(d) => if d < |fat| then Some(fat[d]) else None }
  {
    WalkAdd(fat, c, j, 1);
  }

  /** The two tables agree at the cluster w, if there is one on the table. */
  predicate SameAt(fat: seq<uint32>, fat': seq<uint32>, w: Option<uint32>) {
    w.None? || w.value >= |fat| || (w.value < |fat'| && fat'[w.value] == fat[w.value])
  }

  /** Changing table entries off the first k clusters of a chain does not change the walk. */
  lemma {:induction false} WalkFrame(fat: seq<uint32>, fat': seq<uint32>, c: uint32, k: nat)
    requires |fat| == |fat'|
    requires forall j :: 0 <= j < k ==> SameAt(fat, fat', Walk(fat, c, j))
    ensures Walk(fat', c, k) == Walk(fat, c, k)
    decreases k
  {
    if k > 0 && c < |fat| {
      assert SameAt(fat, fat', Walk(fat, c, 0));
      forall j | 0 <= j < k - 1
        ensures SameAt(fat, fat', Walk(fat, fat[c], j))
      {
        WalkAdd(fat, c, 1, j);
        assert SameAt(fat, fat', Walk(fat, c, 1 + j));
      }
      WalkFrame(fat, fat', fat[c], k - 1);
    }
  }

  // ---------------------------------------------------------- position arithmetic

  lemma MulAtLeast(a: int, d: int)
    requires a >= 1 && d > 0
    ensures a * d >= d
  {
  }

  /** A multiple of d strictly between -d and d is 0. */
  lemma MulSmall(a: int, d: int)
    requires d > 0 && -d < a * d < d
    ensures a == 0
  {
    if a > 0 {
      MulAtLeast(a, d);
    } else if a < 0 {
      MulAtLeast(-a, d);
    }
  }

  /** Quotient and remainder are the unique q, r with x == q * d + r and 0 <= r < d. */
  lemma DivUnique(x: nat, d: nat, q: nat, r: nat)
    requires d > 0 && r < d && x == q * d + r
    ensures x / d == q && x % d == r
  {
    var q', r' := x / d, x % d;
    assert (q - q') * d == r' - r;
    MulSmall(q - q', d);
  }

  /** Dividing by a and then by b is dividing by a * b. */
  lemma DivDiv(x: nat, a: nat, b: nat)
    requires a > 0 && b > 0
    ensures (x / a) / b == x / (a * b)
  {
    var q1, r1 := x / a, x % a;
    var q2, r2 := q1 / b, q1 % b;
    assert x == (a * b) * q2 + (a * r2 + r1) by {
      assert x == a * q1 + r1;
      assert a * q1 == a * (b * q2) + a * r2;
    }
    assert a * r2 + r1 < a * b by {
      MulAtLeast(b - r2, a);
      assert (b - r2) * a == a * b - a * r2;
    }
    DivUnique(x, a * b, q2, a * r2 + r1);
  }

  /**
   * Moving back one byte from pos > 0 stays in the same cluster unless pos
   * starts a cluster (block offset 0 and block 0 of its cluster), in which
   * case it is one cluster earlier.
   */
  lemma ClusterOfPrevious(g: Geometry, pos: nat)
    requires pos > 0
    ensures pos % BLOCK_SIZE == 0 && BlockOfCluster(g, pos) == 0 ==> ClusterIndex(g, pos - 1) + 1 == ClusterIndex(g, pos)
    ensures !(pos % BLOCK_SIZE == 0 && BlockOfCluster(g, pos) == 0) ==> ClusterIndex(g, pos - 1) == ClusterIndex(g, pos)
  {
    if pos % BLOCK_SIZE == 0 {
      assert (pos - 1) / BLOCK_SIZE == pos / BLOCK_SIZE - 1;
      ShrPrevious(pos / BLOCK_SIZE, g.clusterSizeShift);
    } else {
      assert (pos - 1) / BLOCK_SIZE == pos / BLOCK_SIZE;
    }
  }

  /** Cluster indices are monotone in the position. */
  lemma ClusterIndexMonotone(g: Geometry, p: nat, q: nat)
    requires p <= q
    ensures ClusterIndex(g, p) <= ClusterIndex(g, q)
  {
    ShrMonotone(p / BLOCK_SIZE, q / BLOCK_SIZE, g.clusterSizeShift);
  }
}
