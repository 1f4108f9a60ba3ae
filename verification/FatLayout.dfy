/**
 Where the bytes of a volume are, said without the functions that find them:
 the data area as one run of clusters, the FAT as one run of entries, a
 directory as a file of records.
*/
module FatLayout {
  import opened Wrappers
  import opened Bits
  import opened Division
  import opened FatVolume
  import opened FatDir

  // -------------------------------------------------------------- clusters

  /** The data area begins with cluster 2, and clusters lie end to end. */
  lemma {:induction false} ClustersEndToEnd(v: Volume, c: nat)
    ensures v.InRange(2) ==> v.Clust2Sect(2) == v.database
    ensures v.InRange(c) && v.InRange(c + 1) ==> v.Clust2Sect(c + 1) == v.Clust2Sect(c) + Pow2(v.log2csize)
  {
    if v.InRange(2) { assert (2 - 2) * v.Csize() == 0; }
    if v.InRange(c) { Product(c - 2 + 1, c - 2 + 1, v.Csize()); }
  }

  lemma {:induction false} ClusterPlace(v: Volume, c: nat, q: nat)
    requires c >= 2 && v.InRange(c + q)
    ensures v.Clust2Sect(c + q) == v.database + (c - 2) * Pow2(v.log2csize) + q * Pow2(v.log2csize)
  {
    assert (c + q - 2) * v.Csize() == (c - 2) * v.Csize() + q * v.Csize();
  }

  /** The m sectors from first on can be read. */
  ghost predicate Readable(v: Volume, first: nat, m: nat) {
    forall k :: first <= k < first + m ==> v.disk(k).Some?
  }

  /** Their bytes, run together. */
  ghost function Together(v: Volume, first: nat, m: nat): (r: seq<byte>)
    requires Readable(v, first, m)
    ensures |r| == m * SECTOR
  {
    if m == 0 then [] else Together(v, first, m - 1) + v.disk(first + m - 1).value
  }

  lemma {:induction false} TogetherAt(v: Volume, first: nat, m: nat, p: nat)
    requires Readable(v, first, m) && p < m * SECTOR
    ensures Together(v, first, m)[p] == v.disk(first + p / SECTOR).value[p % SECTOR]
  {
    if p < (m - 1) * SECTOR {
      TogetherAt(v, first, m - 1, p);
    } else {
      DivUnique(p, SECTOR, m - 1, p - (m - 1) * SECTOR);
    }
  }

  /** The file lies in the q clusters from c on, in order. */
  ghost predicate Contiguous(v: Volume, c: nat, q: nat) {
    forall i :: 0 <= i < q ==> v.Chain(c, i) == c + i && v.InRange(c + i)
  }

  lemma {:induction false} ContiguousSector(v: Volume, c: nat, q: nat, p: nat)
    requires c >= 2 && Contiguous(v, c, q) && p / SECTOR < q * Pow2(v.log2csize)
    ensures v.SectorAt(c, p) == v.disk(v.database + (c - 2) * Pow2(v.log2csize) + p / SECTOR)
  {
    hide Volume.Chain, Volume.Clust2Sect, Pow2;
    var s, n, i := p / SECTOR, v.Csize(), v.ClusterNo(p);
    InCluster(s, n, q);
    assert v.Chain(c, i) == c + i;
    ClusterPlace(v, c, i);
  }

  lemma {:induction false} InCluster(s: nat, n: nat, q: nat)
    requires n > 0 && s < q * n
    ensures s / n < q && s == s / n * n + s % n
  {
    DivAtLeast(s, n, q);
  }

  lemma {:induction false} ContiguousByte(v: Volume, c: nat, q: nat, first: nat, m: nat, p: nat)
    requires c >= 2 && Contiguous(v, c, q) && p < m * SECTOR
    requires first == v.database + (c - 2) * Pow2(v.log2csize) && m == q * Pow2(v.log2csize) && Readable(v, first, m)
    ensures v.ByteAt(c, p) == Some(Together(v, first, m)[p])
  {
    hide Contiguous, Together, Volume.SectorAt, Pow2;
    InCluster(p, SECTOR, m);
    ContiguousSector(v, c, q, p);
    TogetherAt(v, first, m, p);
    assert v.disk(first + p / SECTOR).Some?;
  }

  /** A file in consecutive clusters is the sectors of the data area from its first cluster on, run together. */
  lemma {:induction false} ContiguousFile(v: Volume, c: nat, q: nat, p: nat, n: nat)
    requires c >= 2 && Contiguous(v, c, q) && p + n <= q * Pow2(v.log2csize) * SECTOR
    requires Readable(v, v.database + (c - 2) * Pow2(v.log2csize), q * Pow2(v.log2csize))
    ensures v.Bytes(c, p, n) == Together(v, v.database + (c - 2) * Pow2(v.log2csize), q * Pow2(v.log2csize))[p..p + n]
  {
    hide Contiguous, Readable, Together, Volume.ByteAt, Pow2, Volume.Bytes;
    var first, m := v.database + (c - 2) * Pow2(v.log2csize), q * Pow2(v.log2csize);
    forall k | p <= k < p + n ensures v.ByteAt(c, k) == Some(Together(v, first, m)[k]) {
      ContiguousByte(v, c, q, first, m, k);
    }
    BytesSlice(v, c, p, n, Together(v, first, m));
  }

  lemma {:induction false} BytesSlice(v: Volume, c: nat, p: nat, n: nat, all: seq<byte>)
    requires p + n <= |all| && forall k :: p <= k < p + n ==> v.ByteAt(c, k) == Some(all[k])
    ensures v.Bytes(c, p, n) == all[p..p + n]
    decreases n
  {
    hide Volume.ByteAt;
    if n > 0 {
      BytesSlice(v, c, p + 1, n - 1, all);
      assert all[p..p + n] == [all[p]] + all[p + 1..p + n];
    }
  }

  // ---------------------------------------------------------------- numbers

  /** Two bytes hold a number below 65536, the lower first; four bytes one below 2^32. */
  lemma {:induction false} LowestFirst(n: nat)
    requires n < 0x1_0000_0000
    ensures n < 0x10000 ==> LdWord([n % 256, n / 256]) == n
    ensures LdDword([n % 256, n / 256 % 256, n / 256 / 256 % 256, n / 256 / 256 / 256]) == n
  {
  }

  // ---------------------------------------------------------------- the FAT

  /** Byte k of the FAT. */
  function FatByte(v: Volume, k: nat): Option<byte> {
    match v.disk(v.fatbase + k / SECTOR)
    case None => None
    case Some(s) => Some(s[k % SECTOR])
  }

  /** On FAT16 the entries of the FAT are numbers of two bytes, one behind the other. */
  lemma {:induction false} LinkIs16(v: Volume, c: nat)
    requires v.InRange(c) && v.fs_type == FAT16
    ensures v.GetFat(c) == match (FatByte(v, 2 * c), FatByte(v, 2 * c + 1))
                           case (Some(a), Some(b)) => a as int + 256 * b as int
                           case _ => 1
  {
    Row(c, 2, 0);
    Row(c, 2, 1);
  }

  /** On FAT32 they take four bytes, of which the low 28 bits count. */
  lemma {:induction false} LinkIs32(v: Volume, c: nat)
    requires v.InRange(c) && v.fs_type == FAT32
    ensures v.GetFat(c) == match (FatByte(v, 4 * c), FatByte(v, 4 * c + 1), FatByte(v, 4 * c + 2), FatByte(v, 4 * c + 3))
                           case (Some(a), Some(b), Some(d), Some(e)) =>
                             a as int + 256 * b as int + 65536 * d as int + 16777216 * (e % 16) as int
                           case _ => 1
  {
    Row(c, 4, 0);
    Row(c, 4, 1);
    Row(c, 4, 2);
    Row(c, 4, 3);
    var sector := v.disk(v.fatbase + c / 128);
    if sector.Some? {
      var s, k := sector.value, c % 128 * 4;
      Low28(s[k] as int + 256 * s[k + 1] as int + 65536 * s[k + 2] as int, s[k + 3]);
    }
  }

  lemma {:induction false} Row(c: nat, w: nat, i: nat)
    requires (w == 2 || w == 4) && i < w
    ensures (w * c + i) / SECTOR == c / (512 / w) && (w * c + i) % SECTOR == c % (512 / w) * w + i
  {
    var m := 512 / w;
    var q, r := c / m, c % m;
    assert w * c + i == q * SECTOR + (r * w + i);
    DivUnique(w * c + i, SECTOR, q, r * w + i);
  }

  lemma {:induction false} Low28(x: nat, e: byte)
    requires x < 0x1000000
    ensures (e as int * 0x1000000 + x) % 0x1000_0000 == (e % 16) as int * 0x1000000 + x
  {
    var h: nat, l: nat := e / 16, e % 16;
    DivUnique(e as int * 0x1000000 + x, 0x1000_0000, h, l * 0x1000000 + x);
  }

  // ------------------------------------------------------------ directories

  /** A directory in a chain of clusters is a file of records: entry i is bytes 32 i to 32 i + 32. */
  lemma {:induction false} EntryIsBytes(t: Table, i: nat, e: Record)
    requires t.clst != 0 && t.vol.InRange(t.clst) && t.Entry(i) == Some(e)
    ensures t.vol.Bytes(t.clst, 32 * i, 32) == e
  {
    var p := ENTRY * i;
    RecordPlace(i);
    forall k | 0 <= k < 32 ensures t.vol.ByteAt(t.clst, p + k) == Some(e[k]) { RecordByte(t, i, e, k); }
    RecordBytes(t.vol, t.clst, p, e);
  }

  lemma {:induction false} RecordPlace(i: nat)
    ensures (ENTRY * i) % SECTOR == i % 16 * ENTRY
  {
    var q, r := i / 16, i % 16;
    assert ENTRY * i == q * SECTOR + r * ENTRY;
    DivUnique(ENTRY * i, SECTOR, q, r * ENTRY);
  }

  lemma {:induction false} RecordByte(t: Table, i: nat, e: Record, k: nat)
    requires t.clst != 0 && t.vol.InRange(t.clst) && t.Entry(i) == Some(e) && k < 32
    ensures t.vol.ByteAt(t.clst, ENTRY * i + k) == Some(e[k])
  {
    hide Volume.ClusterNo, Volume.SectorIn, Volume.Chain, Volume.Clust2Sect, Volume.InRange;
    RecordPlace(i);
    t.vol.ByteInSector(t.clst, ENTRY * i, k);
  }

  lemma {:induction false} RecordBytes(v: Volume, c: nat, p: nat, e: Record)
    requires forall k :: 0 <= k < 32 ==> v.ByteAt(c, p + k) == Some(e[k])
    ensures v.Bytes(c, p, 32) == e
  {
    hide Volume.ByteAt;
    var all := seq(p, _ => 0) + e;
    forall k | p <= k < p + 32 ensures v.ByteAt(c, k) == Some(all[k]) { assert all[k] == e[k - p] && p + (k - p) == k; }
    BytesSlice(v, c, p, 32, all);
    assert all[p..p + 32] == e;
  }
}
