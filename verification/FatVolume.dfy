/**
 A mounted FAT16 or FAT32 volume: the links of the FAT, the cluster chains they
 form, and the bytes of a file that starts at a given cluster.
*/
module FatVolume {
  import opened Wrappers
  import opened Bits
  import opened Division

  const SECTOR := 512

  type Sector = s: seq<byte> | |s| == SECTOR witness seq(SECTOR, _ => 0)

  datatype FsType = FAT16 | FAT32

  /** Clusters have 2^log2csize sectors. A sector that cannot be read is None. */
  datatype Volume = Volume(fs_type: FsType, log2csize: nat, n_rootdir: nat, n_fatent: nat,
                           fatbase: nat, dirbase: nat, database: nat, disk: nat -> Option<Sector>)
  {
    ghost predicate Mounted() { log2csize <= 7 && database > 0 && dirbase > 0 }

    function Csize(): (r: nat)
      ensures r >= 1
    {
      Pow2(log2csize)
    }

    /** The bytes of a cluster. */
    function Bcs(): (r: nat)
      ensures r >= SECTOR
    {
      Product(1, Csize(), SECTOR);
      Csize() * SECTOR
    }

    /** The cluster of the chain, and the sector in it, that byte p of a file is in. */
    function ClusterNo(p: nat): nat { p / SECTOR / Csize() }

    function SectorIn(p: nat): nat { p / SECTOR % Csize() }

    /** The first byte of cluster number q. */
    function Start(q: nat): nat { q * Bcs() }

    predicate InRange(clst: nat) { 2 <= clst < n_fatent }

    /** The entry of a cluster in the FAT; 1 when it cannot be had. */
    function GetFat(clst: nat): nat {
      if !InRange(clst) then 1
      else if fs_type == FAT16 then
        match disk(fatbase + clst / 256)
        case None => 1
        case Some(s) => LdWord(s[clst % 256 * 2..])
      else
        match disk(fatbase + clst / 128)
        case None => 1
        case Some(s) => LdDword(s[clst % 128 * 4..]) % 0x1000_0000
    }

    /** The first sector of a cluster; 0 when there is no such cluster. */
    function Clust2Sect(clst: nat): (r: nat)
      ensures Mounted() ==> (r == 0 <==> !InRange(clst))
    {
      if InRange(clst) then (clst - 2) * Csize() + database else 0
    }

    /** Element i of the chain that starts at a cluster. */
    function Chain(start: nat, i: nat): nat {
      if i == 0 then start else GetFat(Chain(start, i - 1))
    }

    /** Once a chain has left the volume it never comes back. */
    lemma {:induction false} ChainGood(start: nat, i: nat, j: nat)
      requires i <= j && InRange(Chain(start, j))
      ensures InRange(Chain(start, i))
    {
      if i < j { ChainGood(start, i, j - 1); }
    }

    lemma {:induction false} ChainNext(start: nat, i: nat)
      ensures Chain(start, 0) == start && Chain(start, i + 1) == GetFat(Chain(start, i))
    {
    }

    lemma {:induction false} ChainBad(start: nat, i: nat, j: nat)
      requires i <= j && (Chain(start, i) <= 1 || Chain(start, i) >= n_fatent)
      ensures !InRange(Chain(start, j))
    {
      if InRange(Chain(start, j)) { ChainGood(start, i, j); }
    }

    /** The divisions and masks of the code, in these terms. */
    lemma {:induction false} Positions(p: nat)
      ensures p / Bcs() == ClusterNo(p) && And(p / SECTOR, Csize() - 1) == SectorIn(p)
      ensures And(p, Bcs() - 1) <= p && p - And(p, Bcs() - 1) == Start(ClusterNo(p))
    {
      DivDiv(p, SECTOR, Csize());
      AndMask(p / SECTOR, log2csize);
      Pow2Of9(log2csize);
      AndMask(p, log2csize + 9);
      Floor(p, Bcs());
    }

    lemma {:induction false} Starts(q: nat)
      ensures Start(0) == 0 && Start(q + 1) == Start(q) + Bcs()
    {
      Product(q + 1, q + 1, Bcs());
    }

    /** Byte p is in cluster q or behind it if its start is not behind p. */
    lemma {:induction false} Within(q: nat, p: nat)
      ensures Start(q) <= p <==> q <= ClusterNo(p)
    {
      DivDiv(p, SECTOR, Csize());
      DivAtLeast(p, Bcs(), q);
    }

    /** The sector and the cluster of the byte before p. */
    lemma {:induction false} StepBack(p: nat)
      requires p > 0
      ensures p % SECTOR != 0 ==> ClusterNo(p - 1) == ClusterNo(p) && SectorIn(p - 1) == SectorIn(p)
      ensures p % SECTOR == 0 && SectorIn(p) != 0 ==> ClusterNo(p - 1) == ClusterNo(p)
      ensures p % SECTOR == 0 && SectorIn(p) == 0 ==> ClusterNo(p - 1) + 1 == ClusterNo(p)
    {
      if p % SECTOR == 0 {
        var s := p / SECTOR;
        var q, r := s / Csize(), s % Csize();
        if r != 0 {
          DivUnique(s - 1, Csize(), q, r - 1);
        } else {
          Product(q, q, Csize());
          DivUnique(s - 1, Csize(), q - 1, Csize() - 1);
        }
      }
    }

    /** The sector that byte p of the file that starts at a cluster is in, if it can be read. */
    function SectorAt(start: nat, p: nat): Option<Sector> {
      var clst := Chain(start, ClusterNo(p));
      if InRange(clst) then disk(Clust2Sect(clst) + SectorIn(p)) else None
    }

    /** Byte p of the file, if it can be read. */
    function ByteAt(start: nat, p: nat): Option<byte> {
      match SectorAt(start, p)
      case None => None
      case Some(s) => Some(s[p % SECTOR])
    }

    /** Up to n bytes of the file from p on, as far as they can be read. */
    function Bytes(start: nat, p: nat, n: nat): (r: seq<byte>)
      ensures |r| <= n
      decreases n
    {
      if n == 0 || ByteAt(start, p).None? then [] else [ByteAt(start, p).value] + Bytes(start, p + 1, n - 1)
    }

    lemma {:induction false} AtStart()
      ensures ClusterNo(0) == 0 && SectorIn(0) == 0
    {
    }

    /** Positions in the same sector are in the same cluster. */
    lemma {:induction false} SameSector(p: nat, k: nat)
      requires p % SECTOR + k < SECTOR
      ensures (p + k) / SECTOR == p / SECTOR && (p + k) % SECTOR == p % SECTOR + k
      ensures ClusterNo(p + k) == ClusterNo(p) && SectorIn(p + k) == SectorIn(p)
    {
    }

    lemma {:induction false} BytesMore(start: nat, p: nat, n: nat)
      requires n > 0
      ensures ByteAt(start, p).None? ==> Bytes(start, p, n) == []
      ensures ByteAt(start, p).Some? ==> Bytes(start, p, n) == [ByteAt(start, p).value] + Bytes(start, p + 1, n - 1)
    {
    }

    lemma {:induction false} ByteInSector(start: nat, p: nat, k: nat)
      requires p % SECTOR + k < SECTOR
      ensures SectorAt(start, p + k) == SectorAt(start, p) && (p + k) % SECTOR == p % SECTOR + k
      ensures ByteAt(start, p + k) == match SectorAt(start, p) case None => None case Some(s) => Some(s[p % SECTOR + k])
    {
      SameSector(p, k);
    }

    lemma {:induction false} Glue(s: seq<byte>, i: nat, k: nat, t: seq<byte>)
      requires i + k <= |s| && k > 0
      ensures [s[i]] + (s[i + 1..i + k] + t) == s[i..i + k] + t
    {
    }

    /** Bytes up to the end of a sector are read from that sector. */
    lemma {:induction false} SectorBytesFrom(start: nat, p: nat, s: Sector, i: nat, k: nat, n: nat)
      requires i == p % SECTOR && i + k <= SECTOR && k <= n && (k > 0 ==> SectorAt(start, p) == Some(s))
      ensures Bytes(start, p, n) == s[i..i + k] + Bytes(start, p + k, n - k)
      decreases k
    {
      hide SectorAt, ByteAt, Bytes;
      if k > 0 {
        ByteInSector(start, p, 0);
        BytesMore(start, p, n);
        if k > 1 { ByteInSector(start, p, 1); }
        if k > 1 {
          SectorBytesFrom(start, p + 1, s, i + 1, k - 1, n - 1);
          Glue(s, i, k, Bytes(start, p + k, n - k));
        } else {
          Glue(s, i, 1, Bytes(start, p + 1, n - 1));
          NoneTaken(s, i + 1, Bytes(start, p + 1, n - 1));
        }
      } else {
        NoneTaken(s, i, Bytes(start, p, n));
      }
    }

    lemma {:induction false} NoneTaken(s: seq<byte>, i: nat, t: seq<byte>)
      requires i <= |s|
      ensures s[i..i] + t == t
    {
    }

    lemma {:induction false} SectorBytes(start: nat, p: nat, k: nat, n: nat)
      requires p % SECTOR + k <= SECTOR && 0 < k <= n
      ensures match SectorAt(start, p)
              case None => Bytes(start, p, n) == []
              case Some(s) => Bytes(start, p, n) == s[p % SECTOR..p % SECTOR + k] + Bytes(start, p + k, n - k)
    {
      BytesMore(start, p, n);
      if SectorAt(start, p).Some? { SectorBytesFrom(start, p, SectorAt(start, p).value, p % SECTOR, k, n); }
    }

    /** After k bytes of a sector the cursor is in it, or behind its last byte. */
    lemma {:induction false} Onward(p: nat, k: nat)
      requires p % SECTOR + k <= SECTOR && 0 < k
      ensures ClusterNo(p + k - 1) == ClusterNo(p)
      ensures (p + k) % SECTOR != 0 ==> SectorIn(p + k) == SectorIn(p)
    {
      SameSector(p, k - 1);
      if p % SECTOR + k < SECTOR { SameSector(p, k); }
    }

    /** From one 32-byte record of a chain to the next. */
    lemma {:induction false} EntryStep(i: nat)
      ensures (32 * (i + 1)) / SECTOR == (i + 1) / 16
      ensures (i + 1) % 16 != 0 ==> ClusterNo(32 * (i + 1)) == ClusterNo(32 * i) && SectorIn(32 * (i + 1)) == SectorIn(32 * i)
      ensures (i + 1) % 16 == 0 && SectorIn(32 * (i + 1)) != 0 ==>
                ClusterNo(32 * (i + 1)) == ClusterNo(32 * i) && SectorIn(32 * (i + 1)) == SectorIn(32 * i) + 1
      ensures (i + 1) % 16 == 0 && SectorIn(32 * (i + 1)) == 0 ==> ClusterNo(32 * (i + 1)) == ClusterNo(32 * i) + 1
    {
      var p := 32 * (i + 1);
      SameSector(32 * i, 31);
      StepBack(p);
    }

    /** A file that can be read is an array of bytes. */
    lemma {:induction false} BytesAre(start: nat, p: nat, n: nat)
      ensures var r := Bytes(start, p, n);
              && (forall i :: 0 <= i < |r| ==> ByteAt(start, p + i) == Some(r[i]))
              && (|r| < n ==> ByteAt(start, p + |r|) == None)
      decreases n
    {
      hide ByteAt;
      if n > 0 && ByteAt(start, p).Some? {
        BytesAre(start, p + 1, n - 1);
        var r, r' := Bytes(start, p, n), Bytes(start, p + 1, n - 1);
        forall i | 0 <= i < |r| ensures ByteAt(start, p + i) == Some(r[i]) {
          if i > 0 { assert r[i] == r'[i - 1] && ByteAt(start, p + 1 + (i - 1)) == Some(r'[i - 1]); }
        }
      }
    }

    /** What is read does not depend on how it is split. */
    lemma {:induction false} BytesSplit(start: nat, p: nat, a: nat, b: nat)
      ensures var r := Bytes(start, p, a);
              Bytes(start, p, a + b) == if |r| < a then r else r + Bytes(start, p + a, b)
      decreases a
    {
      hide ByteAt;
      if a > 0 && ByteAt(start, p).Some? { BytesSplit(start, p + 1, a - 1, b); }
    }
  }

  function LdWord(b: seq<byte>): nat
    requires |b| >= 2
  {
    b[1] as int * 0x100 + b[0]
  }

  function LdDword(b: seq<byte>): nat
    requires |b| >= 4
  {
    b[3] as int * 0x1000000 + b[2] as int * 0x10000 + b[1] as int * 0x100 + b[0]
  }

  lemma {:induction false} Floor(x: nat, d: nat)
    requires d > 0
    ensures x % d <= x && x - x % d == x / d * d
  {
  }

  lemma {:induction false} Pow2Of9(k: nat)
    ensures Pow2(k + 9) == Pow2(k) * SECTOR
  {
    assert Pow2(k + 9) == 2 * Pow2(k + 8) && Pow2(k + 8) == 2 * Pow2(k + 7) && Pow2(k + 7) == 2 * Pow2(k + 6);
    assert Pow2(k + 6) == 2 * Pow2(k + 5) && Pow2(k + 5) == 2 * Pow2(k + 4) && Pow2(k + 4) == 2 * Pow2(k + 3);
    assert Pow2(k + 3) == 2 * Pow2(k + 2) && Pow2(k + 2) == 2 * Pow2(k + 1) && Pow2(k + 1) == 2 * Pow2(k);
  }
}
