/**
 The open file of a mounted volume: a cursor that remembers the cluster it is
 in, so that reading on and seeking forward need not follow the chain again.
*/
module FatFile {
  import opened Wrappers
  import opened Bits
  import opened Division
  import opened FatVolume

  datatype FResult = FR_OK | FR_DISK_ERR | FR_NOT_OPENED

  function Min(a: nat, b: nat): (m: nat) { if a < b then a else b }

  class FatFs {
    const vol: Volume
    var isOpen: bool
    var fptr: nat
    var fsize: nat
    var org_clust: nat
    var curr_clust: nat
    var dsect: nat

    constructor (vol: Volume)
      requires vol.Mounted()
      ensures this.vol == vol && !isOpen && Valid()
    {
      this.vol := vol;
      isOpen, fptr, fsize, org_clust, curr_clust, dsect := false, 0, 0, 0, 0, 0;
    }

    /** The cluster that byte p of the file is in. */
    ghost function ClusterAt(p: nat): nat
      reads `org_clust
    {
      vol.Chain(org_clust, vol.ClusterNo(p))
    }

    ghost function Byte(p: nat): Option<byte>
      reads `org_clust
    {
      vol.ByteAt(org_clust, p)
    }

    /** How the cached cluster and sector go with the cursor. */
    ghost predicate Valid()
      reads this
    {
      vol.Mounted() && (isOpen ==>
        && fptr <= fsize
        && (fptr > 0 ==> curr_clust == ClusterAt(fptr - 1) && vol.InRange(curr_clust))
        && (fptr % SECTOR != 0 ==> dsect == vol.Clust2Sect(curr_clust) + vol.SectorIn(fptr)))
    }

    /** The last steps of opening a file, given its directory entry. */
    method Open(dir: seq<byte>)
      requires Valid() && |dir| == 32
      modifies this
      ensures Valid() && isOpen && fptr == 0 && fsize == LdDword(dir[28..32])
      ensures org_clust == LdWord(dir[26..28]) + if vol.fs_type == FAT32 then LdWord(dir[20..22]) * 0x10000 else 0
    {
      org_clust := if vol.fs_type == FAT32 then LdWord(dir[20..22]) * 0x10000 else 0;
      org_clust := org_clust + LdWord(dir[26..28]);
      fsize := LdDword(dir[28..32]);
      fptr := 0;
      isOpen := true;
    }

    lemma {:induction false} ValidMeans()
      requires Valid()
      ensures vol.Mounted() && (isOpen ==> fptr <= fsize)
    {
    }

    method Abort()
      requires vol.Mounted()
      modifies `isOpen
      ensures Valid() && !isOpen
    {
      isOpen := false;
    }

    /**
     Set the cursor, clipped to the size of the file: fails exactly if the
     byte before the new position lies in no cluster, from wherever the cursor was.
    */
    method PfLseek(ofs: nat) returns (res: FResult)
      requires Valid()
      modifies `isOpen, `fptr, `curr_clust, `dsect
      ensures Valid() && (!old(isOpen) ==> res == FR_NOT_OPENED && !isOpen)
      ensures var to := Min(ofs, fsize); old(isOpen) ==>
                && res == (if to == 0 || vol.InRange(ClusterAt(to - 1)) then FR_OK else FR_DISK_ERR)
                && isOpen == (res == FR_OK) && (isOpen ==> fptr == to)
    {
      hide And, Volume.Mounted, Volume.Csize, Volume.Bcs, Volume.ClusterNo, Volume.SectorIn, Volume.Start, Volume.InRange, Volume.Clust2Sect, Volume.Chain;
      if !isOpen { return FR_NOT_OPENED; }
      var ofs := Min(ofs, fsize);
      ghost var to := ofs;
      var ifptr := fptr;
      fptr := 0;
      if ofs > 0 {
        var bcs := vol.Bcs();
        ghost var q: nat := 0;
        var clst;
        vol.Positions(ofs - 1);
        vol.Starts(0);
        vol.ChainNext(org_clust, 0);
        if ifptr > 0 { vol.Positions(ifptr - 1); }
        if ifptr > 0 && (ofs - 1) / bcs >= (ifptr - 1) / bcs {
          q := vol.ClusterNo(ifptr - 1);
          vol.Within(q, ofs - 1);
          fptr := ifptr - 1 - And(ifptr - 1, bcs - 1);
          ofs := ofs - fptr;
          clst := curr_clust;
        } else {
          clst := org_clust;
          curr_clust := clst;
        }
        res := Follow(ofs, clst, q, to);
      } else {
        res := FR_OK;
      }
    }

    /** Follow the chain from cluster number q, where the cursor is, for ofs bytes. */
    method Follow(ofs: nat, clst: nat, ghost q: nat, ghost to: nat) returns (res: FResult)
      requires vol.Mounted() && isOpen && 0 < ofs && fptr + ofs == to <= fsize
      requires fptr == vol.Start(q) && clst == curr_clust == vol.Chain(org_clust, q) && (q > 0 ==> vol.InRange(clst))
      modifies `isOpen, `fptr, `curr_clust, `dsect
      ensures Valid() && res == (if vol.InRange(ClusterAt(to - 1)) then FR_OK else FR_DISK_ERR)
      ensures isOpen == (res == FR_OK) && (isOpen ==> fptr == to)
    {
      var ofs, clst := ofs, clst;
      ghost var q := q;
      var bcs := vol.Bcs();
      hide Volume.Bcs, Volume.ClusterNo, Volume.SectorIn, Volume.Start, Volume.Csize, Volume.Chain, Volume.GetFat, Volume.Clust2Sect, And;
      while ofs > bcs
        invariant isOpen && fptr == vol.Start(q) && fptr + ofs == to && ofs > 0
        invariant clst == curr_clust == vol.Chain(org_clust, q) && (q > 0 ==> vol.InRange(clst))
      {
        vol.Starts(q);
        vol.Within(q + 1, to - 1);
        vol.ChainNext(org_clust, q);
        clst := vol.GetFat(clst);
        if clst <= 1 || clst >= vol.n_fatent {
          Abort();
          vol.ChainBad(org_clust, q + 1, vol.ClusterNo(to - 1));
          return FR_DISK_ERR;
        }
        curr_clust := clst;
        fptr := fptr + bcs;
        ofs := ofs - bcs;
        q := q + 1;
      }
      vol.Starts(q);
      vol.Within(q, to - 1);
      vol.Within(q + 1, to - 1);
      vol.Positions(to);
      fptr := fptr + ofs;
      var sect := vol.Clust2Sect(clst);
      if sect == 0 {
        Abort();
        return FR_DISK_ERR;
      }
      dsect := sect + And(fptr / SECTOR, vol.Csize() - 1);
      if fptr % SECTOR != 0 { vol.StepBack(fptr); }
      return FR_OK;
    }

    /** Find the sector of the byte at the cursor, unless it is known; false if it lies in no cluster. */
    method Locate() returns (found: bool)
      requires Valid() && isOpen
      modifies `curr_clust, `dsect
      ensures found == vol.InRange(ClusterAt(fptr))
      ensures found ==> curr_clust == ClusterAt(fptr) && dsect == vol.Clust2Sect(curr_clust) + vol.SectorIn(fptr)
    {
      hide And, Volume.Mounted, Volume.Csize, Volume.Bcs, Volume.ClusterNo, Volume.SectorIn, Volume.Start, Volume.GetFat, Volume.Clust2Sect, Volume.Chain;
      vol.Positions(fptr);
      vol.ChainNext(org_clust, 0);
      if fptr > 0 {
        vol.StepBack(fptr);
        vol.ChainNext(org_clust, vol.ClusterNo(fptr - 1));
      } else {
        vol.AtStart();
      }
      if fptr % SECTOR == 0 {
        var cs := And(fptr / SECTOR, vol.Csize() - 1);
        if cs == 0 {
          var clst := if fptr == 0 then org_clust else vol.GetFat(curr_clust);
          if clst <= 1 { return false; }
          curr_clust := clst;
        }
        var sect := vol.Clust2Sect(curr_clust);
        if sect == 0 { return false; }
        dsect := sect + cs;
      }
      return true;
    }

    /** Read on from the cursor, up to the end of the sector it is in; nothing if that cannot be read. */
    method Part(btr: nat) returns (found: bool, part: seq<byte>)
      requires Valid() && isOpen && 0 < btr <= fsize - fptr
      modifies `fptr, `curr_clust, `dsect
      ensures found ==> Valid() && 0 < |part| <= btr && fptr == old(fptr) + |part|
      ensures vol.Bytes(org_clust, old(fptr), btr) == if found then part + vol.Bytes(org_clust, fptr, btr - |part|) else []
    {
      hide Volume.ClusterNo, Volume.SectorIn, Volume.Csize, Volume.Chain, Volume.Clust2Sect, Volume.Bytes;
      part := [];
      found := Locate();
      var rcnt := Min(SECTOR - fptr % SECTOR, btr);
      vol.SectorBytes(org_clust, fptr, rcnt, btr);
      vol.Onward(fptr, rcnt);
      if !found { return; }
      var sector := vol.disk(dsect);
      if sector.None? { return false, part; }
      part := sector.value[fptr % SECTOR..fptr % SECTOR + rcnt];
      fptr := fptr + rcnt;
    }

    /**
     Read on from the cursor, as far as the file goes: the bytes up to the
     first one that cannot be read, and an error exactly if there is one.
    */
    method PfRead(btr: nat) returns (res: FResult, buff: seq<byte>)
      requires Valid()
      modifies `isOpen, `fptr, `curr_clust, `dsect
      ensures Valid() && (!old(isOpen) ==> res == FR_NOT_OPENED && buff == [] && !isOpen)
      ensures old(isOpen) ==>
                && buff == vol.Bytes(org_clust, old(fptr), Min(btr, fsize - old(fptr)))
                && res == (if |buff| == Min(btr, fsize - old(fptr)) then FR_OK else FR_DISK_ERR)
                && isOpen == (res == FR_OK) && (isOpen ==> fptr == old(fptr) + |buff|)
    {
      hide Volume.Bytes, Valid, Volume.Mounted;
      buff := [];
      ValidMeans();
      if !isOpen { return FR_NOT_OPENED, buff; }
      var btr: nat := Min(btr, fsize - fptr);
      ghost var total := btr;
      while btr > 0
        invariant Valid() && isOpen && fptr + btr <= fsize && btr <= total
        invariant vol.Bytes(org_clust, old(fptr), total) == buff + vol.Bytes(org_clust, fptr, btr)
        invariant |buff| + btr == total && fptr == old(fptr) + |buff|
      {
        var found, part := Part(btr);
        if !found {
          Abort();
          return FR_DISK_ERR, buff;
        }
        buff := buff + part;
        btr := btr - |part|;
      }
      return FR_OK, buff;
    }
  }
}
