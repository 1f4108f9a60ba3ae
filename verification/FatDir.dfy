/** Looking for a name in a directory: a static table, or a chain of clusters. */
module FatDir {
  import opened Wrappers
  import opened Bits
  import opened Division
  import opened FatVolume

  datatype FResult = FR_OK | FR_DISK_ERR | FR_NO_FILE

  const ENTRY := 32
  const MAX_INDEX := 65536

  type Record = s: seq<byte> | |s| == ENTRY witness seq(ENTRY, _ => 0)

  /** Eight characters, three more, and a status. */
  type Name = s: seq<byte> | |s| == 12 witness seq(12, _ => 32)

  /** Where an entry is: in a sector, behind the end of the table, or behind a broken link. */
  datatype Place = At(sect: nat) | End | Broken

  datatype Step = Moved(clust: nat, sect: nat) | Stop(res: FResult)

  /** A directory that starts at a cluster; 0 stands for the static table of FAT16. */
  datatype Table = Table(vol: Volume, clst: nat)
  {
    function PlaceOf(i: nat): Place {
      if clst == 0 then
        if i / 16 > 0 && i / 16 * 16 >= vol.n_rootdir then End else At(vol.dirbase + i / 16)
      else if !vol.InRange(clst) then
        if i == 0 then At(0) else End
      else
        var c := vol.Chain(clst, vol.ClusterNo(ENTRY * i));
        if vol.InRange(c) then At(vol.Clust2Sect(c) + vol.SectorIn(ENTRY * i)) else if c <= 1 then Broken else End
    }

    /** The cluster that entry i of a chain is in. */
    function ClustOf(i: nat): nat { if clst == 0 then 0 else vol.Chain(clst, vol.ClusterNo(ENTRY * i)) }

    /** From the place of one entry to the place of the next. */
    lemma {:induction false} NextPlace(i: nat, sect: nat)
      requires vol.Mounted() && PlaceOf(i) == At(sect)
      ensures var cs := And((i + 1) / 16, vol.Csize() - 1); var g := vol.GetFat(ClustOf(i));
              PlaceOf(i + 1) ==
                if clst == 0 then (if (i + 1) % 16 != 0 then At(sect) else if i + 1 >= vol.n_rootdir then End else At(sect + 1))
                else if sect == 0 then End
                else if (i + 1) % 16 != 0 then At(sect)
                else if cs != 0 then At(sect + 1)
                else if g <= 1 then Broken else if g >= vol.n_fatent then End else At(vol.Clust2Sect(g))
      ensures clst != 0 && sect > 0 ==>
                ClustOf(i + 1) == if (i + 1) % 16 == 0 && And((i + 1) / 16, vol.Csize() - 1) == 0 then vol.GetFat(ClustOf(i)) else ClustOf(i)
      ensures clst == 0 ==> sect > 0
    {
      vol.EntryStep(i);
      vol.Positions(ENTRY * (i + 1));
      if clst != 0 { vol.ChainNext(clst, vol.ClusterNo(ENTRY * i)); }
      hide Volume.ClusterNo, Volume.SectorIn, Volume.Csize, Volume.Chain, Volume.GetFat, Volume.Clust2Sect, And;
      if clst == 0 { StaticRow(i); }
    }

    lemma {:induction false} StaticRow(i: nat)
      ensures (i + 1) % 16 == 0 ==> (i + 1) / 16 == i / 16 + 1 && (i + 1) / 16 * 16 == i + 1
      ensures (i + 1) % 16 != 0 ==> (i + 1) / 16 == i / 16
    {
    }

    ghost predicate Located(i: nat, clust: nat, sect: nat) {
      vol.Mounted() && PlaceOf(i) == At(sect) && (sect > 0 || clust != 0 ==> clust == ClustOf(i))
    }

    /** One step from entry i of the table, as the code takes it. */
    function Advance(i: nat, clust: nat, sect: nat): Step {
      if i + 1 == MAX_INDEX || sect == 0 then Stop(FR_NO_FILE)
      else if (i + 1) % 16 != 0 then Moved(clust, sect)
      else if clust == 0 then
        if i + 1 >= vol.n_rootdir then Stop(FR_NO_FILE) else Moved(clust, sect + 1)
      else if And((i + 1) / 16, vol.Csize() - 1) != 0 then Moved(clust, sect + 1)
      else
        var g := vol.GetFat(clust);
        if g <= 1 then Stop(FR_DISK_ERR) else if g >= vol.n_fatent then Stop(FR_NO_FILE) else Moved(g, vol.Clust2Sect(g))
    }

    lemma {:induction false} AdvanceIs(i: nat, clust: nat, sect: nat)
      requires i < MAX_INDEX && Located(i, clust, sect)
      ensures match Advance(i, clust, sect)
              case Moved(clust', sect') => i + 1 < MAX_INDEX && Located(i + 1, clust', sect')
              case Stop(res) => if res == FR_NO_FILE then Over(i + 1) else res == FR_DISK_ERR && Failed(i + 1)
    {
      NextPlace(i, sect);
      ClustZero(i);
      hide PlaceOf, ClustOf, Volume.Csize, Volume.GetFat, Volume.Clust2Sect, And;
    }

    lemma {:induction false} ClustZero(i: nat)
      ensures clst == 0 ==> ClustOf(i) == 0
      ensures clst != 0 && PlaceOf(i).At? && PlaceOf(i).sect > 0 && vol.Mounted() ==> ClustOf(i) != 0
    {
    }

    /** Entry i, if it is there and can be read. */
    function Entry(i: nat): Option<Record> {
      match PlaceOf(i)
      case At(sect) =>
        (match vol.disk(sect)
         case Some(s) => Some(s[i % 16 * ENTRY..i % 16 * ENTRY + ENTRY])
         case None => None)
      case _ => None
    }

    /** Entry i is neither what is looked for nor the last. */
    predicate Passed(fn: Name, i: nat) { Entry(i).Some? && Entry(i).value[0] != 0 && !Match(fn, Entry(i).value) }

    ghost predicate AllPassed(fn: Name, k: nat) { forall i :: 0 <= i < k ==> Passed(fn, i) }

    /** The ways a search can end at entry k. */
    predicate Hit(fn: Name, k: nat) { k < MAX_INDEX && Entry(k).Some? && Entry(k).value[0] != 0 && Match(fn, Entry(k).value) }

    predicate Over(k: nat) { k == 65536 || PlaceOf(k) == End || (Entry(k).Some? && Entry(k).value[0] == 0) }

    predicate Failed(k: nat) { k < MAX_INDEX && (PlaceOf(k) == Broken || (PlaceOf(k).At? && Entry(k).None?)) }

    /** Where an entry is passed over the search does not end. */
    lemma {:induction false} PassedGoesOn(fn: Name, k: nat)
      ensures k < MAX_INDEX && Passed(fn, k) ==> !Hit(fn, k) && !Over(k) && !Failed(k)
    {
    }

    /** How a search ends is settled by the entries: it can end in one way only, and at one entry. */
    lemma {:induction false} OneEnd(fn: Name, k: nat, k': nat)
      requires k <= MAX_INDEX && k' <= MAX_INDEX && AllPassed(fn, k) && AllPassed(fn, k')
      requires (Hit(fn, k) || Over(k) || Failed(k)) && (Hit(fn, k') || Over(k') || Failed(k'))
      ensures k == k' && !(Hit(fn, k) && Over(k)) && !(Hit(fn, k) && Failed(k)) && !(Over(k) && Failed(k))
    {
      PassedGoesOn(fn, k);
      PassedGoesOn(fn, k');
    }
  }

  /** The name agrees, and the entry is not a volume label. */
  predicate Match(fn: Name, e: Record) { e[11] / 8 % 2 == 0 && e[..11] == fn[..11] }

  class Dir {
    const vol: Volume
    var index: nat
    var fn: Name
    var sclust: nat
    var clust: nat
    var sect: nat

    constructor (vol: Volume, fn: Name, sclust: nat)
      ensures this.vol == vol && this.fn == fn && this.sclust == sclust
    {
      this.vol, this.fn, this.sclust := vol, fn, sclust;
      index, clust, sect := 0, 0, 0;
    }

    /** The root directory of a FAT32 volume is a chain, that of a FAT16 volume is not. */
    function TableOf(): Table
      reads `sclust
    {
      Table(vol, if sclust == 0 && vol.fs_type == FAT32 then vol.dirbase else sclust)
    }

    /** The directory object is at entry index. */
    ghost predicate Here()
      reads this
    {
      index < MAX_INDEX && TableOf().Located(index, clust, sect)
    }

    method DirRewind() returns (res: FResult)
      requires vol.Mounted()
      modifies `index, `clust, `sect
      ensures res == if sclust == 1 || sclust >= vol.n_fatent then FR_DISK_ERR else FR_OK
      ensures res == FR_OK ==> Here() && index == 0
    {
      index := 0;
      var clst := sclust;
      if clst == 1 || clst >= vol.n_fatent { return FR_DISK_ERR; }
      if clst == 0 && vol.fs_type == FAT32 { clst := vol.dirbase; }
      clust := clst;
      sect := if clst != 0 then vol.Clust2Sect(clst) else vol.dirbase;
      vol.AtStart();
      vol.ChainNext(clst, 0);
      return FR_OK;
    }

    method DirNext() returns (res: FResult)
      requires index < MAX_INDEX
      modifies `index, `clust, `sect
      ensures match old(TableOf().Advance(index, clust, sect))
              case Moved(clust', sect') => res == FR_OK && clust == clust' && sect == sect' && index == old(index) + 1
              case Stop(why) => res == why
    {
      hide Volume.Csize, Volume.GetFat, Volume.Clust2Sect, And;
      var i := (index + 1) % MAX_INDEX;
      if i == 0 || sect == 0 { return FR_NO_FILE; }
      if i % 16 == 0 {
        sect := sect + 1;
        if clust == 0 {
          if i >= vol.n_rootdir { return FR_NO_FILE; }
        } else {
          if And(i / 16, vol.Csize() - 1) == 0 {
            var clst := vol.GetFat(clust);
            if clst <= 1 { return FR_DISK_ERR; }
            if clst >= vol.n_fatent { return FR_NO_FILE; }
            clust := clst;
            sect := vol.Clust2Sect(clst);
          }
        }
      }
      index := i;
      return FR_OK;
    }

    /**
     Find the name: the search passes over the entries in order and ends at
     the first that settles it. It always ends, even if the chain of clusters
     is a cycle.
    */
    method DirFind() returns (res: FResult, dir: Record, ghost k: nat)
      requires vol.Mounted()
      modifies `index, `clust, `sect
      ensures sclust == 1 || sclust >= vol.n_fatent ==> res == FR_DISK_ERR
      ensures !(sclust == 1 || sclust >= vol.n_fatent) ==>
                && k <= MAX_INDEX && TableOf().AllPassed(fn, k)
                && (res == FR_OK ==> k == index && TableOf().Hit(fn, k) && TableOf().Entry(k) == Some(dir))
                && (res == FR_NO_FILE ==> TableOf().Over(k))
                && (res == FR_DISK_ERR ==> TableOf().Failed(k))
    {
      hide Table.ClustOf, Table.Advance, Volume.Clust2Sect, Volume.GetFat, Volume.Chain, Volume.ClusterNo, Volume.SectorIn;
      dir, k := seq(ENTRY, _ => 0), 0;
      res := DirRewind();
      if res != FR_OK { return; }
      ghost var t := TableOf();
      while true
        invariant t == TableOf() && Here() && index == k && t.AllPassed(fn, k)
        decreases MAX_INDEX - index
      {
        assert t.PlaceOf(k) == At(sect) && k < MAX_INDEX;
        var sector := vol.disk(sect);
        if sector.None? { return FR_DISK_ERR, dir, k; }
        dir := sector.value[index % 16 * ENTRY..index % 16 * ENTRY + ENTRY];
        if dir[0] == 0 { return FR_NO_FILE, dir, k; }
        if dir[11] / 8 % 2 == 0 && dir[..11] == fn[..11] { return FR_OK, dir, k; }
        assert t.Passed(fn, k);
        t.AdvanceIs(index, clust, sect);
        res := DirNext();
        k := k + 1;
        if res != FR_OK { return; }
      }
    }
  }
}
