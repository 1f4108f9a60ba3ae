/**
 What a file is, said without the functions that look a position up: the
 entries of the file, each for its stretch of positions, and the blocks of
 their pointers, run together sector by sector.
*/
module CpmContent {
  import opened Bits
  import opened Wrappers
  import opened Division
  import opened CpmDirectory
  import opened CpmFiles
  import opened CpmBlocks
  import opened CpmLayout
  import opened CpmDrive
  import opened CpmRead

  // ---------------------------------------------------------------- entries

  /** The logical extent an entry says it is, from its two bytes. */
  function Number(e: Entry): nat { e.extnol % 32 + 32 * (e.extnoh % 64) }

  /** Entry e belongs to the file of entry o and covers position pos. */
  ghost predicate Covers(e: Entry, o: Entry, hi: bool, extents: nat, pos: nat)
    requires extents > 0
  {
    && e.status == o.status && e.status <= (if hi then 31 else 15)
    && (forall c :: 0 <= c < 8 ==> e.name[c] % 128 == o.name[c] % 128)
    && (forall c :: 0 <= c < 3 ==> e.ext[c] % 128 == o.ext[c] % 128)
    && Number(e) / extents * (16384 * extents) <= pos < (Number(e) / extents + 1) * (16384 * extents)
  }

  lemma {:induction false} CoversIs(e: Entry, o: Entry, d: Disk, pos: nat)
    requires d.extents > 0
    ensures Covers(e, o, d.hi, d.extents, pos) <==>
              ExtentOf(e) / d.extents == pos / EXTENTSIZE / d.extents && Matches(e, Owner(o), d.hi)
  {
    var n, w := Number(e) / d.extents, 16384 * d.extents;
    DivDiv(pos, EXTENTSIZE, d.extents);
    DivAtLeast(pos, w, n);
    DivAtLeast(pos, w, n + 1);
    assert ExtentOf(e) == Number(e);
  }

  lemma {:induction false} FindExtentIs(d: Disk, o: Entry, start: nat, pos: nat)
    requires d.extents > 0 && start <= |d.dir|
    ensures var i := FindExtent(d, Owner(o), start, pos / EXTENTSIZE);
            && (i != -1 ==> Covers(d.dir[i], o, d.hi, d.extents, pos))
            && forall j :: start <= j < (if i == -1 then |d.dir| else i) ==> !Covers(d.dir[j], o, d.hi, d.extents, pos)
    decreases |d.dir| - start
  {
    hide Covers, Matches, Owner, ExtentOf;
    if start < |d.dir| {
      CoversIs(d.dir[start], o, d, pos);
      FindExtentIs(d, o, start + 1, pos);
    }
  }

  /** The entry looked up for a position is the first of the file that covers it. */
  lemma {:induction false} EntryFound(r: FileReader, ino: nat, pos: nat)
    requires r.drive.Wired() && ino < r.drive.dir.Length
    ensures var i := r.EntryAt(ino, pos);
            && (i != -1 ==> Covers(r.drive.dir[i], r.drive.dir[ino], r.drive.hi, r.drive.extents, pos))
            && forall j :: 0 <= j < (if i == -1 then r.drive.dir.Length else i) ==>
                 !Covers(r.drive.dir[j], r.drive.dir[ino], r.drive.hi, r.drive.extents, pos)
  {
    hide Covers, Matches, FindExtent;
    FindExtentIs(r.drive.Now(), r.drive.dir[ino], 0, pos);
  }

  // ----------------------------------------------------------------- blocks

  /** The bytes of the first n sectors of a block. */
  ghost function SectorsOf(dev: Device, b: nat, n: nat): (s: seq<byte>)
    requires dev.Valid() && b < dev.g.size && n <= PerBlock(dev.g)
    reads dev.store
    ensures |s| == n * dev.g.secLength
  {
    if n == 0 then [] else
    dev.SectorLength(b, n - 1);
    SectorsOf(dev, b, n - 1) + dev.BlockAt(b, n - 1)
  }

  lemma {:induction false} SectorsOfAt(dev: Device, b: nat, n: nat, c: nat, o: nat)
    requires dev.Valid() && b < dev.g.size && c < n <= PerBlock(dev.g) && o < dev.g.secLength
    ensures c * dev.g.secLength + o < n * dev.g.secLength && |dev.BlockAt(b, c)| == dev.g.secLength
    ensures SectorsOf(dev, b, n)[c * dev.g.secLength + o] == dev.BlockAt(b, c)[o]
  {
    hide Device.Valid, Device.BlockAt, PerBlock;
    dev.SectorLength(b, c);
    Product(c + 1, n, dev.g.secLength);
    if c < n - 1 {
      SectorsOfAt(dev, b, n - 1, c, o);
    }
  }

  lemma {:induction false} WholeBlock(g: Geometry)
    requires GeometryOk(g)
    ensures PerBlock(g) * g.secLength == g.blksiz
  {
  }

  /** The first m slots of an entry are free, or hold blocks of the data area. */
  ghost predicate GoodSlots(r: FileReader, i: nat, m: nat)
    requires r.Valid() && i < r.drive.dir.Length && m <= Slots(r.drive.size)
    reads r.drive.dir, r.dev.store
  {
    forall k :: 0 <= k < m ==> GoodSlot(r, i, k)
  }

  ghost predicate GoodSlot(r: FileReader, i: nat, k: nat)
    requires r.Valid() && i < r.drive.dir.Length && k < Slots(r.drive.size)
    reads r.drive.dir, r.dev.store
  {
    var b := Pointer(r.drive.dir[i], k, r.drive.size);
    b == 0 || r.drive.dirblks <= b < r.drive.size
  }

  /** The bytes of slot k: those of its block, or zeros. */
  ghost function SlotBytes(r: FileReader, i: nat, k: nat): (s: seq<byte>)
    requires r.Valid() && i < r.drive.dir.Length && k < Slots(r.drive.size) && GoodSlot(r, i, k)
    reads r.drive.dir, r.dev.store
    ensures |s| == r.l.blksiz
  {
    var b := Pointer(r.drive.dir[i], k, r.drive.size);
    WholeBlock(r.dev.g);
    if b == 0 then Repeat<byte>(0, r.l.blksiz) else SectorsOf(r.dev, b, PerBlock(r.dev.g))
  }

  /** The bytes of the first m slots of an entry, run together. */
  ghost function EntryBytes(r: FileReader, i: nat, m: nat): (s: seq<byte>)
    requires r.Valid() && i < r.drive.dir.Length && m <= Slots(r.drive.size) && GoodSlots(r, i, m)
    reads r.drive.dir, r.dev.store
    ensures |s| == m * r.l.blksiz
  {
    if m == 0 then [] else
    assert GoodSlot(r, i, m - 1);
    EntryBytes(r, i, m - 1) + SlotBytes(r, i, m - 1)
  }

  lemma {:induction false} EntryBytesAt(r: FileReader, i: nat, m: nat, k: nat, o: nat)
    requires r.Valid() && i < r.drive.dir.Length && k < m <= Slots(r.drive.size) && GoodSlots(r, i, m) && o < r.l.blksiz
    ensures GoodSlot(r, i, k) && k * r.l.blksiz + o < m * r.l.blksiz
    ensures EntryBytes(r, i, m)[k * r.l.blksiz + o] == SlotBytes(r, i, k)[o]
  {
    hide FileReader.Valid, SlotBytes, GoodSlot;
    Product(k + 1, m, r.l.blksiz);
    if k < m - 1 {
      EntryBytesAt(r, i, m - 1, k, o);
    }
  }

  // ------------------------------------------------------------------ bytes

  lemma {:induction false} SlotByte(r: FileReader, ino: nat, pos: nat, i: nat)
    requires r.Valid() && ino < r.drive.dir.Length && r.EntryAt(ino, pos) == i && GoodSlot(r, i, SlotOfPos(r.l, pos))
    ensures SectorOfPos(r.l, pos) * r.l.sec + OffsetOfPos(r.l, pos) < r.l.blksiz
    ensures r.ByteAt(ino, pos) == Some(SlotBytes(r, i, SlotOfPos(r.l, pos))[SectorOfPos(r.l, pos) * r.l.sec + OffsetOfPos(r.l, pos)])
  {
    hide FileReader.EntryAt, SlotOfPos, SectorOfPos, OffsetOfPos, Device.BlockAt, SectorsOf;
    var b, c, o := Pointer(r.drive.dir[i], SlotOfPos(r.l, pos), r.drive.size), SectorOfPos(r.l, pos), OffsetOfPos(r.l, pos);
    WholeBlock(r.dev.g);
    Product(c + 1, PerBlock(r.dev.g), r.l.sec);
    if b != 0 { SectorsOfAt(r.dev, b, PerBlock(r.dev.g), c, o); }
  }

  /** Byte pos of a file is byte pos modulo the entry's capacity of the blocks of the entry. */
  lemma {:induction false} EntryByte(r: FileReader, ino: nat, pos: nat, i: nat, m: nat)
    requires r.Valid() && ino < r.drive.dir.Length && r.EntryAt(ino, pos) == i
    requires m <= Slots(r.drive.size) && GoodSlots(r, i, m) && pos % r.l.extcap < m * r.l.blksiz
    ensures r.ByteAt(ino, pos) == Some(EntryBytes(r, i, m)[pos % r.l.extcap])
  {
    var k, o := SlotOfPos(r.l, pos), SectorOfPos(r.l, pos) * r.l.sec + OffsetOfPos(r.l, pos);
    PositionIs(r.l, pos);
    SlotBelow(r.l, pos, m);
    hide FileReader.EntryAt, FileReader.ByteAt, FileReader.Valid, LayoutOk, SlotOfPos, SectorOfPos, OffsetOfPos, SlotBytes, EntryBytes;
    assert GoodSlot(r, i, k);
    SlotByte(r, ino, pos, i);
    EntryBytesAt(r, i, m, k, o);
  }

  lemma {:induction false} SlotBelow(l: Layout, pos: nat, m: nat)
    requires LayoutOk(l) && pos % l.extcap < m * l.blksiz
    ensures SlotOfPos(l, pos) < m
  {
    DivAtLeast(pos % l.extcap, l.blksiz, m);
  }

  lemma {:induction false} NextInStretch(pos: nat, n: nat)
    requires n > 0 && pos % n + 1 < n
    ensures (pos + 1) % n == pos % n + 1 && pos + 1 < pos / n * n + n
  {
    var q := pos / n;
    assert pos == q * n + pos % n;
    DivUnique(pos + 1, n, q, pos % n + 1);
  }

  /** The next position, if the entry covers it, is found in the same entry, behind this one. */
  lemma {:induction false} SameStretch(r: FileReader, ino: nat, pos: nat)
    requires r.Valid() && ino < r.drive.dir.Length && pos % r.l.extcap + 1 < r.l.extcap
    ensures r.EntryAt(ino, pos + 1) == r.EntryAt(ino, pos) && (pos + 1) % r.l.extcap == pos % r.l.extcap + 1
  {
    hide FileReader.EntryAt, Device.Valid;
    NextInStretch(pos, r.l.extcap);
    assert pos + 1 < NextExtPos(r.l, pos);
    r.SameEntry(ino, pos, pos + 1);
  }

  lemma {:induction false} Stretch(r: FileReader, ino: nat, pos: nat, k: nat)
    requires r.Valid() && ino < r.drive.dir.Length && pos % r.l.extcap + k < r.l.extcap
    ensures r.EntryAt(ino, pos + k) == r.EntryAt(ino, pos) && (pos + k) % r.l.extcap == pos % r.l.extcap + k
    decreases k
  {
    hide FileReader.EntryAt, Device.Valid;
    if k > 0 {
      Stretch(r, ino, pos, k - 1);
      SameStretch(r, ino, pos + k - 1);
    }
  }

  /** Bytes that are looked up as those of a list are read as that list. */
  lemma {:induction false} ReadAs(r: FileReader, ino: nat, pos: nat, count: nat, fileSize: nat, all: seq<byte>, base: int)
    requires r.Valid() && ino < r.drive.dir.Length && base <= pos && pos - base + count <= |all| && pos + count <= fileSize
    requires forall p :: pos <= p < pos + count ==> r.ByteAt(ino, p) == Some(all[p - base])
    ensures r.BytesFrom(ino, pos, count, fileSize) == (all[pos - base..pos - base + count], false)
    decreases count
  {
    hide FileReader.ByteAt, FileReader.Valid;
    if count > 0 {
      ReadAs(r, ino, pos + 1, count - 1, fileSize, all, base);
      assert all[pos - base..pos - base + count] == [all[pos - base]] + all[pos - base + 1..pos - base + count];
    }
  }

  /**
   Reading within the stretch of an entry gives the bytes of its blocks, in
   the order of its pointers; whole blocks from a block boundary on, and the
   whole entry from its beginning on.
  */
  lemma {:induction false} EntryIsRead(r: FileReader, ino: nat, pos: nat, count: nat, fileSize: nat, i: nat, m: nat)
    requires r.Valid() && ino < r.drive.dir.Length && r.EntryAt(ino, pos) == i
    requires m <= Slots(r.drive.size) && GoodSlots(r, i, m) && m * r.l.blksiz <= r.l.extcap
    requires pos % r.l.extcap + count <= m * r.l.blksiz && pos + count <= fileSize
    ensures r.BytesFrom(ino, pos, count, fileSize) ==
              (EntryBytes(r, i, m)[pos % r.l.extcap..pos % r.l.extcap + count], false)
  {
    hide FileReader.EntryAt, FileReader.ByteAt, Device.Valid, FileReader.BytesFrom, EntryBytes, GoodSlots;
    var a, all, n := pos % r.l.extcap, EntryBytes(r, i, m), m * r.l.blksiz;
    forall p | pos <= p < pos + count ensures r.ByteAt(ino, p) == Some(all[p - (pos - a)]) {
      Stretch(r, ino, pos, p - pos);
      EntryByte(r, ino, p, i, m);
    }
    ReadAs(r, ino, pos, count, fileSize, all, pos - a);
  }

  /** A block read whole is its sectors, one behind the other. */
  lemma {:induction false} BlockIsRead(r: FileReader, ino: nat, pos: nat, fileSize: nat, i: nat, k: nat)
    requires r.Valid() && ino < r.drive.dir.Length && r.EntryAt(ino, pos) == i && pos + r.l.blksiz <= fileSize
    requires k < Slots(r.drive.size) && pos % r.l.extcap == k * r.l.blksiz && (k + 1) * r.l.blksiz <= r.l.extcap
    requires GoodSlots(r, i, k + 1) && Pointer(r.drive.dir[i], k, r.drive.size) != 0
    ensures r.drive.dirblks <= Pointer(r.drive.dir[i], k, r.drive.size) < r.drive.size
    ensures r.BytesFrom(ino, pos, r.l.blksiz, fileSize) ==
              (SectorsOf(r.dev, Pointer(r.drive.dir[i], k, r.drive.size), PerBlock(r.dev.g)), false)
  {
    hide FileReader.EntryAt, FileReader.BytesFrom, SectorsOf;
    assert GoodSlot(r, i, k);
    EntryIsRead(r, ino, pos, r.l.blksiz, fileSize, i, k + 1);
    var all, n := EntryBytes(r, i, k + 1), k * r.l.blksiz;
    assert all == EntryBytes(r, i, k) + SlotBytes(r, i, k);
    assert all[n..n + r.l.blksiz] == SlotBytes(r, i, k);
  }

  // ------------------------------------------------------- shared positions

  /** Different positions that share an entry, and a place in its blocks. */
  predicate Shared(l: Layout, p: nat, q: nat)
    requires LayoutOk(l)
  {
    p != q && p / EXTENTSIZE / l.extents == q / EXTENTSIZE / l.extents && p % l.extcap == q % l.extcap
  }

  /** No positions share a place exactly if an entry covers as many bytes as its logical extents have. */
  lemma {:induction false} SharedExactly(l: Layout)
    requires LayoutOk(l)
    ensures (exists p: nat, q: nat :: Shared(l, p, q)) <==> l.extcap != EXTENTSIZE * l.extents
  {
    var w := EXTENTSIZE * l.extents;
    if l.extcap != w {
      Divides(l.extcap, w);
      DivDiv(0, EXTENTSIZE, l.extents);
      DivDiv(l.extcap, EXTENTSIZE, l.extents);
      DivUnique(l.extcap, w, 0, l.extcap);
      DivUnique(l.extcap, l.extcap, 1, 0);
      assert Shared(l, 0, l.extcap);
    } else {
      forall p: nat, q: nat ensures !Shared(l, p, q) {
        DivDiv(p, EXTENTSIZE, l.extents);
        DivDiv(q, EXTENTSIZE, l.extents);
        SamePosition(p, q, w);
      }
    }
  }

  lemma {:induction false} Divides(a: nat, b: nat)
    requires a > 0 && b > 0 && b % a == 0 && a != b
    ensures a < b
  {
  }

  lemma {:induction false} SamePosition(p: nat, q: nat, n: nat)
    requires n > 0
    ensures p / n == q / n && p % n == q % n ==> p == q
  {
    assert p == p / n * n + p % n && q == q / n * n + q % n;
  }

  /** Bytes that share a place are the same in every file. */
  lemma {:induction false} SharedBytes(r: FileReader, ino: nat, p: nat, q: nat)
    requires r.Valid() && ino < r.drive.dir.Length && Shared(r.l, p, q)
    ensures r.ByteAt(ino, p) == r.ByteAt(ino, q)
  {
    hide Device.Valid, FindExtent, Pointer;
    FindExtentSame(r.drive.Now(), Owner(r.drive.dir[ino]), 0, p / EXTENTSIZE, q / EXTENTSIZE);
    SlotOf(p, r.l.blksiz, r.l.extcap);
    SlotOf(q, r.l.blksiz, r.l.extcap);
  }

  /** A finding: on a disk of 346 blocks of 1024 bytes every second 8192 bytes of an extent are the first ones again. */
  lemma {:induction false} SharedTd143(r: FileReader, ino: nat, p: nat)
    requires r.Valid() && ino < r.drive.dir.Length && r.drive.size == 346 && r.l.blksiz == 1024 && r.drive.extents == 1 && p % 16384 < 8192
    ensures r.ByteAt(ino, p + 8192) == r.ByteAt(ino, p)
  {
    hide FileReader.ByteAt, Device.Valid;
    assert r.l.extcap == 8192 && r.l.extents == 1;
    ByHalves(p);
    SharedBytes(r, ino, p, p + 8192);
  }

  lemma {:induction false} ByHalves(p: nat)
    requires p % 16384 < 8192
    ensures (p + 8192) / 16384 == p / 16384 && (p + 8192) % 8192 == p % 8192
  {
    DivUnique(p + 8192, 16384, p / 16384, p % 16384 + 8192);
    DivUnique(p + 8192, 8192, p / 8192 + 1, p % 8192);
  }
}
