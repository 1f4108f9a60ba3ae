/** What is written can be read: writing a file, then reading it, and what either can lose. */
module CpmReadBack {
  import opened Bits
  import opened Wrappers
  import opened Division
  import opened CpmDirectory
  import opened CpmFiles
  import opened CpmLayout
  import opened CpmDrive
  import opened CpmBlocks
  import opened CpmRead
  import opened CpmWritten
  import opened CpmBytes
  import opened CpmPart
  import opened CpmDelivery
  import opened CpmWrite

  // ------------------------------------------------------------ what is kept

  /**
   Byte p of the file may be torn by writing up to pos: it is in the same sector
   as the last part of the data, which begins the sector and does not fill it,
   and the block was there before.
  */
  ghost predicate MayTear(c: Delivery, pos: nat, p: nat)
    requires FormatOk(c.w0.d, c.m) && c.start <= pos
  {
    pos > c.start && pos <= p && BlockFor(c.w0.d, c.m, c.f, pos - 1) != 0 && c.sec > 0
    && var from := LastPart(c.start, pos, c.m.blksiz); from % c.sec == 0 && p < from + c.sec
  }

  lemma {:induction false} TouchedIs(c: Delivery, pos: nat, p: nat)
    requires FormatOk(c.w0.d, c.m) && c.start <= pos
    ensures MayTear(c, pos, p) <==> pos <= p < Touched(c, pos)
  {
    hide BlockFor, LastPart;
  }

  /** What has been written is there; every other byte of every file is as it was, but for what may be torn. */
  lemma {:induction false} DataWritten(c: Delivery, w: World, pos: nat, g: File, p: nat)
    requires Delivered(c, w, pos)
    ensures FormatOk(c.w0.d, c.m) && WorldOk(c.w0, c.m) && WorldOk(w, c.m) && c.start <= pos <= c.start + |c.data|
    ensures if SameFile(c.f, g) && c.start <= p < pos then FileByte(w, c.m, g, p) == Some(c.data[p - c.start])
            else (SameFile(c.f, g) && MayTear(c, pos, p)) || FileByte(w, c.m, g, p) == FileByte(c.w0, c.m, g, p)
  {
    hide FileByte, Touched, SameBehind, Torn, SameFile, MayTear;
    assert ReadsAt(c.w0, w, c.m, c.f, c.start, pos, Touched(c, pos), c.data, g, p);
    TouchedIs(c, pos, p);
  }

  /**
   After a write within one block the rest of the file is as it was, whatever the
   buffer held, exactly if the block was not there before, or the data do not
   begin a sector, or they fill it.
  */
  lemma {:induction false} KeptWhatever(c: Delivery, w: World, stale: seq<byte>, w': World, pos: nat)
    requires Delivered(c, w, pos) && Delivered(c.(stale := stale), w', pos) && pos > c.start && c.sec > 0
    requires c.m.blksiz > 0 && LastPart(c.start, pos, c.m.blksiz) == c.start
    requires |stale| == |c.stale| && forall o :: 0 <= o < |stale| ==> stale[o] != c.stale[o]
    ensures WorldOk(c.w0, c.m) && WorldOk(w, c.m) && WorldOk(w', c.m) && FormatOk(c.w0.d, c.m)
    ensures (forall p: nat :: p >= pos ==>
               FileByte(w, c.m, c.f, p) == FileByte(c.w0, c.m, c.f, p) && FileByte(w', c.m, c.f, p) == FileByte(c.w0, c.m, c.f, p))
            <==> BlockFor(c.w0.d, c.m, c.f, pos - 1) == 0 || c.start % c.sec != 0 || pos - c.start >= c.sec
  {
    hide FileByte, BlockFor, SameBehind, SameFile, Torn, Reads;
    var c' := c.(stale := stale);
    DataWritten(c, w, pos, c.f, pos);
    DataWritten(c', w', pos, c.f, pos);
    if BlockFor(c.w0.d, c.m, c.f, pos - 1) == 0 || c.start % c.sec != 0 || pos - c.start >= c.sec {
      forall p: nat | p >= pos
        ensures FileByte(w, c.m, c.f, p) == FileByte(c.w0, c.m, c.f, p) && FileByte(w', c.m, c.f, p) == FileByte(c.w0, c.m, c.f, p)
      {
        DataWritten(c, w, pos, c.f, p);
        DataWritten(c', w', pos, c.f, p);
      }
    } else {
      TornByte(c, w, pos, pos);
      TornByte(c', w', pos, pos);
      DivBelow(pos, c.m.blksiz);
    }
  }

  lemma {:induction false} DivBelow(p: nat, n: nat)
    requires n > 0
    ensures p % n < n
  {
  }

  /** What is torn by a write within one block has become what the buffer held. */
  lemma {:induction false} TornByte(c: Delivery, w: World, pos: nat, p: nat)
    requires Delivered(c, w, pos) && c.start < pos && LastPart(c.start, pos, c.m.blksiz) == c.start && MayTear(c, pos, p)
    ensures c.m.blksiz > 0 && |c.stale| == c.m.blksiz && WorldOk(w, c.m) && FileByte(w, c.m, c.f, p) == Some(c.stale[p % c.m.blksiz])
  {
    hide FileByte, BlockFor, SameBehind, Reads;
    TouchedIs(c, pos, p);
  }

  /** A finding: after one byte has been written to the first block of a file, the next 127 are what the buffer happened to hold. */
  lemma {:induction false} RestLost(c: Delivery, w: World, p: nat)
    requires Delivered(c, w, 1) && c.start == 0 && c.m.blksiz == 1024 && c.sec == 128 && BlockFor(c.w0.d, c.m, c.f, 0) != 0 && 1 <= p < 128
    ensures |c.stale| == 1024 && WorldOk(w, c.m) && FileByte(w, c.m, c.f, p) == Some(c.stale[p])
  {
    hide FileByte, BlockFor, SameBehind, Reads;
    TornByte(c, w, 1, p);
  }

  // ------------------------------------------------------------- reading back

  /** What a reader looks up at a position is the byte of the file there. */
  lemma {:induction false} ByteAtIs(r: FileReader, ino: nat, p: nat)
    requires r.Valid() && ino < r.drive.dir.Length
    requires WorldOk(World(r.drive.Now(), Blocks(r.dev)), Format(r.l.blksiz, r.l.extcap))
    ensures r.ByteAt(ino, p) == FileByte(World(r.drive.Now(), Blocks(r.dev)), Format(r.l.blksiz, r.l.extcap), Owner(r.drive.dir[ino]), p)
  {
    hide FindExtent, Pointer, Device.Valid;
    SlotFits(r.drive.Now(), Format(r.l.blksiz, r.l.extcap), p);
  }

  /** The reader sees the disk and the blocks of world w, in format m. */
  ghost predicate Shows(r: FileReader, w: World, m: Format)
    requires r.Valid()
    reads r.drive.dir, r.drive.alv, r.dev.store
  {
    w == World(r.drive.Now(), Blocks(r.dev)) && m == Format(r.l.blksiz, r.l.extcap)
  }

  /** Reading what has been written gives the data. */
  lemma {:induction false} ReadsWritten(r: FileReader, ino: nat, c: Delivery, w: World, pos: nat, q: nat, count: nat, size: nat)
    requires r.Valid() && ino < r.drive.dir.Length && Shows(r, w, c.m) && Delivered(c, w, pos) && SameFile(c.f, Owner(r.drive.dir[ino]))
    requires c.start <= q && q + count <= pos && pos <= size && pos - c.start <= |c.data|
    ensures r.BytesFrom(ino, q, count, size) == (c.data[q - c.start..q - c.start + count], false)
    decreases count
  {
    hide FileByte, Device.Valid, Delivered, SameFile, FileReader.ByteAt, FormatOk, LayoutOk;
    if count > 0 {
      DataWritten(c, w, pos, Owner(r.drive.dir[ino]), q);
      ByteAtIs(r, ino, q);
      ReadsWritten(r, ino, c, w, pos, q + 1, count - 1, size);
      var o := q - c.start;
      assert c.data[o..o + count] == [c.data[o]] + c.data[o + 1..o + count];
    } else {
      assert c.data[q - c.start..q - c.start] == [];
    }
  }

  lemma {:induction false} ReaderReady(u: FileWriter, r: FileReader)
    requires u.Valid() && r.drive == u.drive && r.dev == u.dev
    ensures r.drive.Wired() && r.dev.Valid() && (r.dev.g.blksiz <= 16384 && LayoutOk(r.l) && IsLayout(r) ==> r.Valid())
  {
    hide Device.Valid, LayoutOk, Capacity;
  }

  /** The layout of a reader is that of its disk. */
  ghost predicate IsLayout(r: FileReader) {
    r.l == Layout(r.dev.g.blksiz, Capacity(r.drive.size, r.dev.g.blksiz, r.drive.extents), r.dev.g.secLength, Slots(r.drive.size), r.drive.extents)
  }

  lemma {:induction false} ReaderMeans(r: FileReader)
    requires r.Valid()
    ensures r.drive.Wired() && r.dev.Valid() && r.l.blksiz == r.dev.g.blksiz <= 16384 && LayoutOk(r.l) && IsLayout(r)
  {
    hide Device.Valid, LayoutOk, Capacity;
  }

  /** What is to be written belongs to the file of entry ino. */
  lemma {:induction false} OwnFile(u: FileWriter, ino: nat, start: nat, data: seq<byte>, stale: seq<Sector>)
    requires u.Valid() && ino < u.drive.dir.Length && Sectors(stale, u.dev.g) && u.InOrder(ino, start + |data|)
    ensures u.drive.Wired() && u.dev.Valid()
    ensures var j, c := u.JobOf(ino, start), u.DeliveryOf(ino, start, data, stale);
            && j.ino == ino && c.f == j.f && c.start == start && c.data == data && Owned(j) && Consistent(j.d0) && j.d0 == u.drive.Now()
            && c.m == Format(u.blksiz, Capacity(u.drive.size, u.blksiz, u.drive.extents)) && Live(u.drive.dir[ino], u.drive.hi)
  {
    hide Consistent, Tidy, Device.Valid, Capacity, Regular, Flat;
  }

  ghost predicate Owned(j: Job) { j.ino < |j.d0.dir| && Live(j.d0.dir[j.ino], j.d0.hi) && Owner(j.d0.dir[j.ino]) == j.f }

  /** The entry still belongs to the file. */
  lemma {:induction false} StillOwned(j: Job, d: Disk, pos: nat)
    requires Accomplished(j, d, pos) && Owned(j)
    ensures j.ino < |d.dir| && SameFile(j.f, Owner(d.dir[j.ino]))
  {
    hide Mapped, FindExtent, EndSaid, Pointer;
    OwnMatches(j.d0.dir[j.ino], j.d0.hi);
  }

  lemma {:induction false} ReadsBack(u: FileWriter, r: FileReader, ino: nat, j: Job, c: Delivery, pos: nat, size: nat)
    requires u.Valid() && r.Valid() && r.drive == u.drive && r.dev == u.dev && ino == j.ino < u.drive.dir.Length && Owned(j) && c.f == j.f
    requires Accomplished(j, u.drive.Now(), pos) && Delivered(c, u.Here(), pos) && c.m == Format(u.blksiz, Capacity(u.drive.size, u.blksiz, u.drive.extents))
    requires c.start <= pos <= size && pos - c.start <= |c.data|
    ensures r.BytesFrom(ino, c.start, pos - c.start, size) == (c.data[..pos - c.start], false)
  {
    hide Accomplished, Delivered, SameFile, Device.Valid, FileReader.BytesFrom, Capacity, LayoutOk, Owned, Blocks;
    StillOwned(j, u.drive.Now(), pos);
    ReadsWritten(r, ino, c, u.Here(), pos, c.start, pos - c.start, size);
  }

  /** Writing to a file and reading it from the same place gives the data, as far as they were written. */
  method WriteThenRead(u: FileWriter, r: FileReader, ino: nat, start: nat, data: seq<byte>, stale: seq<Sector>, size: nat)
    returns (got: int, back: seq<byte>)
    requires u.Valid() && r.Valid() && r.drive == u.drive && r.dev == u.dev && ino < u.drive.dir.Length && Sectors(stale, u.dev.g)
    requires u.InOrder(ino, start + |data|) && u.Undivided() && start + |data| <= size
    modifies u.drive.dir, u.drive.alv, u.dev.store
    ensures -1 <= got <= |data| && (data != [] ==> got != 0) && back == data[..if got < 0 then 0 else got]
  {
    hide *;
    OwnFile(u, ino, start, data, stale);
    ReaderMeans(r);
    ReaderReady(u, r);
    ghost var j, c := u.JobOf(ino, start), u.DeliveryOf(ino, start, data, stale);
    var pos, halted, m, p;
    ghost var ops;
    got, pos, halted, ops := u.CpmWrite(ino, start, data, stale);
    ReaderReady(u, r);
    ReadsBack(u, r, ino, j, c, pos, size);
    m, back, p := r.CpmRead(ino, start, pos - start, size);
  }
}
