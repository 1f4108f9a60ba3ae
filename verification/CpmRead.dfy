/** Reading a file: extents and blocks are looked up once and remembered, as long as they last. */
module CpmRead {
  import opened Bits
  import opened Wrappers
  import opened CpmDirectory
  import opened CpmFiles
  import opened CpmBlocks
  import opened CpmLayout
  import opened CpmDrive

  /** How many bytes of a file one directory entry covers. */
  function Capacity(size: nat, blksiz: nat, extents: nat): nat {
    var c := (if size <= 256 then 16 else 8) * blksiz;
    if c > EXTENTSIZE then EXTENTSIZE * extents else c
  }

  /** What a read remembers: the flags, the entry and where it ends, where the block ends, and where both were found. */
  datatype Memo = Memo(findext: bool, findblock: bool, extent: int, nextextpos: nat, nextblockpos: nat, epos: nat, bpos: nat)

  class FileReader {
    const drive: Drive
    const dev: Device
    const l: Layout

    constructor (drive: Drive, dev: Device)
      ensures this.drive == drive && this.dev == dev
      ensures l == Layout(dev.g.blksiz, Capacity(drive.size, dev.g.blksiz, drive.extents), dev.g.secLength, Slots(drive.size), drive.extents)
    {
      this.drive, this.dev := drive, dev;
      var slots: nat := if drive.size <= 256 then 16 else 8;
      var extcap: nat := slots * dev.g.blksiz;
      if extcap > 16384 { extcap := 16384 * drive.extents; }
      l := Layout(dev.g.blksiz, extcap, dev.g.secLength, slots, drive.extents);
    }

    ghost predicate Valid()
      reads dev.store
    {
      && drive.Wired() && dev.Valid() && drive.size == dev.g.size && l.blksiz <= 16384 && LayoutOk(l)
      && l == Layout(dev.g.blksiz, Capacity(drive.size, dev.g.blksiz, drive.extents), dev.g.secLength, Slots(drive.size), drive.extents)
    }

    /** The entry that covers position pos of the file of entry ino. */
    ghost function EntryAt(ino: nat, pos: nat): (i: int)
      requires drive.Wired() && ino < drive.dir.Length
      reads drive.dir, drive.alv
      ensures -1 <= i < drive.dir.Length
    {
      FindExtent(drive.Now(), Owner(drive.dir[ino]), 0, ExtentOfPos(l, pos))
    }

    /** The block that holds position pos, given the entry that covers it. */
    ghost function BlockOf(i: nat, pos: nat): nat
      requires LayoutOk(l) && l.slots == Slots(drive.size) && i < drive.dir.Length
      reads drive.dir
    {
      Pointer(drive.dir[i], SlotOfPos(l, pos), drive.size)
    }

    /** The byte at position pos of a block. */
    ghost function ByteOf(b: nat, pos: nat): byte
      requires Valid() && b < drive.size
      reads dev.store
    {
      dev.SectorLength(b, SectorOfPos(l, pos));
      dev.BlockAt(b, SectorOfPos(l, pos))[OffsetOfPos(l, pos)]
    }

    /** Looking up one byte afresh: zero where there is no extent or block, None where the block is not a data block. */
    ghost function ByteAt(ino: nat, pos: nat): Option<byte>
      requires Valid() && ino < drive.dir.Length
      reads drive.dir, drive.alv, dev.store
    {
      var i := EntryAt(ino, pos);
      if i == -1 then Some(0) else
      var b := BlockOf(i, pos);
      if b == 0 then Some(0)
      else if b < drive.dirblks || b >= drive.size then None
      else Some(ByteOf(b, pos))
    }

    /** Up to count bytes from position pos on, each looked up afresh; true if a bad block is met. */
    ghost function BytesFrom(ino: nat, pos: nat, count: nat, fileSize: nat): (seq<byte>, bool)
      requires Valid() && ino < drive.dir.Length
      reads drive.dir, drive.alv, dev.store
      decreases count
    {
      if count == 0 || pos >= fileSize then ([], false) else
      match ByteAt(ino, pos)
      case None => ([], true)
      case Some(b) =>
        var (rest, bad) := BytesFrom(ino, pos + 1, count - 1, fileSize);
        ([b] + rest, bad)
    }

    // ------------------------------------------------ what stays the same

    /** The entry found for one position covers everything up to the next entry. */
    lemma {:induction false} SameEntry(ino: nat, p: nat, q: nat)
      requires Valid() && ino < drive.dir.Length && p <= q < NextExtPos(l, p)
      ensures EntryAt(ino, p) == EntryAt(ino, q) && NextExtPos(l, p) == NextExtPos(l, q)
    {
      SameEntryPos(l, p, q);
      FindExtentSame(drive.Now(), Owner(drive.dir[ino]), 0, ExtentOfPos(l, p), ExtentOfPos(l, q));
    }

    /** The buffer has the byte at position p. */
    ghost predicate BufferedAt(ino: nat, buffer: seq<Sector>, p: nat)
      requires Valid() && ino < drive.dir.Length
      reads drive.dir, drive.alv, dev.store
    {
      var s, o := SectorOfPos(l, p), OffsetOfPos(l, p);
      s < |buffer| && o < |buffer[s]| && ByteAt(ino, p) == Some(buffer[s][o])
    }

    /** The buffer has the bytes from pos up to hi. */
    ghost predicate Buffered(ino: nat, buffer: seq<Sector>, pos: nat, hi: nat)
      requires Valid() && ino < drive.dir.Length
      reads drive.dir, drive.alv, dev.store
    {
      forall p {:trigger BufferedAt(ino, buffer, p)} :: pos <= p < hi ==> BufferedAt(ino, buffer, p)
    }

    lemma {:induction false} SameBlock(ino: nat, extent: nat, pos: nat, p: nat)
      requires Valid() && ino < drive.dir.Length && extent == EntryAt(ino, pos) && pos <= p < NextBlockPos(l, pos)
      ensures EntryAt(ino, p) == extent && BlockOf(extent, p) == BlockOf(extent, pos)
    {
      SameBlockPos(l, pos, p);
      SameEntry(ino, pos, p);
    }

    lemma {:induction false} BufferedZeros(ino: nat, extent: nat, buffer: seq<Sector>, pos: nat, hi: nat)
      requires Valid() && ino < drive.dir.Length && extent == EntryAt(ino, pos) && hi <= NextBlockPos(l, pos)
      requires BlockOf(extent, pos) == 0 && |buffer| == PerBlock(dev.g)
      requires forall c :: 0 <= c < |buffer| ==> buffer[c] == Repeat<byte>(0, dev.g.secLength)
      ensures Buffered(ino, buffer, pos, hi)
    {
      forall p | pos <= p < hi ensures BufferedAt(ino, buffer, p) {
        SameBlock(ino, extent, pos, p);
        hide LayoutOk, SectorOfPos, OffsetOfPos, SlotOfPos, NextBlockPos, EntryAt, BlockOf;
      }
    }

    lemma {:induction false} BufferedData(ino: nat, extent: nat, block: nat, buffer: seq<Sector>, pos: nat, count: nat, hi: nat)
      requires Valid() && ino < drive.dir.Length && extent == EntryAt(ino, pos) && count > 0
      requires hi <= NextBlockPos(l, pos) && hi <= pos + count
      requires block == BlockOf(extent, pos) && drive.dirblks <= block < drive.size && |buffer| == PerBlock(dev.g)
      requires forall c :: SectorOfPos(l, pos) <= c <= LastSector(l, pos, count) ==> buffer[c] == dev.BlockAt(block, c)
      ensures Buffered(ino, buffer, pos, hi)
    {
      forall p | pos <= p < hi ensures BufferedAt(ino, buffer, p) {
        SameBlock(ino, extent, pos, p);
        SectorsCover(l, pos, count, p);
        dev.SectorLength(block, SectorOfPos(l, p));
        hide LayoutOk, SectorOfPos, OffsetOfPos, SlotOfPos, NextBlockPos, EntryAt, BlockOf, LastSector;
      }
    }

    // ------------------------------------------------------------ the steps

    /** The block pointer for position pos. */
    method BlockNumber(extent: nat, pos: nat) returns (block: nat)
      requires LayoutOk(l) && l.slots == Slots(drive.size) && extent < drive.dir.Length
      ensures block == BlockOf(extent, pos)
    {
      var ptr := pos % l.extcap / l.blksiz;
      assert ptr == SlotOfPos(l, pos) < l.slots;
      hide LayoutOk, SlotOfPos;
      if drive.size > 256 { ptr := ptr * 2; }
      block := drive.dir[extent].pointers[ptr];
      if drive.size > 256 { block := block + 256 * drive.dir[extent].pointers[ptr + 1] as int; }
    }

    /** The sectors of the block that hold the bytes from pos on, as far as count and the block go. */
    method Wanted(pos: nat, count: nat) returns (start: nat, end: nat)
      requires LayoutOk(l) && count > 0
      ensures start == SectorOfPos(l, pos) && end == LastSector(l, pos, count)
    {
      start := pos % l.blksiz / l.sec;
      end := (if pos % l.blksiz + count > l.blksiz then l.blksiz - 1 else pos % l.blksiz + count - 1) / l.sec;
    }

    /** Fetch the bytes from pos on, as far as count and the block go. */
    method LoadBlock(ino: nat, extent: nat, pos: nat, count: nat, buffer: array<Sector>, ghost hi: nat) returns (ok: bool)
      requires Valid() && ino < drive.dir.Length && extent == EntryAt(ino, pos) && count > 0
      requires buffer.Length == PerBlock(dev.g) && hi <= pos + count && hi <= NextBlockPos(l, pos)
      modifies buffer
      ensures ok <==> ByteAt(ino, pos).Some?
      ensures ok ==> Buffered(ino, buffer[..], pos, hi)
    {
      hide LayoutOk, SectorOfPos, LastSector, SlotOfPos, NextBlockPos, Buffered, EntryAt, BlockOf;
      var block := BlockNumber(extent, pos);
      ok := true;
      if block == 0 {
        dev.ClearBuffer(buffer);
        BufferedZeros(ino, extent, buffer[..], pos, hi);
      } else {
        if block < drive.dirblks { return false; }
        var start, end := Wanted(pos, count);
        ok := dev.ReadBlock(block, buffer, start, end);
        if ok { BufferedData(ino, extent, block, buffer[..], pos, count, hi); }
      }
    }

    /** What has been remembered: the entry found at epos and, unless it is to be found anew, the block found at bpos. */
    ghost predicate Remembered(ino: nat, buffer: seq<Sector>, pos: nat, stop: nat, m: Memo)
      requires Valid() && ino < drive.dir.Length
      reads drive.dir, drive.alv, dev.store
    {
      && m.epos <= pos && m.nextextpos == NextExtPos(l, m.epos) && m.extent == EntryAt(ino, m.epos)
      && (m.findblock ==> pos < m.nextextpos)
      && (!m.findblock ==>
            && m.epos <= m.bpos <= pos <= m.nextblockpos == NextBlockPos(l, m.bpos) && m.bpos < m.nextextpos
            && (m.extent != -1 ==> Buffered(ino, buffer, m.bpos, if m.nextblockpos < stop then m.nextblockpos else stop)))
    }

    /** A remembered byte is the byte looked up afresh. */
    lemma {:induction false} RememberedByte(ino: nat, buffer: seq<Sector>, pos: nat, stop: nat, m: Memo)
      requires Valid() && ino < drive.dir.Length && pos < stop && pos < m.nextblockpos
      requires Remembered(ino, buffer, pos, stop, m) && !m.findblock
      ensures if m.extent == -1 then ByteAt(ino, pos) == Some(0) else BufferedAt(ino, buffer, pos)
      ensures Remembered(ino, buffer, pos + 1, stop, m)
    {
      SameEntry(ino, m.epos, m.bpos);
      BlockInEntry(l, m.bpos);
      SameEntry(ino, m.epos, pos);
    }

    /** At the end of a block either the entry ends too, or the next block belongs to it. */
    lemma {:induction false} RememberedEnd(ino: nat, buffer: seq<Sector>, pos: nat, stop: nat, m: Memo)
      requires Valid() && ino < drive.dir.Length && pos >= m.nextblockpos
      requires Remembered(ino, buffer, pos, stop, m) && !m.findblock
      ensures pos == m.nextextpos || Remembered(ino, buffer, pos, stop, m.(findblock := true))
    {
      SameEntry(ino, m.epos, m.bpos);
      BlockInEntry(l, m.bpos);
    }

    lemma {:induction false} EntryStill(ino: nat, buffer: seq<Sector>, pos: nat, stop: nat, m: Memo)
      requires Valid() && ino < drive.dir.Length && Remembered(ino, buffer, pos, stop, m) && m.findblock
      ensures m.extent == EntryAt(ino, pos)
    {
      SameEntry(ino, m.epos, pos);
    }

    /** Of the bytes asked for, data has been read; count are left to be read from pos on. */
    ghost predicate Partial(ino: nat, start: nat, wanted: nat, fileSize: nat, data: seq<byte>, pos: nat, count: nat)
      requires Valid() && ino < drive.dir.Length
      reads drive.dir, drive.alv, dev.store
    {
      var all, r := BytesFrom(ino, start, wanted, fileSize), BytesFrom(ino, pos, count, fileSize);
      pos == start + |data| && pos + count == start + wanted && all.0 == data + r.0 && all.1 == r.1
    }

    lemma {:induction false} PartialStart(ino: nat, start: nat, wanted: nat, fileSize: nat)
      requires Valid() && ino < drive.dir.Length
      ensures Partial(ino, start, wanted, fileSize, [], start, wanted)
    {
      var all := BytesFrom(ino, start, wanted, fileSize);
      assert [] + all.0 == all.0;
    }

    lemma {:induction false} PartialByte(ino: nat, start: nat, wanted: nat, fileSize: nat, data: seq<byte>, pos: nat, count: nat, b: byte)
      requires Valid() && ino < drive.dir.Length && Partial(ino, start, wanted, fileSize, data, pos, count)
      requires count > 0 && pos < fileSize && ByteAt(ino, pos) == Some(b)
      ensures Partial(ino, start, wanted, fileSize, data + [b], pos + 1, count - 1)
    {
      var r := BytesFrom(ino, pos + 1, count - 1, fileSize);
      assert data + ([b] + r.0) == (data + [b]) + r.0;
    }

    lemma {:induction false} PartialEnd(ino: nat, start: nat, wanted: nat, fileSize: nat, data: seq<byte>, pos: nat, count: nat)
      requires Valid() && ino < drive.dir.Length && Partial(ino, start, wanted, fileSize, data, pos, count)
      requires count == 0 || pos >= fileSize || ByteAt(ino, pos).None?
      ensures BytesFrom(ino, start, wanted, fileSize) == (data, count > 0 && pos < fileSize)
      ensures pos == start + |data|
    {
      assert data + [] == data;
    }

    method EndOfEntry(pos: nat) returns (next: nat)
      requires LayoutOk(l)
      ensures next == NextExtPos(l, pos) > pos
    {
      next := pos / l.extcap * l.extcap + l.extcap;
    }

    /** Find the entry for pos. */
    method FindEntry(ino: nat, pos: nat, m: Memo, ghost buffer: seq<Sector>, ghost stop: nat) returns (r: Memo)
      requires Valid() && ino < drive.dir.Length
      ensures r.findblock && !r.findext && Remembered(ino, buffer, pos, stop, r)
    {
      hide LayoutOk, NextExtPos, FindExtent, Device.Valid, Buffered, NextBlockPos;
      var e := drive.dir[ino];
      var extent := drive.FindFileExtent(File(e.status, e.name, e.ext), 0, pos / 16384);
      var next := EndOfEntry(pos);
      r := Memo(false, true, extent, next, m.nextblockpos, pos, m.bpos);
    }

    method EndOfBlock(pos: nat) returns (next: nat)
      requires LayoutOk(l)
      ensures next == NextBlockPos(l, pos)
    {
      next := pos / l.blksiz * l.blksiz + l.blksiz;
    }

    /** Find the block for pos, and fetch it. */
    method FindBlock(ino: nat, pos: nat, count: nat, buffer: array<Sector>, m: Memo) returns (ok: bool, r: Memo)
      requires Valid() && ino < drive.dir.Length && count > 0 && buffer.Length == PerBlock(dev.g)
      requires m.findblock && !m.findext && Remembered(ino, buffer[..], pos, pos + count, m)
      modifies buffer
      ensures !ok ==> ByteAt(ino, pos).None?
      ensures ok ==> !r.findblock && !r.findext && pos < r.nextblockpos && Remembered(ino, buffer[..], pos, pos + count, r)
    {
      EntryStill(ino, buffer[..], pos, pos + count, m);
      ghost var hi := if NextBlockPos(l, pos) < pos + count then NextBlockPos(l, pos) else pos + count;
      ok := true;
      hide LayoutOk, SlotOfPos, SectorOfPos, NextBlockPos, NextExtPos, EntryAt, BlockOf, Buffered, ByteAt;
      if m.extent != -1 {
        ok := LoadBlock(ino, m.extent, pos, count, buffer, hi);
      }
      var next := EndOfBlock(pos);
      r := m.(findblock := false, nextblockpos := next, bpos := pos);
    }

    /** Find what is not known: the entry, then the block. */
    method Prepare(ino: nat, pos: nat, count: nat, buffer: array<Sector>, m: Memo) returns (ok: bool, r: Memo)
      requires Valid() && ino < drive.dir.Length && count > 0 && buffer.Length == PerBlock(dev.g)
      requires m.findext || Remembered(ino, buffer[..], pos, pos + count, m)
      modifies buffer
      ensures !ok ==> ByteAt(ino, pos).None?
      ensures ok ==> !r.findblock && !r.findext && Remembered(ino, buffer[..], pos, pos + count, r)
      ensures ok && (m.findext || m.findblock) ==> pos < r.nextblockpos
      ensures !m.findext && !m.findblock ==> ok && r == m
    {
      r, ok := m, true;
      hide *;
      if r.findext { r := FindEntry(ino, pos, r, buffer[..], pos + count); }
      if r.findblock { ok, r := FindBlock(ino, pos, count, buffer, r); }
    }

    /** Where the byte at pos is in the buffer of its block. */
    method InBlock(pos: nat) returns (sector: nat, offset: nat)
      requires LayoutOk(l)
      ensures sector == SectorOfPos(l, pos) && offset == OffsetOfPos(l, pos)
    {
      sector, offset := pos % l.blksiz / l.sec, pos % l.blksiz % l.sec;
    }

    /** The byte at pos, from the buffer. */
    method TakeByte(ino: nat, pos: nat, buffer: array<Sector>, m: Memo, ghost stop: nat) returns (b: byte)
      requires Valid() && ino < drive.dir.Length && pos < stop && pos < m.nextblockpos && !m.findblock
      requires Remembered(ino, buffer[..], pos, stop, m)
      ensures ByteAt(ino, pos) == Some(b) && Remembered(ino, buffer[..], pos + 1, stop, m)
    {
      RememberedByte(ino, buffer[..], pos, stop, m);
      hide Remembered, ByteAt, SectorOfPos, OffsetOfPos, LayoutOk;
      if m.extent == -1 { return 0; }
      var sector, offset := InBlock(pos);
      b := buffer[sector][offset];
    }

    /**
     Read up to count bytes from position start on.  Looking the entry and the
     block up only where a new one begins gives the same bytes as looking them
     up for every byte.
    */
    method CpmRead(ino: nat, start: nat, wanted: nat, fileSize: nat) returns (got: int, data: seq<byte>, pos: nat)
      requires Valid() && ino < drive.dir.Length
      ensures var r := BytesFrom(ino, start, wanted, fileSize);
              data == r.0 && pos == start + |data| && got == if r.1 && data == [] then -1 else |data|
    {
      hide FileReader.Partial, FileReader.Remembered, FileReader.BytesFrom;
      var buffer := new Sector[PerBlock(dev.g)];
      var m := Memo(true, true, -1, 0, 0, start, start);
      data := [];
      pos := start;
      var count: nat := wanted;
      PartialStart(ino, start, wanted, fileSize);
      while count > 0 && pos < fileSize
        invariant Valid() && Partial(ino, start, wanted, fileSize, data, pos, count)
        invariant m.findext || Remembered(ino, buffer[..], pos, pos + count, m)
        decreases count, if m.findext || m.findblock || pos < m.nextblockpos then 0 else 1
      {
        var ok;
        ok, m := Prepare(ino, pos, count, buffer, m);
        if !ok {
          PartialEnd(ino, start, wanted, fileSize, data, pos, count);
          got := if data == [] then -1 else |data|;
          return;
        }
        if pos < m.nextblockpos {
          var b := TakeByte(ino, pos, buffer, m, pos + count);
          PartialByte(ino, start, wanted, fileSize, data, pos, count, b);
          data := data + [b];
          pos := pos + 1;
          count := count - 1;
        } else {
          RememberedEnd(ino, buffer[..], pos, pos + count, m);
          m := if pos == m.nextextpos then m.(findext := true) else m.(findblock := true);
        }
      }
      PartialEnd(ino, start, wanted, fileSize, data, pos, count);
      got := |data|;
    }
  }
}
