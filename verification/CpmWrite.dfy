/**
 Writing a file: the extent and the block are looked up, or made, once and
 remembered as long as they last; what a block shares with other data is read
 before it is written back.
*/
module CpmWrite {
  import opened Bits
  import opened Division
  import opened CpmDirectory
  import opened CpmFiles
  import opened CpmLayout
  import opened CpmDrive
  import opened CpmRead
  import opened CpmWritten
  import opened CpmBlocks
  import opened CpmBytes
  import opened CpmPart
  import opened CpmDelivery

  class FileWriter {
    const drive: Drive
    const dev: Device
    const blksiz: nat
    const exact: bool

    constructor (drive: Drive, dev: Device, exact: bool)
      ensures this.drive == drive && this.dev == dev && this.blksiz == dev.g.blksiz && this.exact == exact
    {
      this.drive, this.dev, this.blksiz, this.exact := drive, dev, dev.g.blksiz, exact;
    }

    /** A directory entry has a slot for every block it covers. */
    ghost predicate Valid()
      reads dev.store
    {
      var extcap := Capacity(drive.size, blksiz, drive.extents);
      && drive.Wired() && dev.Valid() && drive.size == dev.g.size && blksiz == dev.g.blksiz
      && extcap > 0 && extcap <= Slots(drive.size) * blksiz
    }

    /** The disk and the bytes of its blocks. */
    ghost function Here(): World
      requires drive.Wired() && dev.Valid()
      reads drive.dir, drive.alv, dev.store
    {
      World(drive.Now(), Blocks(dev))
    }

    /**
     A file whose entries cover whole logical extents or whole parts of one, on
     a disk in order, and the write ends within the 32 megabytes that extent
     numbers can count.
    */
    ghost predicate InOrder(ino: nat, end: nat)
      requires drive.Wired() && ino < drive.dir.Length
      reads drive.dir, drive.alv
    {
      var extcap := Capacity(drive.size, blksiz, drive.extents);
      && Consistent(drive.Now()) && Live(drive.dir[ino], drive.hi) && Regular(blksiz, extcap, drive.extents)
      && Tidy(drive.Now(), Owner(drive.dir[ino]), blksiz, extcap) && end <= 0x2000000
    }

    /** The last slot in use; of the first one only that it is no later one. */
    method LastUsed(extent: nat) returns (last: int)
      requires drive.Wired() && extent < drive.dir.Length
      ensures -1 <= last < Slots(drive.size)
      ensures last > 0 ==> Pointer(drive.dir[extent], last, drive.size) != 0
      ensures forall k :: 0 < k < Slots(drive.size) && k > last ==> Pointer(drive.dir[extent], k, drive.size) == 0
    {
      var e := drive.dir[extent];
      if drive.size <= 256 {
        last := 15;
        while last >= 0
          invariant -1 <= last < 16 && forall k :: last < k < 16 ==> e.pointers[k] == 0
        {
          if e.pointers[last] != 0 { break; }
          last := last - 1;
        }
      } else {
        last := 14;
        while last > 0
          invariant 0 <= last < 16 && last % 2 == 0 && forall k :: last < 2 * k && k < 8 ==> Pointer(e, k, drive.size) == 0
        {
          if e.pointers[last] != 0 || e.pointers[last + 1] != 0 {
            last := last / 2;
            break;
          }
          last := last - 2;
        }
      }
    }

    /** Record in the entry how far the file goes. */
    method Measure(extent: nat, extentno: nat, pos: nat)
      requires drive.Wired() && extent < drive.dir.Length && pos > 0
      modifies drive.dir
      ensures drive.Now() == Step(old(drive.Now()), Measurement(extent, extentno, pos, exact))
      ensures forall i :: 0 <= i < drive.dir.Length ==> drive.dir[i].status == old(drive.dir[i].status)
    {
      var l, h, c := extentno % 32, extentno / 32 % 64, (pos - 1) % 16384 / 128 + 1;
      var r := if exact then (128 - pos % 128) % 128 else pos % 128;
      drive.dir[extent] := drive.dir[extent].(extnol := l, extnoh := h);
      drive.dir[extent] := drive.dir[extent].(blkcnt := c);
      drive.dir[extent] := drive.dir[extent].(lrc := r);
      assert drive.Now().dir == Step(old(drive.Now()), Measurement(extent, extentno, pos, exact)).dir;
    }

    /** The job of writing from start on, as it stands before. */
    ghost function JobOf(ino: nat, start: nat): Job
      requires drive.Wired() && ino < drive.dir.Length
      reads drive.dir, drive.alv
    {
      Job(drive.Now(), ino, Owner(drive.dir[ino]), start, blksiz, Capacity(drive.size, blksiz, drive.extents), exact)
    }

    /** The data to be delivered from start on, as it stands before. */
    ghost function DeliveryOf(ino: nat, start: nat, data: seq<byte>, stale: seq<Sector>): Delivery
      requires drive.Wired() && dev.Valid() && ino < drive.dir.Length && Sectors(stale, dev.g)
      reads drive.dir, drive.alv, dev.store
    {
      Delivery(Here(), Format(blksiz, Capacity(drive.size, blksiz, drive.extents)), Owner(drive.dir[ino]), start, data, dev.g.secLength, Flat(stale, dev.g))
    }

    /** An entry covers as many bytes as its logical extents have. */
    ghost predicate Undivided()
      requires drive.Wired()
      reads drive.dir, drive.alv
    {
      FormatOk(drive.Now(), Format(blksiz, Capacity(drive.size, blksiz, drive.extents)))
    }

    /**
     Write data from start on to the file of entry ino; stale is what happens to
     be in the buffer. What it does to directory and bitmap is a run of extents
     reached, slots filled and lengths recorded; so if the file is still there,
     the disk stays consistent. Then every position written has a block, no
     other file is touched, no block is lost, and the length recorded is right
     exactly if no logical extent has begun within the entry since it was looked
     up. The bytes written can be read back, and no other byte of any file
     changes, but for the rest of a sector begun and not filled in a block that
     was there before.
    */
    method CpmWrite(ino: nat, start: nat, data: seq<byte>, stale: seq<Sector>)
      returns (got: int, pos: nat, halted: bool, ghost ops: seq<Op>)
      requires Valid() && ino < drive.dir.Length && Sectors(stale, dev.g)
      modifies drive.dir, drive.alv, dev.store
      ensures Valid()
      ensures drive.Now() == Run(old(drive.Now()), ops) && (old(Live(drive.dir[ino], drive.hi)) ==> ProperRun(old(drive.Now()), ops))
      ensures old(Consistent(drive.Now()) && Live(drive.dir[ino], drive.hi)) ==> Consistent(drive.Now()) && !halted
      ensures !halted ==> -1 <= got <= |data| && (data != [] ==> got != 0) && pos == start + if got < 0 then 0 else got
      ensures old(InOrder(ino, start + |data|)) ==> Accomplished(old(JobOf(ino, start)), drive.Now(), pos)
      ensures old(InOrder(ino, start + |data|) && Undivided()) ==> Delivered(old(DeliveryOf(ino, start, data, stale)), Here(), pos)
    {
      hide *;
      ValidMeans();
      ghost var a, e, more, w := AimOf(ino, start, data, stale), NOWHERE, data != [], Here();
      var findext, findblock := true, true;
      var extent: int, extentno: nat, nextblockpos: nat, nextextpos: nat := -1, 0, 0, 0;
      var count: nat := |data|;
      var buffer := NewBuffer(stale);
      got, pos, halted, ops := 0, start, false, [];
      Starts(ino, start, data, stale);
      while count > 0
        invariant got + count == |data| && pos == start + got && got >= 0 && (findext || findblock || count == 0)
        invariant more == (count > 0) && !halted
        invariant if findext then e == NOWHERE else 0 <= extent < drive.dir.Length && e.extent == extent && e.x == extentno && e.next == nextextpos
        invariant dev.Valid() && Valid() && OnTrack(a, ops, pos, e) && Buffered(buffer[..], a, pos) && Delivering(a, Here(), pos, more)
        decreases count
      {
        var found, ptr, block, isNew;
        found, extent, extentno, nextextpos, ptr, block, isNew, nextblockpos, ops, e, w :=
          Prepare(ino, pos, findext, findblock, extent, extentno, nextextpos, nextblockpos, a, ops, e);
        if !found {
          got := if got == 0 then -1 else got;
          break;
        }
        findext, findblock := false, false;
        var done, n;
        done, halted, n, extentno, ops, e := WriteBack(extent, extentno, ptr, block, isNew, pos, data[got..], buffer, a, ops, e, w, nextblockpos);
        more := done && n < count;
        if !done {
          got := if got == 0 then -1 else got;
          break;
        }
        pos, got, count := pos + n, got + n, count - n;
        if pos == nextextpos { findext := true; } else if pos == nextblockpos { findblock := true; }
      }
      Ends(a, ops, pos, e, more);
    }

    /** A buffer that holds whatever it happens to. */
    method NewBuffer(stale: seq<Sector>) returns (buffer: array<Sector>)
      ensures fresh(buffer) && buffer[..] == stale
    {
      buffer := new Sector[|stale|](i requires 0 <= i < |stale| => stale[i]);
    }

    // ------------------------------------------------- where a write stands

    ghost function AimOf(ino: nat, start: nat, data: seq<byte>, stale: seq<Sector>): Aim
      requires drive.Wired() && dev.Valid() && ino < drive.dir.Length && Sectors(stale, dev.g)
      reads drive.dir, drive.alv, dev.store
    {
      var good := InOrder(ino, start + |data|);
      Aim(Live(drive.dir[ino], drive.hi), good, good && Undivided(), JobOf(ino, start), DeliveryOf(ino, start, data, stale))
    }

    /** The operations so far have been done, and are proper if the file is there; and the entries are there as the file is. */
    ghost predicate Going(a: Aim, ops: seq<Op>, extent: int)
      requires drive.Wired() && -1 <= extent < drive.dir.Length
      reads drive.dir, drive.alv
    {
      && Shape(a.j.d0) && a.j.ino < drive.dir.Length && drive.Now() == Run(a.j.d0, ops) && (a.live ==> ProperRun(a.j.d0, ops))
      && (Live(drive.dir[a.j.ino], drive.hi) <==> a.live) && (extent != -1 ==> (Live(drive.dir[extent], drive.hi) <==> a.live))
    }

    /** In a write in order everything before pos is done; e, unless nowhere, is the entry that pos is in. */
    ghost predicate OnTrack(a: Aim, ops: seq<Op>, pos: nat, e: Found)
      requires drive.Wired()
      reads drive.dir, drive.alv
    {
      && -1 <= e.extent < drive.dir.Length && Going(a, ops, e.extent) && Aimed(a) && (a.good ==> Tracked(a.j, pos, e))
    }

    ghost predicate Tracked(j: Job, pos: nat, e: Found)
      requires drive.Wired()
      reads drive.dir, drive.alv
    {
      && j.blksiz == blksiz && j.extcap == Capacity(drive.size, blksiz, drive.extents) && j.exact == exact
      && Progressed(j, drive.Now(), pos) && if e.extent == -1 then Fresh(j, pos) else Located(j, drive.Now(), e.extent, e.x, e.q, pos, e.next)
    }

    /** The data up to pos are where they belong; more says whether there are any left. */
    ghost predicate Delivering(a: Aim, w: World, pos: nat, more: bool) {
      a.fit ==> a.c.sec == dev.g.secLength && Delivered(a.c, w, pos) && (more ==> Between(a.c, pos))
    }

    /** The buffer holds a block; before anything is written, what it happens to hold. */
    ghost predicate Buffered(buffer: seq<Sector>, a: Aim, pos: nat)
      requires dev.Valid()
      reads dev.store
    {
      Sectors(buffer, dev.g) && (pos == a.c.start ==> Flat(buffer, dev.g) == a.c.stale)
    }

    lemma {:induction false} Starts(ino: nat, start: nat, data: seq<byte>, stale: seq<Sector>)
      requires Valid() && ino < drive.dir.Length && Sectors(stale, dev.g)
      ensures drive.Wired() && dev.Valid()
      ensures var a := AimOf(ino, start, data, stale);
              && a.live == Live(drive.dir[ino], drive.hi) && a.good == InOrder(ino, start + |data|) && a.fit == (a.good && Undivided())
              && a.j == JobOf(ino, start) && a.j.d0 == drive.Now() && a.j.ino == ino
              && a.c == DeliveryOf(ino, start, data, stale) && a.c.start == start && a.c.data == data
              && Buffered(stale, a, start) && Delivering(a, Here(), start, data != []) && OnTrack(a, [], start, NOWHERE)
    {
      hide Capacity, Delivered, Device.Valid, Consistent, Tidy, Progressed, Fresh, Between, FormatOk, Flat, Sectors, Blocks;
      ValidMeans();
      var a := AimOf(ino, start, data, stale);
      if a.good { ProgressStart(a.j); }
      if a.fit { BetweenStart(a.c); }
    }

    lemma {:induction false} Ends(a: Aim, ops: seq<Op>, pos: nat, e: Found, more: bool)
      requires drive.Wired() && dev.Valid() && OnTrack(a, ops, pos, e) && Delivering(a, Here(), pos, more)
      ensures Shape(a.j.d0) && drive.Now() == Run(a.j.d0, ops) && (a.live ==> ProperRun(a.j.d0, ops))
      ensures Consistent(a.j.d0) && a.live ==> Consistent(drive.Now())
      ensures (a.good ==> Accomplished(a.j, drive.Now(), pos)) && (a.fit ==> Delivered(a.c, Here(), pos))
    {
      hide Progressed, Accomplished, Delivered, Between, Capacity, Fresh, Located, Device.Valid, Consistent, Blocks;
      if Consistent(a.j.d0) && a.live { RunConsistent(a.j.d0, ops); }
      if a.good { JobDone(a.j, drive.Now(), pos); }
    }

    lemma {:induction false} ValidMeans()
      requires Valid()
      ensures drive.Wired() && dev.Valid() && GeometryOk(dev.g) && blksiz == dev.g.blksiz > 0 && dev.g.secLength > 0 && blksiz % dev.g.secLength == 0
      ensures Capacity(drive.size, blksiz, drive.extents) > 0
    {
      ValidGeometry(dev);
    }

    // ------------------------------------------------------------ the steps

    /** Where the region of n bytes that a position is in ends. */
    method EndOf(pos: nat, n: nat) returns (end: nat)
      requires n > 0
      ensures IsEnd(end, pos, n) && end > pos
    {
      end := pos / n * n + n;
    }

    /** The slot for a position. */
    method SlotFor(pos: nat, extcap: nat) returns (ptr: nat)
      requires Valid() && extcap == Capacity(drive.size, blksiz, drive.extents)
      ensures IsSlot(ptr, pos, extcap, blksiz) && ptr < Slots(drive.size)
    {
      hide Capacity, Device.Valid;
      SlotInEntry(pos, extcap, blksiz, Slots(drive.size));
      ptr := pos % extcap / blksiz;
    }

    /** How many bytes one entry covers. */
    method CapacityOf() returns (extcap: nat)
      ensures extcap == Capacity(drive.size, blksiz, drive.extents)
    {
      extcap := (if drive.size <= 256 then 16 else 8) * blksiz;
      if extcap > 16384 { extcap := 16384 * drive.extents; }
    }

    /** Find the entry for pos, or make one. */
    method FindExt(ino: nat, extentno: nat, ghost a: Aim, ghost ops: seq<Op>, ghost pos: nat, ghost next: nat)
      returns (extent: int, ghost ops': seq<Op>)
      requires Valid() && ino == a.j.ino < drive.dir.Length && extentno == pos / 16384 && pos < a.c.start + |a.c.data|
      requires OnTrack(a, ops, pos, NOWHERE) && IsEnd(next, pos, Capacity(drive.size, blksiz, drive.extents)) && Delivering(a, Here(), pos, true)
      modifies drive.dir
      ensures -1 <= extent < drive.dir.Length && Delivering(a, Here(), pos, true)
      ensures OnTrack(a, ops', pos, if extent == -1 then NOWHERE else Found(extent, extentno, pos, next))
    {
      hide Run, ProperRun, ReachExtent, Progressed, Located, Fresh, Capacity, FindExtent, Consistent, Delivered, Between, Blocks;
      ghost var d := drive.Now();
      ReachedLive(d, ino, extentno);
      if a.good { EntryReached(a.j, d, pos, next); }
      if a.fit { ReachDelivers(a.j, a.c, Here(), pos); }
      extent := drive.GetExtent(ino, extentno);
      RunMore(a.j.d0, ops, Reach(ino, extentno));
      ops' := ops + [Reach(ino, extentno)];
    }

    /** Find the block of slot k, or take one; isNew says which. */
    method FindBlock(extent: nat, k: nat, ghost a: Aim, ghost ops: seq<Op>, ghost pos: nat, ghost e: Found)
      returns (block: int, isNew: bool, ghost ops': seq<Op>)
      requires Valid() && extent == e.extent < drive.dir.Length && k < Slots(drive.size)
      requires OnTrack(a, ops, pos, e) && IsSlot(k, pos, Capacity(drive.size, blksiz, drive.extents), blksiz)
      modifies drive.dir, drive.alv
      ensures block >= -1 && OnTrack(a, ops', pos, e)
      ensures if block == -1 then Here() == old(Here()) else Reached(a, old(Here()), extent, k, block, isNew)
    {
      hide Run, ProperRun, Pointer, NextBlock, ReachBlock, Progressed, Located, Fresh, Capacity, Consistent, Slots, Blocks;
      ghost var d := drive.Now();
      SlotNow(d, extent, k);
      if a.good {
        ProgressConsistent(a.j, d, pos);
        SlotFilled(a.j, d, extent, k, e.x, e.q, pos, e.next);
      }
      FilledStatus(d, extent, k, a.j.ino);
      FilledStatus(d, extent, k, extent);
      block, isNew := drive.GetBlock(extent, k);
      RunMore(a.j.d0, ops, Fill(extent, k));
      ops' := ops + [Fill(extent, k)];
    }

    /** Slot k of the entry has been filled, if need be, and holds the block; nothing else has changed since w. */
    ghost predicate Reached(a: Aim, w: World, extent: nat, k: nat, block: int, isNew: bool)
      requires drive.Wired() && dev.Valid() && extent < drive.dir.Length && k < Slots(drive.size)
      reads drive.dir, drive.alv, dev.store
    {
      && Shape(w.d) && extent < |w.d.dir| && w.d.size == drive.size && drive.Now() == ReachBlock(w.d, extent, k) && w.bs == Blocks(dev)
      && block == Pointer(drive.dir[extent], k, drive.size) && isNew == (Pointer(w.d.dir[extent], k, w.d.size) == 0)
      && (a.good ==> Consistent(w.d) && block != 0)
    }

    /** The blocks of a consistent disk lie on it. */
    lemma {:induction false} OnDisk(a: Aim, ops: seq<Op>, extent: nat, k: nat)
      requires drive.Wired() && extent < drive.dir.Length && k < Slots(drive.size) && Going(a, ops, extent)
      ensures Consistent(a.j.d0) && a.live ==> Pointer(drive.dir[extent], k, drive.size) < drive.size
    {
      hide Pointer, Run, ProperRun, Consistent;
      if Consistent(a.j.d0) && a.live {
        RunConsistent(a.j.d0, ops);
        InData(drive.Now(), extent, k);
      }
    }

    /** Find what is not known: the entry, then the block. */
    method Prepare(ino: nat, pos: nat, findext: bool, findblock: bool, wasExtent: int, wasExtentno: nat, wasNextext: nat, wasNextblock: nat,
                   ghost a: Aim, ghost ops: seq<Op>, ghost e: Found)
      returns (found: bool, extent: int, extentno: nat, nextextpos: nat, ptr: nat, block: int, isNew: bool, nextblockpos: nat,
               ghost ops': seq<Op>, ghost e': Found, ghost w: World)
      requires Valid() && ino == a.j.ino < drive.dir.Length && (findext || findblock) && pos < a.c.start + |a.c.data|
      requires if findext then e == NOWHERE else 0 <= wasExtent < drive.dir.Length && e.extent == wasExtent && e.x == wasExtentno && e.next == wasNextext
      requires OnTrack(a, ops, pos, e) && Delivering(a, Here(), pos, true)
      modifies drive.dir, drive.alv
      ensures -1 <= extent < drive.dir.Length && block >= -1 && OnTrack(a, ops', pos, e') && ptr < Slots(drive.size)
      ensures if found then extent != -1 && block != -1 && e'.extent == extent && e'.x == extentno && e'.next == nextextpos
                         && Reached(a, w, extent, ptr, block, isNew) && Delivering(a, w, pos, true)
              else Delivering(a, Here(), pos, true)
      ensures found ==> IsSlot(ptr, pos, Capacity(drive.size, blksiz, drive.extents), blksiz) && IsEnd(nextblockpos, pos, blksiz) && pos < nextblockpos
    {
      hide *;
      ValidMeans();
      extent, extentno, nextextpos, block, isNew, nextblockpos := wasExtent, wasExtentno, wasNextext, -1, false, wasNextblock;
      found, ops', e', w := false, ops, e, Here();
      var extcap := CapacityOf();
      var lookup := findblock;
      ptr := SlotFor(pos, extcap);
      if findext {
        extentno := pos / 16384;
        nextextpos := EndOf(pos, extcap);
        extent, ops' := FindExt(ino, extentno, a, ops, pos, nextextpos);
        if extent == -1 { return; }
        e' := Found(extent, extentno, pos, nextextpos);
        lookup := true;
      }
      if lookup {
        w := Here();
        block, isNew, ops' := FindBlock(extent, ptr, a, ops', pos, e');
        if block == -1 { return; }
        nextblockpos := EndOf(pos, blksiz);
      }
      found := true;
    }

    /** Write the part of the block that the data from pos on go into. */
    method PutPart(extent: nat, k: nat, block: nat, isNew: bool, pos: nat, rest: seq<byte>, buffer: array<Sector>,
                   ghost a: Aim, ghost ops: seq<Op>, ghost e: Found, ghost w: World, ghost end: nat)
      returns (ok: bool, halted: bool, n: nat)
      requires Valid() && Buffered(buffer[..], a, pos) && rest != [] && extent == e.extent < drive.dir.Length && k < Slots(drive.size)
      requires Reached(a, w, extent, k, block, isNew) && OnTrack(a, ops, pos, e) && Delivering(a, w, pos, true)
      requires IsSlot(k, pos, Capacity(drive.size, blksiz, drive.extents), blksiz) && IsEnd(end, pos, blksiz)
      requires a.c.start <= pos <= a.c.start + |a.c.data| && rest == a.c.data[pos - a.c.start..]
      modifies buffer, dev.store
      ensures dev.Valid() && Valid() && (Consistent(a.j.d0) && a.live ==> ok && !halted)
      ensures a.good ==> Pointer(drive.dir[extent], k, drive.size) != 0
      ensures ok ==> Buffered(buffer[..], a, pos + n) && n > 0 && n == if end - pos < |rest| then end - pos else |rest|
      ensures Delivering(a, Here(), if ok && !halted then pos + n else pos, ok && !halted && n < |rest|)
    {
      hide Run, ProperRun, Progressed, Located, Fresh, Capacity, ReachBlock, Pointer, Blocks, Flat, Sectors, Device.Valid, FormatOk, Delivered, Touched,
           Consistent, Rewritten, WrittenTo, IsSlot, IsEnd, Slots, AtPart, Between;
      ValidMeans();
      OnDisk(a, ops, extent, k);
      ghost var held := Flat(buffer[..], dev.g);
      ok, halted, n := WritePart(dev, block, isNew, pos, rest, buffer);
      if ok {
        PartFits(pos % blksiz, |rest|, n, blksiz);
        EndAway(end, pos, blksiz);
      }
      if a.fit {
        PartGoes(a.c, a.j, w, Here(), extent, k, e.x, e.q, pos, e.next, n, rest, held, block, isNew);
      }
    }

    /** Write the part of the block, and record how far the file goes. */
    method WriteBack(extent: nat, extentno: nat, k: nat, block: nat, isNew: bool, pos: nat, rest: seq<byte>, buffer: array<Sector>,
                     ghost a: Aim, ghost ops: seq<Op>, ghost e: Found, ghost w: World, ghost end: nat)
      returns (done: bool, halted: bool, n: nat, extentno': nat, ghost ops': seq<Op>, ghost e': Found)
      requires Valid() && Buffered(buffer[..], a, pos) && rest != [] && extent == e.extent < drive.dir.Length && k < Slots(drive.size) && extentno == e.x
      requires Reached(a, w, extent, k, block, isNew) && OnTrack(a, ops, pos, e) && Delivering(a, w, pos, true)
      requires IsSlot(k, pos, Capacity(drive.size, blksiz, drive.extents), blksiz) && IsEnd(end, pos, blksiz) && pos < end
      requires a.c.start <= pos <= a.c.start + |a.c.data| && rest == a.c.data[pos - a.c.start..]
      modifies drive.dir, buffer, dev.store
      ensures dev.Valid() && Valid() && (halted ==> !done) && (Consistent(a.j.d0) && a.live ==> done)
      ensures !done ==> OnTrack(a, ops', pos, e) && Delivering(a, Here(), pos, false) && e' == e
      ensures done ==> n > 0 && n == if end - pos < |rest| then end - pos else |rest|
      ensures done ==> Buffered(buffer[..], a, pos + n) && OnTrack(a, ops', pos + n, e') && Delivering(a, Here(), pos + n, n < |rest|)
      ensures done ==> e' == if pos + n == e.next then NOWHERE else e.(x := extentno')
    {
      hide *;
      extentno', ops', e' := extentno, ops, e;
      var ok;
      ok, halted, n := PutPart(extent, k, block, isNew, pos, rest, buffer, a, ops, e, w, end);
      done := ok && !halted;
      if done {
        extentno', ops' := Record(extent, extentno, pos + n, a, ops, e, k, pos, end, n < |rest|);
        e' := if pos + n == e.next then NOWHERE else e.(x := extentno');
      }
    }

    lemma {:induction false} PartKeeps(j: Job, e: Found, k: nat, from: nat, end: nat, pos: nat, last: int, extcap: nat)
      requires Valid() && 0 <= e.extent < drive.dir.Length && IsEnd(end, from, blksiz) && from < pos <= end && pos <= 0x2000000
      requires Tracked(j, from, e) && extcap == Capacity(drive.size, blksiz, drive.extents) && IsSlot(k, from, extcap, blksiz)
      requires k < Slots(drive.size) && Pointer(drive.dir[e.extent], k, drive.size) != 0
      requires last < Slots(drive.size) && (last > 0 ==> Pointer(drive.dir[e.extent], last, drive.size) != 0)
      ensures last > 0 ==> last * blksiz / extcap == 0
      ensures var d := Step(drive.Now(), Measurement(e.extent, e.x, pos, exact));
              Progressed(j, d, pos) && if pos == e.next then Fresh(j, pos) else Located(j, d, e.extent, e.x, e.q, pos, e.next)
    {
      hide Step, Pointer, Progressed, Located, Fresh, Capacity, Measurement, Slots;
      PartWritten(j, drive.Now(), e.extent, k, e.x, e.q, from, e.next, pos - from);
      if last > 0 { NoFurther(j, drive.Now(), e.extent, e.x, e.q, from, e.next, last); }
    }

    /** With everything before pos in the blocks: what the entry says of the length. */
    method Record(extent: nat, extentno: nat, pos: nat, ghost a: Aim, ghost ops: seq<Op>, ghost e: Found,
                  ghost k: nat, ghost from: nat, ghost end: nat, ghost more: bool)
      returns (extentno': nat, ghost ops': seq<Op>)
      requires Valid() && extent == e.extent < drive.dir.Length && extentno == e.x && from < pos <= end && k < Slots(drive.size)
      requires OnTrack(a, ops, from, e) && (a.good ==> Pointer(drive.dir[extent], k, drive.size) != 0) && pos <= a.c.start + |a.c.data|
      requires IsSlot(k, from, Capacity(drive.size, blksiz, drive.extents), blksiz) && IsEnd(end, from, blksiz) && Delivering(a, Here(), pos, more)
      modifies drive.dir
      ensures Delivering(a, Here(), pos, more) && OnTrack(a, ops', pos, if pos == e.next then NOWHERE else e.(x := extentno'))
    {
      hide Run, ProperRun, Step, Pointer, Progressed, Located, Fresh, Capacity, Measurement, Slots, IsEnd, IsSlot, Consistent, Delivered, Between, Blocks;
      var last := LastUsed(extent);
      extentno' := extentno;
      var extcap := CapacityOf();
      if a.good { PartKeeps(a.j, e, k, from, end, pos, last, extcap); }
      if last > 0 { extentno' := extentno' + last * blksiz / extcap; }
      ghost var op := Measurement(extent, extentno', pos, exact);
      if a.fit { MeasureDelivers(a.j, a.c, Here(), extent, extentno, e.q, from, e.next, pos, exact); }
      Measure(extent, extentno', pos);
      RunMore(a.j.d0, ops, op);
      ops' := ops + [op];
    }
  }

  /** Giving an entry a block does not change whose entries there are. */
  lemma {:induction false} FilledStatus(d: Disk, i: nat, k: nat, j: nat)
    requires Shape(d) && i < |d.dir| && k < Slots(d.size) && j < |d.dir|
    ensures var r := ReachBlock(d, i, k); |r.dir| == |d.dir| && r.dir[j].status == d.dir[j].status
  {
  }

  lemma {:induction false} SlotInEntry(pos: nat, extcap: nat, blksiz: nat, slots: nat)
    requires blksiz > 0 && 0 < extcap <= slots * blksiz
    ensures pos % extcap / blksiz < slots
  {
    DivAtLeast(pos % extcap, blksiz, slots);
  }
}
