/**
 Whole sectors for the emulated machine: 16 segments of 32 bytes after a seek,
 and the file that is loaded when the machine starts.
*/
module VirtDiskSector {
  import opened Bits
  import opened VirtDiskLink
  import opened VirtDiskSlave
  import opened VirtDiskMaster

  const TRACKS := 512
  const SECTORS := 32

  /** What the server has from sector number n on. */
  ghost function Content(store: nat -> seq<Block>, n: nat): seq<byte> { Flatten(store(n * DATASIZE)) }

  /** Only the last block of a file is short. */
  ghost predicate StoreOk(store: nat -> seq<Block>) {
    forall o :: BlocksOk(store(o)) && AlignedBlocks(store(o))
  }

  class Board {
    const master: Master
    const bufferSD: array<byte>
    var trackSel: nat
    var sectSel: nat
    var diskErr: FResult

    constructor (master: Master)
      ensures this.master == master && fresh(bufferSD) && bufferSD.Length == SEGMENT
      ensures trackSel == 0 && sectSel == 0 && diskErr == UNEXPECTED_EOF
    {
      this.master := master;
      bufferSD := new byte[SEGMENT](_ => 0);
      trackSel, sectSel, diskErr := 0, 0, UNEXPECTED_EOF;
    }

    /** An invalid track or sector has been reported when it was selected. */
    ghost predicate Valid()
      reads this, master, master.slave
    {
      bufferSD.Length == SEGMENT && bufferSD != master.slave.data && master.slave.Sound() && StoreOk(master.slave.store)
      && (diskErr == FR_OK ==> trackSel < 512 && sectSel < 32)
    }

    method Seek()
      requires Valid() && diskErr == FR_OK
      modifies `diskErr, master`faults, master.slave`status, master.slave`cmdStatus, master.slave`dataLen, master.slave`blocks
      ensures Valid() && master.slave.Writing() && master.slave.Pending() == []
      ensures diskErr == FR_OK ==>
                && master.slave.Reading() && master.slave.Aligned()
                && master.slave.Unread() == Content(master.slave.store, 32 * trackSel + sectSel)
      ensures Garbled(master.faults) <= Garbled(old(master.faults)) && (Garbled(old(master.faults)) <= 2 ==> diskErr == FR_OK)
    {
      diskErr := master.VdLseek((trackSel * SECTORS + sectSel) * DATASIZE);
    }

    /** The cursor of the slave is at byte got of what it should read. */
    ghost predicate CursorAt(right: seq<byte>, got: nat)
      reads master, master.slave, master.slave.data
    {
      got <= |right| && master.slave.Reading() && master.slave.Aligned() && master.slave.Unread() == right[got..]
    }

    /** Read one segment into the buffer. */
    method ReadSegment(ghost right: seq<byte>, ghost got: nat)
      requires Valid() && diskErr == FR_OK && CursorAt(right, got)
      modifies `diskErr, bufferSD, master`faults, master.slave, master.slave.data
      ensures Valid() && master.slave.sent == old(master.slave.sent)
      ensures diskErr == FR_OK ==>
                CursorAt(right, got + SEGMENT) && got + SEGMENT <= |right| && bufferSD[..] == right[got..got + SEGMENT]
      ensures Garbled(master.faults) <= Garbled(old(master.faults))
      ensures Garbled(old(master.faults)) <= 2 && got + SEGMENT <= |right| ==> diskErr == FR_OK
    {
      hide Garbled, Flatten, BlocksOk, AlignedBlocks, StoreOk;
      var n;
      diskErr, n := master.VdRead(bufferSD);
      if n < SEGMENT { diskErr := UNEXPECTED_EOF; }
      NextSegment(right, got);
    }

    /**
     Read the selected sector: the bytes up to the first error, and zeros from
     there on.
    */
    method ReadSect() returns (out: seq<byte>, ghost got: nat)
      requires Valid()
      modifies `diskErr, bufferSD, master`faults, master.slave, master.slave.data
      ensures Valid() && master.slave.sent == old(master.slave.sent)
      ensures var right := Content(master.slave.store, 32 * trackSel + sectSel);
              && ReadSoFar(out, right, got, DATASIZE)
              && (diskErr == FR_OK ==> got == DATASIZE && old(diskErr) == FR_OK)
              && (old(diskErr) == FR_OK && Garbled(old(master.faults)) <= 2 && |right| >= DATASIZE ==> diskErr == FR_OK)
    {
      hide Garbled, Content, StoreOk, CursorAt, ReadSoFar;
      out, got := [], 0;
      ghost var right := Content(master.slave.store, trackSel * SECTORS + sectSel);
      if diskErr == FR_OK {
        Seek();
        if diskErr == FR_OK { CursorAtStart(right); }
      }
      NothingRead(right);
      var segment: nat := 0;
      while segment < 16
        invariant segment <= 16 && Valid() && master.slave.sent == old(master.slave.sent)
        invariant ReadSoFar(out, right, got, segment * SEGMENT)
        invariant diskErr == FR_OK ==> got == segment * SEGMENT && old(diskErr) == FR_OK && CursorAt(right, got)
        invariant Garbled(master.faults) <= Garbled(old(master.faults))
        invariant old(diskErr) == FR_OK && Garbled(old(master.faults)) <= 2 && |right| >= DATASIZE ==> diskErr == FR_OK
      {
        if diskErr == FR_OK { ReadSegment(right, got); }
        if diskErr == FR_OK {
          ReadMore(out, right, got, bufferSD[..]);
          out := out + bufferSD[..];
          got := got + SEGMENT;
        } else {
          ReadNoMore(out, right, got, segment * SEGMENT);
          out := out + Repeat<byte>(0, SEGMENT);
        }
        segment := segment + 1;
      }
    }

    lemma {:induction false} CursorAtStart(right: seq<byte>)
      requires master.slave.Reading() && master.slave.Aligned() && master.slave.Unread() == right
      ensures CursorAt(right, 0)
    {
      assert right[0..] == right;
    }

    /** What the slave has been sent, and has waiting, when some segments of the sector have been written. */
    ghost predicate Wrote(sent: seq<Block>, bytes: seq<byte>, segment: nat)
      reads master, master.slave, master.slave.data
    {
      && segment * SEGMENT <= |bytes| == DATASIZE && master.slave.Writing()
      && if segment < 16 then master.slave.sent == sent && master.slave.Pending() == bytes[..segment * SEGMENT]
         else master.slave.sent == sent + [bytes] && master.slave.Pending() == [] && master.slave.filePos == 0
    }

    /** Write one segment of the sector. */
    method WriteSegment(bytes: seq<byte>, segment: nat, ghost sent: seq<Block>)
      requires Valid() && diskErr == FR_OK && segment < 16 && Wrote(sent, bytes, segment)
      modifies `diskErr, master`faults, master.slave, master.slave.data
      ensures Valid() && (diskErr == FR_OK ==> Wrote(sent, bytes, segment + 1)) && (diskErr != FR_OK ==> master.slave.sent == sent)
      ensures Garbled(master.faults) <= Garbled(old(master.faults))
      ensures Garbled(old(master.faults)) <= 2 ==> diskErr == FR_OK
    {
      hide Garbled, Flatten, BlocksOk, AlignedBlocks, StoreOk;
      var n;
      ghost var k := segment * SEGMENT;
      Joined(bytes, k);
      diskErr, n := master.VdWrite(bytes[segment * SEGMENT..segment * SEGMENT + SEGMENT]);
      if n < SEGMENT { diskErr := UNEXPECTED_EOF; }
    }

    /**
     Write the selected sector: it is sent once and whole, or not at all; only
     the finalizing packet can still report an error after it has been sent.
    */
    method WriteSect(bytes: seq<byte>)
      requires Valid() && |bytes| == DATASIZE
      modifies `diskErr, master`faults, master.slave, master.slave.data
      ensures Valid()
      ensures diskErr == FR_OK ==> old(diskErr) == FR_OK && master.slave.sent == old(master.slave.sent) + [bytes]
      ensures diskErr != FR_OK ==> master.slave.sent == old(master.slave.sent) || master.slave.sent == old(master.slave.sent) + [bytes]
      ensures old(diskErr) == FR_OK && Garbled(old(master.faults)) <= 2 ==> diskErr == FR_OK
    {
      hide Garbled, StoreOk, Wrote;
      ghost var sent := master.slave.sent;
      if diskErr == FR_OK {
        Seek();
        if diskErr == FR_OK { NothingWrote(sent, bytes); }
      }
      var segment: nat := 0;
      while segment < 16
        invariant segment <= 16 && Valid()
        invariant diskErr == FR_OK ==> old(diskErr) == FR_OK && Wrote(sent, bytes, segment)
        invariant diskErr != FR_OK ==> master.slave.sent == sent
        invariant Garbled(master.faults) <= Garbled(old(master.faults))
        invariant old(diskErr) == FR_OK && Garbled(old(master.faults)) <= 2 ==> diskErr == FR_OK
      {
        if diskErr == FR_OK { WriteSegment(bytes, segment, sent); }
        segment := segment + 1;
      }
      if diskErr == FR_OK {
        AllWrote(sent, bytes);
        Finalize();
      }
    }

    /** Writing no more segments. */
    method Finalize()
      requires Valid() && diskErr == FR_OK && master.slave.Writing() && master.slave.filePos != DATASIZE
      modifies `diskErr, master`faults, master.slave, master.slave.data
      ensures Valid() && master.slave.sent == old(master.slave.sent)
      ensures Garbled(old(master.faults)) <= 2 ==> diskErr == FR_OK
    {
      hide Garbled, Flatten, BlocksOk, AlignedBlocks, StoreOk;
      var n;
      diskErr, n := master.VdWrite([]);
    }

    lemma {:induction false} NothingWrote(sent: seq<Block>, bytes: seq<byte>)
      requires |bytes| == DATASIZE && master.slave.Writing() && master.slave.Pending() == [] && master.slave.sent == sent
      ensures Wrote(sent, bytes, 0)
    {
    }

    lemma {:induction false} AllWrote(sent: seq<Block>, bytes: seq<byte>)
      requires Wrote(sent, bytes, 16)
      ensures master.slave.Writing() && master.slave.filePos == 0 && master.slave.sent == sent + [bytes]
    {
    }

    /** Load a file from the cursor to its end. */
    method LoadFile() returns (loaded: seq<byte>, err: FResult)
      requires Valid() && master.slave.Reading() && master.slave.Aligned()
      modifies bufferSD, master`faults, master.slave, master.slave.data
      ensures Valid() && master.slave.Reading() && master.slave.sent == old(master.slave.sent)
      ensures err == FR_OK ==> loaded == old(master.slave.Unread()) && master.slave.Unread() == []
      ensures err != FR_OK ==> loaded + master.slave.Unread() == old(master.slave.Unread())
      ensures Garbled(old(master.faults)) <= MAX_ATTEMPTS ==> err == FR_OK
    {
      loaded := [];
      ghost var u := master.slave.Unread();
      var n: byte := SEGMENT;
      err := FR_OK;
      hide Segment, Flatten, BlocksOk, AlignedBlocks, StoreOk;
      while n == SEGMENT && err == FR_OK
        invariant Valid() && master.slave.Reading() && master.slave.Aligned() && master.slave.sent == old(master.slave.sent)
        invariant loaded + master.slave.Unread() == u && (err == FR_OK && n != SEGMENT ==> master.slave.Unread() == [])
        invariant Garbled(master.faults) <= Garbled(old(master.faults))
        invariant Garbled(old(master.faults)) <= MAX_ATTEMPTS ==> err == FR_OK
        decreases |master.slave.Unread()|, if err == FR_OK && n == SEGMENT then 1 else 0
      {
        ghost var rest := master.slave.Unread();
        err, n := master.VdRead(bufferSD);
        if err == FR_OK {
          TakeOver(loaded, rest, n);
          loaded := loaded + bufferSD[..n];
        }
      }
    }
  }

  lemma {:induction false} TakeOver(loaded: seq<byte>, rest: seq<byte>, n: byte)
    requires n <= |rest|
    ensures loaded + rest[..n] + rest[n..] == loaded + rest && |rest[n..]| == |rest| - n
    ensures n == Segment(rest) && n != SEGMENT ==> rest[n..] == []
  {
  }

  lemma {:induction false} NextSegment(right: seq<byte>, got: nat)
    ensures got + SEGMENT <= |right| ==>
              right[got..][..SEGMENT] == right[got..got + SEGMENT] && right[got..][SEGMENT..] == right[got + SEGMENT..]
  {
  }

  lemma {:induction false} Joined(bytes: seq<byte>, k: nat)
    requires k + SEGMENT <= |bytes|
    ensures bytes[..k] + bytes[k..k + SEGMENT] == bytes[..k + SEGMENT] && bytes[..|bytes|] == bytes
  {
  }

  /** Of what should be read the first got bytes have been, followed by zeros, n in all. */
  ghost predicate ReadSoFar(out: seq<byte>, right: seq<byte>, got: nat, n: nat) {
    got <= |right| && got <= n && out == right[..got] + Repeat<byte>(0, n - got)
  }

  lemma {:induction false} NothingRead(right: seq<byte>)
    ensures ReadSoFar([], right, 0, 0)
  {
  }

  lemma {:induction false} ReadMore(out: seq<byte>, right: seq<byte>, got: nat, more: seq<byte>)
    requires ReadSoFar(out, right, got, got) && got + SEGMENT <= |right| && more == right[got..got + SEGMENT]
    ensures ReadSoFar(out + more, right, got + SEGMENT, got + SEGMENT)
  {
    assert right[..got] + more == right[..got + SEGMENT];
  }

  lemma {:induction false} ReadNoMore(out: seq<byte>, right: seq<byte>, got: nat, n: nat)
    requires ReadSoFar(out, right, got, n)
    ensures ReadSoFar(out + Repeat<byte>(0, SEGMENT), right, got, n + SEGMENT)
  {
    assert Repeat<byte>(0, n - got) + Repeat<byte>(0, SEGMENT) == Repeat<byte>(0, n + SEGMENT - got);
  }
}
