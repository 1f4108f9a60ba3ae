/**
 The Z80 side of the virtual disk: every chunk is asked for or handed over
 until it arrives, and then the slave is told to move on, over a line that may
 garble any packet.
*/
module VirtDiskMaster {
  import opened Bits
  import opened VirtDiskLink
  import opened VirtDiskSlave

  const MAX_ATTEMPTS: byte := 4
  const SEGMENT := 32

  datatype FResult = FR_OK | FR_DISK_ERR | FR_NOT_OPENED | UNEXPECTED_EOF

  /** How many packets the line will garble. */
  function Garbled(faults: seq<Fault>): nat {
    if faults == [] then 0 else Garbled(faults[1..]) + if faults[0].Noise? then 1 else 0
  }

  /** The length of the next segment. */
  function Segment(s: seq<byte>): nat { if |s| < SEGMENT then |s| else SEGMENT }

  lemma {:induction false} PieceJoin(b: seq<byte>)
    ensures Piece(b, 0, CHUNK) + Piece(b, CHUNK, CHUNK) == Piece(b, 0, 2 * CHUNK)
    ensures |Piece(b, CHUNK, CHUNK)| > 0 ==> |Piece(b, 0, CHUNK)| == CHUNK
    ensures Piece(b, 0, 2 * CHUNK) == b[..Segment(b)]
  {
  }

  /** The four bytes of an offset, highest first. */
  function OffsetBytes(o: nat): seq<byte>
    requires o < 0x1_0000_0000
  {
    [o / 0x1000000, o / 0x10000 % 256, o / 0x100 % 256, o % 256]
  }

  lemma {:induction false} OffsetBytesBack(o: nat, pkt: seq<byte>)
    requires o < 0x1_0000_0000 && |pkt| >= 5 && pkt[1..5] == OffsetBytes(o)
    ensures OffsetOf(pkt) == o
  {
    assert pkt[1] == pkt[1..5][0] && pkt[2] == pkt[1..5][1] && pkt[3] == pkt[1..5][2] && pkt[4] == pkt[1..5][3];
    FourBytes(o);
  }

  lemma {:induction false} FourBytes(o: nat)
    ensures o / 0x1000000 * 0x1000000 + o / 0x10000 % 256 * 0x10000 + o / 0x100 % 256 * 0x100 + o % 256 == o
  {
    var a := o / 0x100;
    var b := a / 0x100;
    assert b == o / 0x10000 && b / 0x100 == o / 0x1000000;
  }

  /** Of the reply the first 1 + i bytes have been taken: the first into the checksum only, the others into the buffer as well. */
  ghost predicate Took(was: seq<byte>, buf: seq<byte>, reply: seq<byte>, at: nat, i: nat, checksum: byte) {
    && at + i <= |buf| == |was| && 1 + i <= |reply|
    && buf[..at] == was[..at] && buf[at..at + i] == reply[1..1 + i] && checksum == Sum(reply[..1 + i])
  }

  lemma {:induction false} TookFirst(buf: seq<byte>, reply: seq<byte>, at: nat)
    requires at <= |buf| && |reply| > 0
    ensures Took(buf, buf, reply, at, 0, reply[0])
  {
    SumOne(reply[0]);
    assert [reply[0]] == reply[..1];
  }

  lemma {:induction false} TookMore(was: seq<byte>, buf: seq<byte>, reply: seq<byte>, at: nat, i: nat, checksum: byte)
    requires Took(was, buf, reply, at, i, checksum) && at + i < |buf| && 1 + i < |reply|
    ensures Took(was, buf[at + i := reply[1 + i]], reply, at, i + 1, (checksum + reply[1 + i]) % 256)
  {
    hide Sum;
    var r := buf[at + i := reply[1 + i]];
    SumMore(reply[..1 + i], reply[1 + i]);
    assert reply[..1 + i] + [reply[1 + i]] == reply[..2 + i];
    assert r[at..at + i + 1] == buf[at..at + i] + [reply[1 + i]];
    assert reply[1..2 + i] == reply[1..1 + i] + [reply[1 + i]];
  }

  lemma {:induction false} TookAll(was: seq<byte>, buf: seq<byte>, reply: seq<byte>, at: nat, i: nat, checksum: byte)
    requires Took(was, buf, reply, at, i, checksum) && |reply| == i + 2
    ensures (checksum + reply[1 + i]) % 256 == Sum(reply)
    ensures buf[..at] == was[..at] && buf[at..at + i] == reply[1..1 + i]
  {
    hide Sum;
    SumMore(reply[..1 + i], reply[1 + i]);
    assert reply[..1 + i] + [reply[1 + i]] == reply;
  }

  class Master {
    const slave: Slave
    /** What the line will do to the packets to come. */
    var faults: seq<Fault>

    constructor (slave: Slave, faults: seq<Fault>)
      ensures this.slave == slave && this.faults == faults
    {
      this.slave, this.faults := slave, faults;
    }

    /** Put a packet on the line; noise spares its first h bytes. */
    method Send(p: seq<byte>, h: nat) returns (q: seq<byte>)
      requires h <= |p|
      modifies `faults
      ensures |q| == |p| && q[..h] == p[..h] && Garbled(faults) <= Garbled(old(faults))
      ensures q == p || (Sum(q) != 0 && Garbled(faults) < Garbled(old(faults)))
    {
      q := p;
      if faults != [] {
        q := Deliver(p, h, faults[0]);
        faults := faults[1..];
      }
    }

    // --------------------------------------------------------------- reading

    /** Ask for a chunk; the slave prepares it if the packet arrives. */
    method AskFor(offset: byte) returns (good: bool)
      requires slave.Reading() && offset < 2
      modifies `faults, slave`status, slave`cmdStatus, slave`cmdData, slave`sendBuf, slave`dataLen, slave`filePos, slave`blocks, slave.data
      ensures slave.Reading() && slave.Unread() == old(slave.Unread()) && (old(slave.Aligned()) ==> slave.Aligned())
      ensures Garbled(faults) <= Garbled(old(faults)) && (!good ==> Garbled(faults) < Garbled(old(faults)))
      ensures !good ==> slave.Buffered() == old(slave.Buffered()) && slave.blocks == old(slave.blocks)
      ensures good ==>
                && slave.Settled() && (old(slave.Settled()) ==> slave.Buffered() == old(slave.Buffered()))
                && var piece := Piece(slave.Buffered(), offset * CHUNK, CHUNK);
                   slave.sendBuf == Packet([VD_CMD_RD_FILE] + piece) && slave.cmdData == |piece|
    {
      PacketAccepted([VD_CMD_RD_FILE, offset, 16]);
      var pkt := Send(Packet([VD_CMD_RD_FILE, offset, 16]), 1);
      assert pkt[0] == pkt[..1][0];
      hide Sum, Closing, Piece;
      slave.RdFile(pkt);
      good := slave.cmdStatus == 0 && slave.status == READY;
    }

    /** Receive the chunk the slave has prepared into buf; true if its checksum is right. */
    method Receive(buf: array<byte>, at: nat) returns (good: bool)
      requires slave.cmdData <= CHUNK && at + CHUNK <= buf.Length
      requires |slave.sendBuf| == slave.cmdData + 2 && Sum(slave.sendBuf) == 0
      modifies `faults, buf
      ensures buf[..at] == old(buf[..at]) && Garbled(faults) <= Garbled(old(faults))
      ensures if good then buf[at..at + slave.cmdData] == slave.sendBuf[1..1 + slave.cmdData]
              else Garbled(faults) < Garbled(old(faults))
    {
      hide Sum, Took, Garbled;
      var reply := Send(slave.sendBuf, 0);
      ghost var f, was := Garbled(faults), buf[..];
      var vdChecksum: byte := reply[0];
      var i: nat := 0;
      TookFirst(was, reply, at);
      while i < slave.cmdData
        invariant i <= slave.cmdData && Garbled(faults) == f && Took(was, buf[..], reply, at, i, vdChecksum)
      {
        TookMore(was, buf[..], reply, at, i, vdChecksum);
        buf[at + i] := reply[1 + i];
        vdChecksum := (vdChecksum + buf[at + i]) % 256;
        i := i + 1;
      }
      TookAll(was, buf[..], reply, at, i, vdChecksum);
      vdChecksum := (vdChecksum + reply[1 + i]) % 256;
      good := vdChecksum == 0;
    }

    /** Tell the slave to move on by n bytes. */
    method ReadNext(n: byte) returns (status: FResult)
      requires slave.Reading() && n <= |slave.Buffered()|
      modifies `faults, slave`status, slave`cmdStatus, slave`cmdData, slave`dataLen, slave`filePos
      ensures slave.Reading() && (status == FR_OK || status == FR_DISK_ERR)
      ensures slave.Buffered() == if status == FR_OK then old(slave.Buffered())[n..] else old(slave.Buffered())
      ensures Garbled(faults) <= Garbled(old(faults)) && (Garbled(old(faults)) <= MAX_ATTEMPTS ==> status == FR_OK)
    {
      status := FR_OK;
      var attempts: byte := 0;
      ghost var was := slave.Buffered();
      PacketAccepted([VD_CMD_RD_NEXT, n]);
      hide Sum, Closing;
      while attempts <= MAX_ATTEMPTS
        invariant attempts <= MAX_ATTEMPTS + 1
        invariant slave.Reading() && slave.Buffered() == was
        invariant Garbled(faults) + attempts <= Garbled(old(faults))
        decreases MAX_ATTEMPTS + 1 - attempts
      {
        var pkt := Send(Packet([VD_CMD_RD_NEXT, n]), 1);
        assert pkt[0] == pkt[..1][0];
        slave.RdNext(pkt);
        if slave.cmdStatus == 0 && slave.status == READY { break; }
        attempts := attempts + 1;
      }
      if attempts > MAX_ATTEMPTS { status := FR_DISK_ERR; }
    }

    /** Chunk number offset of the next segment is asked for and received once. */
    method Chunk(buf: array<byte>, offset: byte) returns (good: bool, answered: bool, n: byte)
      requires slave.Reading() && offset < 2 && buf != slave.data && buf.Length >= SEGMENT
      modifies `faults, slave`status, slave`cmdStatus, slave`cmdData, slave`sendBuf, slave`dataLen, slave`filePos, slave`blocks, slave.data, buf
      ensures slave.Reading() && slave.Unread() == old(slave.Unread()) && (old(slave.Aligned()) ==> slave.Aligned())
      ensures old(slave.Settled()) || !answered ==> slave.Buffered() == old(slave.Buffered())
      ensures old(slave.Settled()) || answered ==> slave.Settled()
      ensures Kept(old(buf[..]), buf[..], offset) && (good ==> answered && Arrived(slave.Buffered(), buf[..], offset, n))
      ensures Garbled(faults) <= Garbled(old(faults)) && (!good ==> Garbled(faults) < Garbled(old(faults)))
    {
      good, n := false, 0;
      ghost var was := buf[..];
      answered := AskFor(offset);
      if answered {
        ghost var piece := Piece(slave.Buffered(), offset * CHUNK, CHUNK);
        PacketAccepted([VD_CMD_RD_FILE] + piece);
        Followed(VD_CMD_RD_FILE, piece);
        hide Piece, Packet, Sum, Closing, Flatten, BlocksOk, AlignedBlocks;
        n := slave.cmdData;
        good := Receive(buf, offset * CHUNK);
        TookIn(was, buf[..], slave.Buffered(), offset, n, good);
      }
    }

    /** Both chunks, each as often as it takes. */
    method Chunks(buf: array<byte>) returns (good: bool, dataLen: byte)
      requires slave.Reading() && buf != slave.data && buf.Length >= SEGMENT
      modifies `faults, slave`status, slave`cmdStatus, slave`cmdData, slave`sendBuf, slave`dataLen, slave`filePos, slave`blocks, slave.data, buf
      ensures slave.Reading() && slave.Unread() == old(slave.Unread()) && (old(slave.Aligned()) ==> slave.Aligned())
      ensures good ==> GotPieces(slave.Buffered(), 2, buf[..], dataLen) && slave.Settled()
      ensures Garbled(faults) <= Garbled(old(faults)) && (Garbled(old(faults)) <= MAX_ATTEMPTS ==> good)
    {
      hide GotPieces, Kept, Arrived, Garbled, Piece, Flatten, BlocksOk, AlignedBlocks;
      good := true;
      dataLen := 0;
      var offset: byte, attempts: byte := 0, 0;
      ghost var u, aligned := slave.Unread(), slave.Aligned();
      GotNone(slave.Buffered(), buf[..]);
      while offset < 2
        invariant offset <= 2 && good
        invariant slave.Reading() && slave.Unread() == u && (aligned ==> slave.Aligned())
        invariant offset > 0 ==> slave.Settled()
        invariant GotPieces(slave.Buffered(), offset, buf[..], dataLen)
        invariant Garbled(faults) <= Garbled(old(faults)) && Garbled(faults) + attempts <= Garbled(old(faults)) + offset
        decreases Garbled(faults), 2 - offset
      {
        attempts := (attempts + 1) % 256;
        ghost var b, was := slave.Buffered(), buf[..];
        var got, answered, n := Chunk(buf, offset);
        assert offset > 0 ==> slave.Buffered() == b;
        if got {
          GotMore(b, slave.Buffered(), offset, was, buf[..], dataLen, n);
          dataLen := dataLen + n;
          offset := offset + 1;
        } else {
          GotKept(b, slave.Buffered(), offset, was, buf[..], dataLen);
          if !answered && attempts > 2 * MAX_ATTEMPTS {
            good := false;
            break;
          }
        }
      }
    }

    /**
     Read the next segment: on success exactly the bytes at the cursor, which
     moves past them; otherwise the cursor stays where it was.
    */
    method VdRead(buf: array<byte>) returns (status: FResult, br: byte)
      requires slave.Reading() && buf != slave.data && buf.Length >= SEGMENT
      modifies `faults, slave`status, slave`cmdStatus, slave`cmdData, slave`sendBuf, slave`dataLen, slave`filePos, slave`blocks, slave.data, buf
      ensures slave.Reading() && (status == FR_OK || status == FR_DISK_ERR)
      ensures status == FR_OK ==>
                && br <= SEGMENT && br <= |old(slave.Unread())| && (br == 0 ==> old(slave.Unread()) == [])
                && buf[..br] == old(slave.Unread())[..br] && slave.Unread() == old(slave.Unread())[br..]
      ensures status != FR_OK ==> slave.Unread() == old(slave.Unread())
      ensures old(slave.Aligned()) ==> slave.Aligned() && (status == FR_OK ==> br == Segment(old(slave.Unread())))
      ensures Garbled(faults) <= Garbled(old(faults)) && (Garbled(old(faults)) <= MAX_ATTEMPTS ==> status == FR_OK)
    {
      var good;
      status := FR_DISK_ERR;
      good, br := Chunks(buf);
      if good {
        GotSegment(slave.Buffered(), slave.blocks, buf[..], br);
        hide Piece, Packet, Sum, Closing, Flatten, BlocksOk, AlignedBlocks, GotPieces, Segment, Garbled;
        status := ReadNext(br);
      }
    }

    // --------------------------------------------------------------- writing

    /** Hand over one chunk of a segment; true if it arrived. */
    method HandOver(segment: seq<byte>, offset: byte) returns (good: bool)
      requires slave.Writing() && |segment| == SEGMENT && offset < 2
      modifies `faults, slave`status, slave`cmdStatus, slave`filePos, slave.data
      ensures slave.Writing() && slave.filePos == slave.dataLen
      ensures Garbled(faults) <= Garbled(old(faults)) && (!good ==> Garbled(faults) < Garbled(old(faults)))
      ensures slave.Pending() == old(slave.Pending())
      ensures Handed(old(slave.data[..]), slave.dataLen, segment, offset) ==>
                Handed(slave.data[..], slave.dataLen, segment, if good then offset + 1 else offset)
    {
      var chunk := segment[offset * CHUNK..offset * CHUNK + CHUNK];
      var body := [VD_CMD_WR_FILE, offset, 16] + chunk;
      PacketAccepted(body);
      assert Packet(body)[3..3 + CHUNK] == chunk;
      var pkt := Send(Packet(body), 3);
      assert pkt[..3] == [VD_CMD_WR_FILE, offset, 16];
      assert pkt[0] == pkt[..3][0] && pkt[1] == pkt[..3][1] && pkt[2] == pkt[..3][2];
      ghost var was := slave.data[..];
      hide Sum, Packet, Closing, Overlay, Handed;
      slave.WrFile(pkt);
      OverlayKeeps(was, slave.dataLen + offset * CHUNK, pkt[3..3 + CHUNK], slave.dataLen);
      good := slave.cmdStatus == 0 && slave.status == READY;
      HandedMore(was, slave.data[..], slave.dataLen, segment, offset, pkt[3..3 + CHUNK], good);
    }

    /** Both chunks of a segment, each as often as it takes. */
    method HandOverAll(segment: seq<byte>) returns (status: FResult)
      requires slave.Writing() && |segment| == SEGMENT
      modifies `faults, slave`status, slave`cmdStatus, slave`filePos, slave.data
      ensures slave.Writing() && (status == FR_OK || status == FR_DISK_ERR) && slave.Pending() == old(slave.Pending())
      ensures status == FR_OK ==> slave.filePos == slave.dataLen && Handed(slave.data[..], slave.dataLen, segment, 2)
      ensures Garbled(faults) <= Garbled(old(faults)) && (Garbled(old(faults)) <= MAX_ATTEMPTS ==> status == FR_OK)
    {
      status := FR_OK;
      var offset: byte, attempts: byte := 0, 0;
      ghost var pending := slave.Pending();
      HandedNone(slave.data[..], slave.dataLen, segment);
      hide Handed;
      while offset < 2
        invariant offset <= 2 && status == FR_OK && slave.Writing() && slave.Pending() == pending
        invariant offset > 0 ==> slave.filePos == slave.dataLen
        invariant Handed(slave.data[..], slave.dataLen, segment, offset)
        invariant Garbled(faults) <= Garbled(old(faults)) && Garbled(faults) + attempts <= Garbled(old(faults)) + offset
        decreases Garbled(faults), 2 - offset
      {
        attempts := (attempts + 1) % 256;
        var good := HandOver(segment, offset);
        if good {
          offset := offset + 1;
        } else if attempts > 2 * MAX_ATTEMPTS {
          status := FR_DISK_ERR;
          break;
        }
      }
    }

    /** Tell the slave to move on by n bytes. */
    method WriteNext(n: byte) returns (status: FResult)
      requires slave.Writing() && (n == 0 || (n == SEGMENT && slave.filePos == slave.dataLen))
      modifies `faults, slave`status, slave`cmdStatus, slave`cmdData, slave`dataLen, slave`filePos, slave`sent
      ensures slave.Writing() && (status == FR_OK || status == FR_DISK_ERR)
      ensures status != FR_OK ==> slave.Pending() == old(slave.Pending()) && slave.sent == old(slave.sent) && slave.filePos == old(slave.filePos)
      ensures status == FR_OK ==> Moved(old(slave.filePos), old(slave.dataLen), old(slave.sent), slave.data[..], n, slave.filePos, slave.dataLen, slave.sent)
      ensures Garbled(faults) <= Garbled(old(faults)) && (Garbled(old(faults)) <= MAX_ATTEMPTS ==> status == FR_OK)
    {
      status := FR_OK;
      var attempts: byte := 0;
      PacketAccepted([VD_CMD_WR_NEXT, n]);
      hide Sum, Closing;
      while attempts <= MAX_ATTEMPTS
        invariant attempts <= MAX_ATTEMPTS + 1
        invariant slave.filePos == old(slave.filePos) && slave.dataLen == old(slave.dataLen) && slave.sent == old(slave.sent)
        invariant Garbled(faults) + attempts <= Garbled(old(faults))
        decreases MAX_ATTEMPTS + 1 - attempts
      {
        var pkt := Send(Packet([VD_CMD_WR_NEXT, n]), 1);
        assert pkt[0] == pkt[..1][0];
        slave.WrNext(pkt);
        if slave.cmdStatus == 0 && slave.status == READY { break; }
        attempts := attempts + 1;
      }
      if attempts > MAX_ATTEMPTS { status := FR_DISK_ERR; }
    }

    /**
     Write the next segment, or with none finalize: on success the segment is
     committed, once and behind what was committed before; otherwise nothing is.
    */
    method VdWrite(segment: seq<byte>) returns (status: FResult, bw: nat)
      requires slave.Writing() && (|segment| == 0 || |segment| == SEGMENT)
      modifies `faults, slave`status, slave`cmdStatus, slave`cmdData, slave`dataLen, slave`filePos, slave`sent, slave.data
      ensures slave.Writing() && (status == FR_OK || status == FR_DISK_ERR)
      ensures status == FR_OK ==> bw == |segment| && slave.Committed() == old(slave.Committed()) + segment
      ensures status == FR_OK && |segment| == SEGMENT ==>
                if old(slave.dataLen) + SEGMENT == DATASIZE
                then slave.sent == old(slave.sent) + [old(slave.Pending()) + segment] && slave.Pending() == [] && slave.filePos == 0
                else slave.sent == old(slave.sent) && slave.Pending() == old(slave.Pending()) + segment
      ensures status != FR_OK ==> slave.Pending() == old(slave.Pending()) && slave.sent == old(slave.sent)
      ensures segment == [] && old(slave.filePos) != DATASIZE ==> slave.sent == old(slave.sent) && slave.Pending() == old(slave.Pending())
      ensures Garbled(faults) <= Garbled(old(faults)) && (Garbled(old(faults)) <= MAX_ATTEMPTS ==> status == FR_OK)
    {
      status := FR_OK;
      bw := 0;
      if segment != [] { status := HandOverAll(segment); }
      if status == FR_OK {
        hide Handed, Moved, Flatten;
        bw := |segment|;
        ghost var pos, n, sent := slave.filePos, slave.dataLen, slave.sent;
        status := WriteNext(|segment|);
        if status == FR_OK {
          if segment == [] {
            FinalizeCommits(pos, n, sent, slave.data[..], slave.filePos, slave.dataLen, slave.sent);
          } else {
            MovedCommits(n, sent, slave.data[..], segment, slave.filePos, slave.dataLen, slave.sent);
          }
        }
      }
    }

    // --------------------------------------------------------------- seeking

    /** Go to an offset: three tries. What was read ahead or not yet sent is dropped at the first of them. */
    method VdLseek(ofs: nat) returns (status: FResult)
      requires slave.Sound() && ofs < 0x1_0000_0000 && forall o :: BlocksOk(slave.store(o))
      modifies `faults, slave`status, slave`cmdStatus, slave`dataLen, slave`blocks
      ensures slave.Reading() && slave.Writing() && slave.Pending() == [] && (status == FR_OK || status == FR_NOT_OPENED)
      ensures slave.Buffered() == [] && slave.blocks == if status == FR_OK then slave.store(ofs) else old(slave.blocks)
      ensures Garbled(faults) <= Garbled(old(faults)) && (Garbled(old(faults)) <= 2 ==> status == FR_OK)
    {
      status := FR_OK;
      var attempts: byte := 0;
      var body := [VD_CMD_SEEK_FILE] + OffsetBytes(ofs);
      PacketAccepted(body);
      assert Packet(body)[1..5] == OffsetBytes(ofs);
      OffsetBytesBack(ofs, Packet(body));
      hide Sum, Closing, OffsetBytes, OffsetOf;
      while true
        invariant attempts == 0 || attempts == 2 || attempts == 4
        invariant slave.Sound() && slave.blocks == old(slave.blocks) && (attempts > 0 ==> slave.dataLen == 0)
        invariant Garbled(faults) + attempts / 2 <= Garbled(old(faults))
        decreases 4 - attempts
      {
        attempts := attempts + 1;
        var pkt := Send(Packet(body), 1);
        assert pkt[0] == pkt[..1][0];
        slave.SeekFile(pkt);
        if slave.status == CHKSUM_ERR {
          attempts := attempts + 1;
          status := FR_NOT_OPENED;
        } else {
          status := if slave.cmdStatus != 0 || slave.status != READY then FR_NOT_OPENED else FR_OK;
          break;
        }
        if attempts > MAX_ATTEMPTS { break; }
      }
    }

    /** What a reply holds between the command and the checksum. */
    static lemma {:induction false} Followed(cmd: byte, piece: seq<byte>)
      ensures |Packet([cmd] + piece)| == |piece| + 2 && Packet([cmd] + piece)[1..1 + |piece|] == piece
    {
    }
  }

  lemma {:induction false} GotNone(b: seq<byte>, buf: seq<byte>)
    ensures GotPieces(b, 0, buf, 0)
  {
  }

  /** The chunks before number offset are as they were. */
  ghost predicate Kept(was: seq<byte>, buf: seq<byte>, offset: byte) {
    SEGMENT <= |was| == |buf| && offset <= 2 && was[..offset * CHUNK] == buf[..offset * CHUNK]
  }

  /** Chunk number offset of b, of n bytes, is in buf. */
  ghost predicate Arrived(b: seq<byte>, buf: seq<byte>, offset: byte, n: byte) {
    var piece := Piece(b, offset * CHUNK, CHUNK);
    n == |piece| && offset * CHUNK + n <= |buf| && buf[offset * CHUNK..offset * CHUNK + n] == piece
  }

  lemma {:induction false} TookIn(was: seq<byte>, buf: seq<byte>, b: seq<byte>, offset: byte, n: byte, good: bool)
    requires SEGMENT <= |was| == |buf| && offset < 2
    requires buf[..offset * CHUNK] == was[..offset * CHUNK]
    requires good ==> var piece := Piece(b, offset * CHUNK, CHUNK); n == |piece| && buf[offset * CHUNK..offset * CHUNK + n] == piece
    ensures Kept(was, buf, offset) && (good ==> Arrived(b, buf, offset, n))
  {
  }

  lemma {:induction false} GotKept(b: seq<byte>, b': seq<byte>, offset: byte, was: seq<byte>, buf: seq<byte>, n: byte)
    requires GotPieces(b, offset, was, n) && offset < 2 && Kept(was, buf, offset)
    requires offset > 0 ==> b' == b
    ensures GotPieces(b', offset, buf, n)
  {
    assert buf[..offset * CHUNK][..n] == buf[..n] && was[..offset * CHUNK][..n] == was[..n];
  }

  lemma {:induction false} GotMore(b: seq<byte>, b': seq<byte>, offset: byte, was: seq<byte>, buf: seq<byte>, n: byte, more: byte)
    requires GotPieces(b, offset, was, n) && offset < 2 && Kept(was, buf, offset) && Arrived(b', buf, offset, more)
    requires offset > 0 ==> b' == b
    ensures n + more < 256 && GotPieces(b', offset + 1, buf, n + more)
  {
  }

  /** Both chunks together are the next segment of everything unread. */
  lemma {:induction false} GotSegment(b: seq<byte>, blocks: seq<Block>, buf: seq<byte>, n: byte)
    requires GotPieces(b, 2, buf, n) && (b == [] ==> blocks == []) && BlocksOk(blocks)
    ensures n <= |b| && n <= SEGMENT && buf[..n] == (b + Flatten(blocks))[..n]
    ensures n == 0 ==> b + Flatten(blocks) == []
    ensures (b + Flatten(blocks))[n..] == b[n..] + Flatten(blocks)
    ensures |b| % 32 == 0 ==> (|b| - n) % 32 == 0
    ensures |b| % 32 == 0 || blocks == [] ==> n == Segment(b + Flatten(blocks))
  {
  }

  /** The chunks before number offset have been received into buf. */
  ghost predicate GotPieces(b: seq<byte>, offset: byte, buf: seq<byte>, n: byte) {
    offset <= 2 && n <= |buf| && (offset == 0 ==> n == 0) && buf[..n] == Piece(b, 0, offset * CHUNK)
  }

  // ------------------------------------------------------------------ writing

  /** The chunks of the segment before number offset lie behind the first n bytes. */
  ghost predicate Handed(data: seq<byte>, n: nat, segment: seq<byte>, offset: byte) {
    n + SEGMENT <= |data| && |segment| == SEGMENT && offset <= 2 && data[n..n + offset * CHUNK] == segment[..offset * CHUNK]
  }

  lemma {:induction false} HandedNone(data: seq<byte>, n: nat, segment: seq<byte>)
    requires n + SEGMENT <= |data| && |segment| == SEGMENT
    ensures Handed(data, n, segment, 0)
  {
  }

  lemma {:induction false} HandedMore(was: seq<byte>, data: seq<byte>, n: nat, segment: seq<byte>, offset: byte, chunk: seq<byte>, good: bool)
    requires n + SEGMENT <= |was| && |segment| == SEGMENT && offset < 2 && |chunk| == CHUNK
    requires data == Overlay(was, n + offset * CHUNK, chunk)
    requires good ==> chunk == segment[offset * CHUNK..offset * CHUNK + CHUNK]
    ensures Handed(was, n, segment, offset) ==> Handed(data, n, segment, if good then offset + 1 else offset)
  {
    var p := n + offset * CHUNK;
    OverlayKeeps(was, p, chunk, n);
    if Handed(was, n, segment, offset) && good {
      assert data[n..p + CHUNK] == data[n..p] + data[p..p + CHUNK];
      assert segment[..offset * CHUNK + CHUNK] == segment[..offset * CHUNK] + chunk;
    }
  }

  /** The slave has moved on by n bytes, and sent the block if it was full. */
  ghost predicate Moved(filePos: nat, dataLen: nat, sent: seq<Block>, data: seq<byte>, n: nat, filePos': nat, dataLen': nat, sent': seq<Block>) {
    if filePos + n == DATASIZE then filePos' == 0 && dataLen' == 0 && sent' == sent + [Piece(data, 0, dataLen + n)]
    else filePos' == filePos + n && dataLen' == dataLen + n && sent' == sent
  }

  /** Moving on by a segment that has been handed over commits it. */
  lemma {:induction false} MovedCommits(dataLen: nat, sent: seq<Block>, data: seq<byte>, segment: seq<byte>, filePos': nat, dataLen': nat, sent': seq<Block>)
    requires |data| == DATASIZE && Handed(data, dataLen, segment, 2) && Moved(dataLen, dataLen, sent, data, SEGMENT, filePos', dataLen', sent')
    ensures if dataLen + SEGMENT == DATASIZE then filePos' == 0 && dataLen' == 0 && sent' == sent + [data[..dataLen] + segment]
            else dataLen' == dataLen + SEGMENT && sent' == sent && data[..dataLen'] == data[..dataLen] + segment
    ensures dataLen' <= DATASIZE && Flatten(sent') + data[..dataLen'] == Flatten(sent) + data[..dataLen] + segment
  {
    assert data[..dataLen + SEGMENT] == data[..dataLen] + data[dataLen..dataLen + SEGMENT];
    if dataLen + SEGMENT == DATASIZE { assert Piece(data, 0, DATASIZE) == data[..dataLen] + segment; }
    FlattenLast(sent, data[..dataLen] + segment);
  }

  /** Finalizing commits nothing, but may send an empty block. */
  lemma {:induction false} FinalizeCommits(filePos: nat, dataLen: nat, sent: seq<Block>, data: seq<byte>, filePos': nat, dataLen': nat, sent': seq<Block>)
    requires |data| == DATASIZE && dataLen <= DATASIZE && (dataLen > 0 ==> filePos == dataLen < DATASIZE)
    requires Moved(filePos, dataLen, sent, data, 0, filePos', dataLen', sent')
    ensures dataLen' == dataLen && Flatten(sent') == Flatten(sent) && (filePos != DATASIZE ==> sent' == sent)
  {
    FlattenLast(sent, Piece(data, 0, 0));
  }
}
