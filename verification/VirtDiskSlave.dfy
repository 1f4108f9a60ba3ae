/**
 The ESP8266 side of the virtual disk: one block of 512 bytes is buffered, and
 moved along as the master says so.
*/
module VirtDiskSlave {
  import opened Bits
  import opened VirtDiskLink

  const DATASIZE := 512
  const CHUNK := 16

  const VD_CMD_RD_FILE: byte := 3
  const VD_CMD_RD_NEXT: byte := 4
  const VD_CMD_WR_FILE: byte := 5
  const VD_CMD_WR_NEXT: byte := 6
  const VD_CMD_SEEK_FILE: byte := 7

  const READY: byte := 0
  const CHKSUM_ERR: byte := 2

  type Block = seq<byte>

  /** The requests on the wire: for the first chunk of sixteen bytes, and to move on by 32, when reading and when writing. */
  lemma {:induction false} Requests()
    ensures Packet([VD_CMD_RD_FILE, 0, 16]) == [3, 0, 16, 237]
    ensures Packet([VD_CMD_RD_NEXT, 32]) == [4, 32, 220] && Packet([VD_CMD_WR_NEXT, 32]) == [6, 32, 218]
    ensures Packet([VD_CMD_SEEK_FILE, 0, 0, 2, 0]) == [7, 0, 0, 2, 0, 247]
  {
    hide Total, Sum;
    SumOne(3); SumOne(4); SumOne(6); SumOne(7);
    SumMore([3], 0); SumMore([3, 0], 16); SumMore([4], 32); SumMore([6], 32);
    SumMore([7], 0); SumMore([7, 0], 0); SumMore([7, 0, 0], 2); SumMore([7, 0, 0, 2], 0);
    assert [3 as byte] + [0] == [3, 0] && [3 as byte, 0] + [16] == [3, 0, 16];
    assert [4 as byte] + [32] == [4, 32] && [6 as byte] + [32] == [6, 32];
    assert [7 as byte] + [0] == [7, 0] && [7 as byte, 0] + [0] == [7, 0, 0];
    assert [7 as byte, 0, 0] + [2] == [7, 0, 0, 2] && [7 as byte, 0, 0, 2] + [0] == [7, 0, 0, 2, 0];
  }

  function Flatten(blocks: seq<Block>): seq<byte> {
    if blocks == [] then [] else Flatten(blocks[..|blocks| - 1]) + blocks[|blocks| - 1]
  }

  lemma {:induction false} FlattenFirst(blocks: seq<Block>)
    requires blocks != []
    ensures Flatten(blocks) == blocks[0] + Flatten(blocks[1..])
  {
    var n := |blocks| - 1;
    if n > 0 {
      FlattenFirst(blocks[..n]);
      assert blocks[..n][1..] == blocks[1..][..n - 1];
    } else {
      assert blocks[..0] == [] && blocks[1..] == [];
    }
  }

  lemma {:induction false} FlattenLast(blocks: seq<Block>, b: Block)
    ensures Flatten(blocks + [b]) == Flatten(blocks) + b
  {
    assert (blocks + [b])[..|blocks|] == blocks;
  }

  /** What the server answers to read requests: blocks that are not empty and fit the buffer. */
  predicate BlocksOk(blocks: seq<Block>) {
    forall i :: 0 <= i < |blocks| ==> 0 < |blocks[i]| <= DATASIZE
  }

  predicate AlignedBlocks(blocks: seq<Block>) {
    forall i :: 0 <= i < |blocks| - 1 ==> |blocks[i]| % 32 == 0
  }

  /** Bytes lo to lo+n of s, as far as there are any. */
  function Piece(s: seq<byte>, lo: nat, n: nat): (r: seq<byte>)
    ensures |r| <= n
  {
    if lo >= |s| then [] else if lo + n <= |s| then s[lo..lo + n] else s[lo..]
  }

  lemma {:induction false} PieceNone(s: seq<byte>, lo: nat, b: byte)
    ensures |Piece(s, lo, 0)| == 0 && [b] + Piece(s, lo, 0) == [b]
  {
  }

  lemma {:induction false} PieceMore(s: seq<byte>, lo: nat, i: nat)
    requires lo + i < |s|
    ensures Piece(s, lo, i + 1) == Piece(s, lo, i) + [s[lo + i]] && |Piece(s, lo, i + 1)| == i + 1
  {
  }

  lemma {:induction false} PieceDone(s: seq<byte>, lo: nat, i: nat, n: nat)
    requires i <= n && (i == n || lo + i >= |s|)
    ensures Piece(s, lo, i) == Piece(s, lo, n)
  {
  }

  /** The bytes t written over s from p on. */
  function Overlay(s: seq<byte>, p: nat, t: seq<byte>): (r: seq<byte>)
    requires p + |t| <= |s|
    ensures |r| == |s|
  {
    s[..p] + t + s[p + |t|..]
  }

  lemma {:induction false} OverlayKeeps(s: seq<byte>, p: nat, t: seq<byte>, n: nat)
    requires p + |t| <= |s| && n <= p
    ensures Overlay(s, p, t)[..n] == s[..n] && Overlay(s, p, t)[n..p] == s[n..p] && Overlay(s, p, t)[p..p + |t|] == t
  {
  }

  lemma {:induction false} OverlayNone(s: seq<byte>, p: nat)
    requires p <= |s|
    ensures Overlay(s, p, []) == s
  {
    assert s[..p] + [] + s[p..] == s;
  }

  lemma {:induction false} OverlayMore(s: seq<byte>, p: nat, t: seq<byte>, b: byte, a: seq<byte>)
    requires p + |t| < |s| && a == Overlay(s, p, t)
    ensures a[p + |t| := b] == Overlay(s, p, t + [b])
  {
  }

  class Slave {
    const data: array<byte>
    var dataLen: nat
    var filePos: nat
    var status: byte
    var cmdStatus: byte
    var cmdData: byte
    var sendBuf: seq<byte>
    /** The server: the blocks it will answer with, the blocks it has been sent, and what it has from each offset on. */
    var blocks: seq<Block>
    var sent: seq<Block>
    const store: nat -> seq<Block>

    constructor (store: nat -> seq<Block>)
      ensures this.store == store && data.Length == DATASIZE && fresh(data) && dataLen == 0 && blocks == [] && sent == []
    {
      data := new byte[DATASIZE](_ => 0);
      dataLen, filePos, status, cmdStatus, cmdData, sendBuf, blocks, sent := 0, 0, 0, 0, 0, [], [], [];
      this.store := store;
    }

    ghost predicate Sound()
      reads `blocks
    {
      data.Length == DATASIZE && BlocksOk(blocks)
    }

    // --------------------------------------------------------------- reading

    ghost predicate Reading()
      reads `dataLen, `filePos, `blocks
    {
      Sound() && dataLen <= DATASIZE && (dataLen > 0 ==> filePos < dataLen)
    }

    ghost function Buffered(): seq<byte>
      requires Reading()
      reads `dataLen, `filePos, `blocks, data
    {
      if dataLen == 0 then [] else data[filePos..dataLen]
    }

    /** Everything from the cursor on. */
    ghost function Unread(): seq<byte>
      requires Reading()
      reads `dataLen, `filePos, `blocks, data
    {
      Buffered() + Flatten(blocks)
    }

    /** There is a byte at the cursor, or the file ends there. */
    ghost predicate Settled()
      requires Reading()
      reads `dataLen, `filePos, `blocks, data
    {
      Buffered() == [] ==> blocks == []
    }

    /** Only what comes last has a length that is not a multiple of 32. */
    ghost predicate Aligned()
      requires Reading()
      reads `dataLen, `filePos, `blocks, data
    {
      AlignedBlocks(blocks) && (|Buffered()| % 32 == 0 || blocks == [])
    }

    /** Ask the server for the next block; at the end of the file it has none. */
    method Request()
      requires Reading() && dataLen == 0
      modifies `dataLen, `filePos, `blocks, data
      ensures Reading() && Unread() == old(Unread()) && (dataLen == 0 ==> blocks == []) && (old(blocks) == [] ==> dataLen == 0)
      ensures old(Aligned()) ==> Aligned()
    {
      var block := [];
      if blocks != [] {
        FlattenFirst(blocks);
        block := blocks[0];
        blocks := blocks[1..];
      }
      var i := 0;
      while i < |block|
        invariant i <= |block| <= DATASIZE && data[..i] == block[..i]
        modifies data
      {
        data[i] := block[i];
        i := i + 1;
      }
      assert data[..|block|] == block;
      dataLen := |block|;
      filePos := 0;
    }

    /** Prepare up to n bytes from the cursor, offset chunks on, for the master to fetch. */
    method Prepare(cmd: byte, offset: nat, n: nat)
      requires Reading() && n < 32
      modifies `sendBuf, `cmdData
      ensures var piece := Piece(Buffered(), offset * CHUNK, n); sendBuf == Packet([cmd] + piece) && cmdData == |piece|
    {
      ghost var b := Buffered();
      var body: seq<byte> := [cmd];
      RunningFirst(cmd);
      PieceNone(b, offset * CHUNK, cmd);
      var checksum: byte := (255 + cmd) % 256;
      var i: nat := 0;
      hide Piece, Running;
      while i < n && filePos + offset * CHUNK + i < DATASIZE && filePos + offset * CHUNK + i < dataLen
        invariant i <= n && body == [cmd] + Piece(b, offset * CHUNK, i) && checksum == Running(body)
        invariant |Piece(b, offset * CHUNK, i)| == i
        decreases n - i
      {
        var x := data[filePos + offset * CHUNK + i];
        RunningMore(body, x);
        PieceMore(b, offset * CHUNK, i);
        assert x == b[offset * CHUNK + i];
        body := body + [x];
        checksum := (checksum + x) % 256;
        i := i + 1;
      }
      PieceDone(b, offset * CHUNK, i, n);
      sendBuf := body + [255 - checksum];
      cmdData := i;
    }

    method RdFile(pkt: seq<byte>)
      requires Reading() && |pkt| == 4 && pkt[0] == VD_CMD_RD_FILE && (Sum(pkt) == 0 ==> pkt[2] < 32)
      modifies `status, `cmdStatus, `cmdData, `sendBuf, `dataLen, `filePos, `blocks, data
      ensures Reading() && Unread() == old(Unread()) && cmdStatus == 0
      ensures old(Aligned()) ==> Aligned()
      ensures if Sum(pkt) == 0 then
                && status == READY && Settled() && (old(Settled()) ==> Buffered() == old(Buffered()))
                && var piece := Piece(Buffered(), pkt[1] * CHUNK, pkt[2]); sendBuf == Packet([pkt[0]] + piece) && cmdData == |piece|
              else status == CHKSUM_ERR && Buffered() == old(Buffered()) && blocks == old(blocks)
    {
      status, cmdStatus := READY, 0;
      var offset, numOfBytes := pkt[1], pkt[2];
      var checksum := Checksum(pkt);
      if checksum == 0 {
        if dataLen == 0 { Request(); }
        Prepare(pkt[0], offset, numOfBytes);
      } else {
        status := CHKSUM_ERR;
        cmdData := numOfBytes;
      }
    }

    method RdNext(pkt: seq<byte>)
      requires Reading() && |pkt| == 3 && pkt[0] == VD_CMD_RD_NEXT && (Sum(pkt) == 0 ==> pkt[1] <= |Buffered()|)
      modifies `status, `cmdStatus, `cmdData, `dataLen, `filePos
      ensures Reading() && cmdStatus == 0
      ensures if Sum(pkt) == 0 then status == READY && Buffered() == old(Buffered())[pkt[1]..]
              else status == CHKSUM_ERR && Buffered() == old(Buffered())
    {
      status, cmdStatus := READY, 0;
      var numOfBytes := pkt[1];
      var checksum := Checksum(pkt);
      if checksum == 0 {
        filePos := filePos + numOfBytes;
        if filePos == dataLen || filePos == DATASIZE { dataLen := 0; }
      } else {
        status := CHKSUM_ERR;
      }
      cmdData := numOfBytes;
    }

    // --------------------------------------------------------------- writing

    /** Between writes: the buffer holds dataLen bytes not yet sent, and is not full. */
    ghost predicate Writing()
      reads `dataLen, `filePos
    {
      data.Length == DATASIZE && dataLen + 32 <= DATASIZE && dataLen % 32 == 0 && (dataLen > 0 ==> filePos == dataLen)
    }

    ghost function Pending(): seq<byte>
      requires Writing()
      reads `dataLen, `filePos, data
    {
      data[..dataLen]
    }

    /** Everything committed: what has been sent, and what is waiting to be. */
    ghost function Committed(): seq<byte>
      requires Writing()
      reads `dataLen, `filePos, `sent, data
    {
      Flatten(sent) + Pending()
    }

    /** Copy a chunk into the buffer, as far as it fits. */
    method Store(p: nat, chunk: seq<byte>)
      requires p + |chunk| <= data.Length == DATASIZE
      modifies data
      ensures data[..] == Overlay(old(data[..]), p, chunk)
    {
      ghost var was := data[..];
      var i: nat := 0;
      OverlayNone(was, p);
      assert chunk[..0] == [];
      hide Overlay;
      while i < |chunk| && p + i < DATASIZE
        invariant i <= |chunk| && data[..] == Overlay(was, p, chunk[..i])
      {
        OverlayMore(was, p, chunk[..i], chunk[i], data[..]);
        assert chunk[..i] + [chunk[i]] == chunk[..i + 1];
        data[p + i] := chunk[i];
        i := i + 1;
      }
      assert chunk[..|chunk|] == chunk;
    }

    /**
     A chunk goes into the buffer behind what is committed, before the checksum
     is looked at; it counts for nothing until the master moves on.
    */
    method WrFile(pkt: seq<byte>)
      requires Writing() && |pkt| == CHUNK + 4 && pkt[0] == VD_CMD_WR_FILE && pkt[1] < 2 && pkt[2] as int == CHUNK
      modifies `status, `cmdStatus, `filePos, data
      ensures Writing() && filePos == dataLen && cmdStatus == 0 && status == if Sum(pkt) == 0 then READY else CHKSUM_ERR
      ensures data[..] == Overlay(old(data[..]), dataLen + pkt[1] * CHUNK, pkt[3..3 + CHUNK])
    {
      status, cmdStatus := READY, 0;
      var offset, numOfBytes := pkt[1], pkt[2];
      var checksum := Checksum(pkt);
      if dataLen == 0 { filePos := 0; }
      Store(filePos + offset * CHUNK, pkt[3..3 + numOfBytes]);
      if checksum != 0 { status := CHKSUM_ERR; }
    }

    /** Move on by n bytes; a full buffer is sent to the server. */
    method WrNext(pkt: seq<byte>)
      requires data.Length == DATASIZE && |pkt| == 3 && pkt[0] == VD_CMD_WR_NEXT
      modifies `status, `cmdStatus, `cmdData, `dataLen, `filePos, `sent
      ensures cmdStatus == 0 && status == if Sum(pkt) == 0 then READY else CHKSUM_ERR
      ensures Sum(pkt) != 0 ==> dataLen == old(dataLen) && filePos == old(filePos) && sent == old(sent)
      ensures Sum(pkt) == 0 ==> if old(filePos) + pkt[1] == DATASIZE
                then dataLen == 0 && filePos == 0 && sent == old(sent) + [Piece(data[..], 0, old(dataLen) + pkt[1])]
                else dataLen == old(dataLen) + pkt[1] && filePos == old(filePos) + pkt[1] && sent == old(sent)
    {
      status, cmdStatus := READY, 0;
      var numOfBytes := pkt[1];
      var checksum := Checksum(pkt);
      if checksum == 0 {
        filePos := filePos + numOfBytes;
        dataLen := dataLen + numOfBytes;
        if filePos == DATASIZE {
          sent := sent + [Piece(data[..], 0, dataLen)];
          filePos := 0;
          dataLen := 0;
        }
      } else {
        status := CHKSUM_ERR;
      }
      cmdData := numOfBytes;
    }

    // --------------------------------------------------------------- seeking

    /** Go to an offset; what was buffered is forgotten even if the packet was garbled. */
    method SeekFile(pkt: seq<byte>)
      requires data.Length == DATASIZE && |pkt| == 6 && pkt[0] == VD_CMD_SEEK_FILE
      requires forall o :: BlocksOk(store(o))
      modifies `status, `cmdStatus, `dataLen, `blocks
      ensures cmdStatus == 0 && status == (if Sum(pkt) == 0 then READY else CHKSUM_ERR) && dataLen == 0
      ensures blocks == if Sum(pkt) == 0 then store(OffsetOf(pkt)) else old(blocks)
    {
      status, cmdStatus := READY, 0;
      var checksum := Checksum(pkt);
      if checksum == 0 {
        blocks := store(OffsetOf(pkt));
      } else {
        status := CHKSUM_ERR;
      }
      dataLen := 0;
    }
  }

  /** The offset in a seek packet, highest byte first. */
  function OffsetOf(pkt: seq<byte>): nat
    requires |pkt| >= 5
  {
    pkt[1] as int * 0x1000000 + pkt[2] as int * 0x10000 + pkt[3] as int * 0x100 + pkt[4] as int
  }

  /** The checksum of a received packet, byte by byte. */
  method Checksum(pkt: seq<byte>) returns (checksum: byte)
    ensures checksum == Sum(pkt)
  {
    checksum := 0;
    var i := 0;
    assert pkt[..0] == [];
    while i < |pkt|
      invariant i <= |pkt| && checksum == Sum(pkt[..i])
    {
      assert pkt[..i + 1] == pkt[..i] + [pkt[i]];
      SumMore(pkt[..i], pkt[i]);
      checksum := (checksum + pkt[i]) % 256;
      i := i + 1;
    }
    assert pkt[..|pkt|] == pkt;
  }
}
