/** Saving and loading a CFI track. */
module CfiCodec {
  import opened Wrappers
  import opened Bits
  import opened CfiTrack

  datatype DskErr = OK | NOTME | OVERRUN

  /** How many bytes from i on are the same, at most 0x7FFF. */
  method NumberSame(u: seq<byte>, i: nat) returns (matched: nat)
    requires i < |u|
    ensures matched == RunAt(u, i)
  {
    var m := u[i];
    matched := 1;
    var c, tlen := i, |u| - i;
    while tlen > 0
      invariant c + tlen == |u| && matched == c - i + 1 && 0 < tlen && matched < MAXBLOCK
      invariant matched > 0 && RunAt(u, i) == RunFrom(u, i, matched)
    {
      c := c + 1;
      tlen := tlen - 1;
      if tlen == 0 { return; }
      if u[c] != m { return; }
      matched := matched + 1;
      if matched == MAXBLOCK { return; }
    }
  }

  /** Copy s into the buffer. */
  method CopyTo(buf: array<byte>, at: nat, s: seq<byte>)
    requires at + |s| <= buf.Length
    modifies buf
    ensures buf[..at] == old(buf[..at]) && buf[at..at + |s|] == s
  {
    var i: nat := 0;
    while i < |s|
      invariant i <= |s| && buf[..at] == old(buf[..at]) && buf[at..at + i] == s[..i]
    {
      buf[at + i] := s[i];
      i := i + 1;
    }
    assert s[..|s|] == s;
  }

  method Append(cbuf: array<byte>, wrptr: nat, s: seq<byte>) returns (wrptr': nat)
    requires 2 <= wrptr && wrptr + |s| <= cbuf.Length
    modifies cbuf
    ensures wrptr' == wrptr + |s| && cbuf[2..wrptr'] == old(cbuf[2..wrptr]) + s
  {
    CopyTo(cbuf, wrptr, s);
    wrptr' := wrptr + |s|;
    assert cbuf[2..wrptr'] == cbuf[..wrptr][2..] + cbuf[wrptr..wrptr'];
  }

  /** Append a plain block, if one is waiting, to what is in the buffer from 2 to wrptr. */
  method AppendPlain(cbuf: array<byte>, wrptr: nat, u: seq<byte>, rdbase: nat, blklen: nat) returns (wrptr': nat)
    requires 2 <= wrptr && rdbase + blklen <= |u| && wrptr + |Wire(PlainPart(u, rdbase, rdbase + blklen))| <= cbuf.Length
    modifies cbuf
    ensures wrptr' == wrptr + |Wire(PlainPart(u, rdbase, rdbase + blklen))|
    ensures cbuf[2..wrptr'] == old(cbuf[2..wrptr]) + Wire(PlainPart(u, rdbase, rdbase + blklen))
  {
    wrptr' := wrptr;
    PlainPartIs(u, rdbase, rdbase + blklen);
    if blklen > 0 {
      wrptr' := Append(cbuf, wrptr, Le2(blklen));
      wrptr' := Append(cbuf, wrptr', u[rdbase..rdbase + blklen]);
      ghost var w := Wire1(Plain(u[rdbase..rdbase + blklen]));
      assert w + [] == w;
    }
  }

  method PutLength(cbuf: array<byte>, wrptr: nat)
    requires 2 <= wrptr <= cbuf.Length
    modifies cbuf
    ensures cbuf[..wrptr] == Le2(wrptr - 2) + old(cbuf[2..wrptr])
  {
    cbuf[0] := (wrptr - 2) % 256;
    cbuf[1] := (wrptr - 2) / 256 % 256;
  }

  /** Append a run. */
  method AppendRun(cbuf: array<byte>, wrptr: nat, matched: nat, b: byte) returns (wrptr': nat)
    requires 2 <= wrptr && wrptr + 3 <= cbuf.Length && 0 < matched <= MAXBLOCK
    modifies cbuf
    ensures wrptr' == wrptr + 3 && cbuf[2..wrptr'] == old(cbuf[2..wrptr]) + Wire1(Run(matched, b))
  {
    cbuf[wrptr] := matched % 256;
    cbuf[wrptr + 1] := matched / 256 % 0x80 + 0x80;
    cbuf[wrptr + 2] := b;
    wrptr' := wrptr + 3;
    HighBit(matched);
  }

  lemma {:induction false} HighBit(n: nat)
    requires n < 0x8000
    ensures (n % 0x8000 + 0x8000) % 256 == n % 256 && (n % 0x8000 + 0x8000) / 256 % 256 == n / 256 % 0x80 + 0x80
  {
  }

  /**
   Compress a track. The buffer of ulen + 4 bytes is large enough, and what is
   written is the length and the blocks.
  */
  method CfiSaveTrack(u: seq<byte>, filler: byte) returns (cbuf: array<byte>, wrlen: nat)
    ensures fresh(cbuf) && cbuf.Length == 4 + |u| && wrlen <= cbuf.Length
    ensures var wire := Wire(Blocks(u, 0, 0)); cbuf[..wrlen] == Le2(|wire|) + wire
  {
    hide Progress, PlainPart, Wire, Wire1, Blocks, RunAt, Same, Le2;
    cbuf := new byte[4 + |u|](_ => filler);
    var rdptr: nat, rdbase: nat, wrptr: nat, blklen: nat, ulen: nat := 0, 0, 2, 0, |u|;
    Starting(cbuf[2..2], u);
    while ulen > 0
      invariant rdptr + ulen == |u| && rdbase + blklen == rdptr && 2 <= wrptr <= cbuf.Length
      invariant Progress(cbuf[2..wrptr], u, rdbase, rdptr)
    {
      var matched := NumberSame(u, rdptr);
      if matched > 5 {
        RunTaken(cbuf[2..wrptr], u, rdbase, rdptr);
        wrptr := AppendPlain(cbuf, wrptr, u, rdbase, blklen);
        blklen := 0;
        wrptr := AppendRun(cbuf, wrptr, matched, u[rdptr]);
        rdptr := rdptr + matched;
        rdbase := rdptr;
        ulen := ulen - matched;
      } else {
        ByteTaken(cbuf[2..wrptr], u, rdbase, rdptr);
        rdptr := rdptr + 1;
        blklen := blklen + 1;
        ulen := ulen - 1;
      }
    }
    AllTaken(cbuf[2..wrptr], u, rdbase);
    wrptr := AppendPlain(cbuf, wrptr, u, rdbase, blklen);
    PutLength(cbuf, wrptr);
    wrlen := wrptr;
  }

  // ------------------------------------------------------------------ loading

  /**
   Find the uncompressed length, and with a buffer also uncompress into it.
   Both passes take the same compressed bytes for broken.
  */
  method CfiUncompress(cdata: seq<byte>, udata: array?<byte>) returns (err: DskErr, ulen: nat)
    requires udata != null && Uncompressed(cdata).Some? ==> udata.Length >= |Uncompressed(cdata).value|
    requires udata != null ==> Uncompressed(cdata).Some?
    modifies if udata == null then {} else {udata}
    ensures err == if Uncompressed(cdata).Some? then OK else NOTME
    ensures err == OK ==> ulen == |Uncompressed(cdata).value| && (udata != null ==> udata[..][..ulen] == Uncompressed(cdata).value)
  {
    hide Uncompressed, First, Behind, Peek2, Repeat, Doing, Filled;
    ulen := 0;
    var clen: nat, cdp: nat := |cdata|, 0;
    ghost var done: seq<byte> := [];
    Beginning(cdata);
    if udata != null { NothingFilled(udata[..]); }
    while clen > 0
      invariant cdp + clen == |cdata| && ulen == |done| && Doing(cdata, cdp, done)
      invariant udata != null ==> Filled(udata[..], done)
      decreases clen
    {
      Cases(done, cdata, cdp);
      if clen < 2 { return NOTME, ulen; }
      var blklen := Peek2(cdata[cdp..]);
      if blklen >= 0x8000 {
        if clen < 3 { return NOTME, ulen; }
        blklen := blklen - 0x8000;
        clen := clen - 3;
        var more := Repeat(cdata[cdp + 2], blklen);
        assert Adds(cdata, done, more, cdp + 3);
        Store(udata, ulen, more, done);
        done := done + more;
        ulen := ulen + blklen;
        cdp := cdp + 3;
      } else {
        if clen < 2 + blklen || blklen == 0 { return NOTME, ulen; }
        clen := clen - (blklen + 2);
        var more := cdata[cdp + 2..cdp + 2 + blklen];
        assert Adds(cdata, done, more, cdp + 2 + blklen);
        Store(udata, ulen, more, done);
        done := done + more;
        ulen := ulen + blklen;
        cdp := cdp + 2 + blklen;
      }
    }
    Ended(cdata, done);
    if udata != null { FilledIs(udata[..], done); }
    return OK, ulen;
  }

  /** The bytes before p stand for done. */
  ghost predicate Doing(c: seq<byte>, p: nat, done: seq<byte>) {
    p <= |c| && Uncompressed(c) == Behind(done, Uncompressed(c[p..]))
  }

  ghost predicate Filled(udata: seq<byte>, done: seq<byte>) { |done| <= |udata| && udata[..|done|] == done }

  lemma {:induction false} NothingFilled(udata: seq<byte>)
    ensures Filled(udata, [])
  {
  }

  lemma {:induction false} FilledIs(udata: seq<byte>, done: seq<byte>)
    requires Filled(udata, done)
    ensures |done| <= |udata| && udata[..|done|] == done
  {
  }

  method Store(udata: array?<byte>, at: nat, s: seq<byte>, ghost done: seq<byte>)
    requires at == |done| && (udata != null ==> |done| + |s| <= udata.Length && Filled(udata[..], done))
    modifies if udata == null then {} else {udata}
    ensures udata != null ==> Filled(udata[..], done + s)
  {
    if udata != null {
      var i: nat := 0;
      while i < |s|
        invariant i <= |s| && udata[..at] == done && udata[at..at + i] == s[..i]
      {
        udata[at + i] := s[i];
        i := i + 1;
      }
      assert s[..|s|] == s && udata[..at + |s|] == udata[..at] + udata[at..at + |s|];
    }
  }

  lemma {:induction false} Ended(c: seq<byte>, done: seq<byte>)
    requires Doing(c, |c|, done)
    ensures Uncompressed(c) == Some(done)
  {
    assert c[|c|..] == [] && done + [] == done;
  }

  /** What has been uncompressed, and what is to come. */
  function Behind(done: seq<byte>, rest: Option<seq<byte>>): Option<seq<byte>> {
    match rest
    case None => None
    case Some(s) => Some(done + s)
  }

  lemma {:induction false} Beginning(c: seq<byte>)
    ensures Doing(c, 0, [])
  {
    assert c[0..] == c;
    match Uncompressed(c)
    case None =>
    case Some(s) => assert [] + s == s;
  }

  /** The bytes that the block at p stands for, and where the next block is. */
  function Next(c: seq<byte>, p: nat): Option<(seq<byte>, nat)>
    requires p < |c|
  {
    if |c| < p + 2 then None
    else
      var n := Peek2(c[p..]);
      if n >= 0x8000 then
        if |c| < p + 3 then None else Some((Repeat(c[p + 2], n - 0x8000), p + 3))
      else if |c| < p + 2 + n || n == 0 then None
      else Some((c[p + 2..p + 2 + n], p + 2 + n))
  }

  lemma {:induction false} FirstAt(c: seq<byte>, p: nat)
    requires p < |c|
    ensures match First(c[p..])
            case None => Next(c, p) == None
            case Some((b, n)) => Next(c, p) == Some((Expand(b), p + n))
  {
    var d := c[p..];
    if |d| >= 2 && Peek2(d) < 0x8000 && |d| >= 2 + Peek2(d) { assert d[2..2 + Peek2(d)] == c[p + 2..p + 2 + Peek2(d)]; }
  }

  lemma {:induction false} BehindTwice(done: seq<byte>, more: seq<byte>, rest: Option<seq<byte>>)
    ensures var all := Behind(done + more, rest);
            Behind(done, Behind(more, rest)) == all && (all.Some? ==> |done| + |more| <= |all.value|)
  {
    if rest.Some? { assert done + (more + rest.value) == done + more + rest.value; }
  }

  lemma {:induction false} OneBlock(c: seq<byte>)
    requires c != []
    ensures match First(c)
            case None => Uncompressed(c) == None
            case Some((b, n)) => Uncompressed(c) == Behind(Expand(b), Uncompressed(c[n..]))
  {
  }

  lemma {:induction false} More(done: seq<byte>, c: seq<byte>, p: nat)
    requires p < |c|
    ensures match First(c[p..])
            case None => Behind(done, Uncompressed(c[p..])) == None
            case Some((b, n)) =>
              var all := Behind(done + Expand(b), Uncompressed(c[p + n..]));
              Behind(done, Uncompressed(c[p..])) == all && (all.Some? ==> |done| + |Expand(b)| <= |all.value|)
  {
    hide Uncompressed, First, Expand;
    OneBlock(c[p..]);
    if First(c[p..]).Some? {
      var (b, n) := First(c[p..]).value;
      assert c[p..][n..] == c[p + n..];
      BehindTwice(done, Expand(b), Uncompressed(c[p + n..]));
    }
  }

  /** What the next block is, and what it adds. */
  lemma {:induction false} Cases(done: seq<byte>, c: seq<byte>, p: nat)
    requires p < |c| && Doing(c, p, done)
    ensures match Next(c, p)
            case None => Uncompressed(c) == None
            case Some((more, p')) => Adds(c, done, more, p')
  {
    hide Uncompressed, First, Next, Behind, Expand;
    FirstAt(c, p);
    More(done, c, p);
    Nothing(done);
  }

  lemma {:induction false} Nothing(done: seq<byte>)
    ensures Behind(done, None) == None
  {
  }

  ghost predicate Adds(c: seq<byte>, done: seq<byte>, more: seq<byte>, p: nat) {
    Doing(c, p, done + more) && (Uncompressed(c).Some? ==> |done| + |more| <= |Uncompressed(c).value|)
  }

  /** Load a track from the rest of the file: a length and that many compressed bytes. */
  method CfiLoadTrack(file: seq<byte>) returns (err: DskErr, ubuf: array?<byte>, used: nat)
    ensures |file| < 2 ==> err == OVERRUN
    ensures |file| >= 2 ==> var clen := Peek2(file);
              if clen < 3 || |file| < 2 + clen || Uncompressed(file[2..2 + clen]).None? then err == NOTME
              else err == OK && used == 2 + clen && ubuf != null && ubuf[..] == Uncompressed(file[2..2 + clen]).value
  {
    ubuf, used := null, 0;
    if |file| < 2 { return OVERRUN, ubuf, used; }
    var clen := Peek2(file);
    if clen < 3 || |file| < 2 + clen { return NOTME, ubuf, used; }
    var cbuf := file[2..2 + clen];
    var ulen;
    err, ulen := CfiUncompress(cbuf, null);
    if err != OK { return err, ubuf, used; }
    ubuf := new byte[ulen](_ => 0);
    err, ulen := CfiUncompress(cbuf, ubuf);
    used := 2 + clen;
  }

  /** What is saved can be loaded again, whatever follows it in the file. */
  lemma {:induction false} SavedLoads(u: seq<byte>, rest: seq<byte>)
    requires 0 < |u| <= MAXBLOCK
    ensures var wire := Wire(Blocks(u, 0, 0)); var file := Le2(|wire|) + wire + rest;
            3 <= |wire| == Peek2(file) && file[2..2 + |wire|] == wire && Uncompressed(wire) == Some(u)
  {
    TrackRoundTrip(u);
    WireShort(u, 0, 0);
    Le2Back(|Wire(Blocks(u, 0, 0))|);
    if Wire(Blocks(u, 0, 0)) != [] { assert First(Wire(Blocks(u, 0, 0))).Some?; }
  }
}
