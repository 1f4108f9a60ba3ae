/** Writing part of a block: the sectors it shares are read first, then it is filled and written back. */
module CpmPart {
  import opened Bits
  import opened Division
  import opened CpmBlocks
  import opened CpmBytes

  /** Byte o of a block. */
  ghost function ByteIn(dev: Device, b: nat, o: nat): byte
    requires dev.Valid() && b < dev.g.size && o < dev.g.blksiz
    reads dev.store
  {
    PlaceOf(dev, b, o);
    dev.BlockAt(b, o / dev.g.secLength)[o % dev.g.secLength]
  }

  lemma {:induction false} PlaceOf(dev: Device, b: nat, o: nat)
    requires dev.Valid() && b < dev.g.size && o < dev.g.blksiz
    ensures o / dev.g.secLength < PerBlock(dev.g) && o % dev.g.secLength < |dev.BlockAt(b, o / dev.g.secLength)| == dev.g.secLength
  {
    hide Permutation;
    Bounded(o, dev.g.secLength, PerBlock(dev.g));
    dev.SectorLength(b, o / dev.g.secLength);
  }

  ghost function BytesOf(dev: Device, b: nat): (s: seq<byte>)
    requires dev.Valid() && b < dev.g.size
    reads dev.store
    ensures |s| == dev.g.blksiz && forall o :: 0 <= o < |s| ==> s[o] == ByteIn(dev, b, o)
  {
    seq(dev.g.blksiz, o requires 0 <= o < dev.g.blksiz && dev.Valid() reads dev.store => ByteIn(dev, b, o))
  }

  /** The bytes of all blocks. */
  ghost function Blocks(dev: Device): (bs: seq<seq<byte>>)
    requires dev.Valid()
    reads dev.store
    ensures |bs| == dev.g.size && forall b :: 0 <= b < |bs| ==> bs[b] == BytesOf(dev, b)
  {
    seq(dev.g.size, b requires 0 <= b < dev.g.size && dev.Valid() reads dev.store => BytesOf(dev, b))
  }

  // ------------------------------------------------------------- the buffer

  /** A block in the buffer, sector by sector. */
  ghost predicate Sectors(buffer: seq<Sector>, g: Geometry) {
    g.secLength > 0 && |buffer| == PerBlock(g) && forall c :: 0 <= c < |buffer| ==> |buffer[c]| == g.secLength
  }

  /** Byte o of the buffer. */
  ghost function InBuffer(buffer: seq<Sector>, g: Geometry, o: nat): byte
    requires Sectors(buffer, g) && GeometryOk(g) && o < g.blksiz
  {
    Bounded(o, g.secLength, PerBlock(g));
    buffer[o / g.secLength][o % g.secLength]
  }

  function WithByte(s: Sector, i: nat, v: byte): (r: Sector)
    requires i < |s|
    ensures |r| == |s| && forall j :: 0 <= j < |r| ==> r[j] == if j == i then v else s[j]
  {
    s[..i] + [v] + s[i + 1..]
  }

  lemma {:induction false} PutSectors(buffer: seq<Sector>, g: Geometry, c: nat, s: Sector)
    requires Sectors(buffer, g) && c < |buffer| && |s| == g.secLength
    ensures Sectors(buffer[c := s], g)
  {
    hide PerBlock;
  }

  /** Byte o of a block is byte j of its sector c. */
  ghost predicate InPlace(o: nat, sec: nat, c: nat, j: nat) { sec > 0 && c == o / sec && j == o % sec }

  lemma {:induction false} FindPlace(o: nat, sec: nat) returns (c: nat, j: nat)
    requires sec > 0
    ensures InPlace(o, sec, c, j)
  {
    c, j := o / sec, o % sec;
  }

  lemma {:induction false} InBufferIs(buffer: seq<Sector>, g: Geometry, o: nat, c: nat, j: nat)
    requires Sectors(buffer, g) && GeometryOk(g) && o < g.blksiz && InPlace(o, g.secLength, c, j)
    ensures c < |buffer| && j < |buffer[c]| && InBuffer(buffer, g, o) == buffer[c][j]
  {
    Bounded(o, g.secLength, PerBlock(g));
  }

  lemma {:induction false} PutByte(buffer: seq<Sector>, g: Geometry, x: nat, v: byte, c: nat, j: nat)
    requires Sectors(buffer, g) && GeometryOk(g) && x < g.blksiz && InPlace(x, g.secLength, c, j)
    ensures c < |buffer| && j < |buffer[c]|
    ensures var r := buffer[c := WithByte(buffer[c], j, v)];
            Sectors(r, g) && forall o :: 0 <= o < g.blksiz ==> InBuffer(r, g, o) == if o == x then v else InBuffer(buffer, g, o)
  {
    hide Sectors, GeometryOk, InBuffer, PerBlock, WithByte, InPlace;
    InBufferIs(buffer, g, x, c, j);
    var r := buffer[c := WithByte(buffer[c], j, v)];
    SectorLen(buffer, g, c);
    PutSectors(buffer, g, c, WithByte(buffer[c], j, v));
    forall o | 0 <= o < g.blksiz ensures InBuffer(r, g, o) == if o == x then v else InBuffer(buffer, g, o) {
      var c', j' := FindPlace(o, g.secLength);
      PutByteAt(buffer, r, g, x, v, c, j, o, c', j');
    }
  }

  lemma {:induction false} PutByteAt(buffer: seq<Sector>, r: seq<Sector>, g: Geometry, x: nat, v: byte, c: nat, j: nat, o: nat, c': nat, j': nat)
    requires Sectors(buffer, g) && Sectors(r, g) && GeometryOk(g) && x < g.blksiz && o < g.blksiz
    requires InPlace(x, g.secLength, c, j) && InPlace(o, g.secLength, c', j')
    requires c < |buffer| && j < |buffer[c]| && r == buffer[c := WithByte(buffer[c], j, v)]
    ensures InBuffer(r, g, o) == if o == x then v else InBuffer(buffer, g, o)
  {
    hide Sectors, GeometryOk, InBuffer, PerBlock, WithByte, InPlace;
    InBufferIs(buffer, g, o, c', j');
    InBufferIs(r, g, o, c', j');
    SamePlaces(o, x, g.secLength, c', j', c, j);
  }

  lemma {:induction false} SamePlaces(o: nat, x: nat, sec: nat, c: nat, j: nat, c': nat, j': nat)
    requires InPlace(o, sec, c, j) && InPlace(x, sec, c', j')
    ensures c == c' && j == j' <==> o == x
  {
    if c == c' && j == j' { SameNumber(o, x, sec); }
  }

  lemma {:induction false} SectorLen(buffer: seq<Sector>, g: Geometry, c: nat)
    requires Sectors(buffer, g) && c < |buffer|
    ensures g.secLength > 0 && |buffer[c]| == g.secLength
  {
  }

  lemma {:induction false} SameNumber(o: nat, x: nat, n: nat)
    requires n > 0 && o / n == x / n && o % n == x % n
    ensures o == x
  {
    assert o == o / n * n + o % n && x == x / n * n + x % n;
  }

  // -------------------------------------------------------------- the steps

  /** Bytes a to a+n of the buffer are those of data. */
  method FillBuffer(buffer: array<Sector>, g: Geometry, a: nat, n: nat, data: seq<byte>)
    requires Sectors(buffer[..], g) && GeometryOk(g) && a + n <= g.blksiz && n <= |data|
    modifies buffer
    ensures Sectors(buffer[..], g)
    ensures forall o :: 0 <= o < g.blksiz ==>
              InBuffer(buffer[..], g, o) == if a <= o < a + n then data[o - a] else InBuffer(old(buffer[..]), g, o)
  {
    hide Sectors, InBuffer, GeometryOk, PerBlock, WithByte;
    Positive(g);
    var j := 0;
    while j < n
      invariant 0 <= j <= n && Sectors(buffer[..], g)
      invariant forall o :: 0 <= o < g.blksiz ==>
                  InBuffer(buffer[..], g, o) == if a <= o < a + j then data[o - a] else InBuffer(old(buffer[..]), g, o)
    {
      var c, i := (a + j) / g.secLength, (a + j) % g.secLength;
      ghost var before := buffer[..];
      PutByte(before, g, a + j, data[j], c, i);
      buffer[c] := WithByte(buffer[c], i, data[j]);
      assert buffer[..] == before[c := WithByte(before[c], i, data[j])];
      j := j + 1;
    }
  }

  lemma {:induction false} Positive(g: Geometry)
    requires GeometryOk(g)
    ensures g.secLength > 0 && g.blksiz > 0 && PerBlock(g) * g.secLength == g.blksiz && PerBlock(g) > 0
  {
  }

  /** Read one sector of a block into the buffer. */
  method FetchSector(dev: Device, block: nat, buffer: array<Sector>, c: nat) returns (ok: bool)
    requires dev.Valid() && Sectors(buffer[..], dev.g) && c < PerBlock(dev.g)
    modifies buffer
    ensures ok == (block < dev.g.size) && Sectors(buffer[..], dev.g)
    ensures forall o :: 0 <= o < dev.g.blksiz ==>
              InBuffer(buffer[..], dev.g, o) == if ok && o / dev.g.secLength == c then ByteIn(dev, block, o) else InBuffer(old(buffer[..]), dev.g, o)
  {
    ghost var before := buffer[..];
    ok := dev.ReadBlock(block, buffer, c, c);
    if ok {
      FetchedSectors(dev, block, before, buffer[..], c);
    } else {
      assert buffer[..] == before;
    }
  }

  lemma {:induction false} FetchedSectors(dev: Device, block: nat, before: seq<Sector>, now: seq<Sector>, c: nat)
    requires dev.Valid() && block < dev.g.size && Sectors(before, dev.g) && c < PerBlock(dev.g) && |now| == |before|
    requires forall k :: 0 <= k < |now| ==> now[k] == if k == c then dev.BlockAt(block, c) else before[k]
    ensures Sectors(now, dev.g)
    ensures forall o :: 0 <= o < dev.g.blksiz ==>
              InBuffer(now, dev.g, o) == if o / dev.g.secLength == c then ByteIn(dev, block, o) else InBuffer(before, dev.g, o)
  {
    dev.SectorLength(block, c);
    hide Device.BlockAt, Device.Valid, Permutation;
    forall o | 0 <= o < dev.g.blksiz
      ensures Sectors(now, dev.g) && InBuffer(now, dev.g, o) == if o / dev.g.secLength == c then ByteIn(dev, block, o) else InBuffer(before, dev.g, o)
    {
      FetchedAt(dev, block, before, now, c, o);
    }
  }

  lemma {:induction false} FetchedAt(dev: Device, block: nat, before: seq<Sector>, now: seq<Sector>, c: nat, o: nat)
    requires dev.Valid() && block < dev.g.size && Sectors(before, dev.g) && Sectors(now, dev.g) && c < PerBlock(dev.g) && o < dev.g.blksiz
    requires forall k :: 0 <= k < |now| ==> now[k] == if k == c then dev.BlockAt(block, c) else before[k]
    ensures InBuffer(now, dev.g, o) == if o / dev.g.secLength == c then ByteIn(dev, block, o) else InBuffer(before, dev.g, o)
  {
    PlaceOf(dev, block, o);
    hide Device.BlockAt, Permutation;
  }

  lemma {:induction false} ZeroBuffer(buffer: seq<Sector>, g: Geometry)
    requires GeometryOk(g) && |buffer| == PerBlock(g) && forall c :: 0 <= c < |buffer| ==> buffer[c] == Repeat<byte>(0, g.secLength)
    ensures Sectors(buffer, g) && forall o :: 0 <= o < g.blksiz ==> InBuffer(buffer, g, o) == 0
  {
    assert Sectors(buffer, g);
    hide InBuffer, PerBlock, GeometryOk;
    forall o | 0 <= o < g.blksiz ensures InBuffer(buffer, g, o) == 0 {
      var c, j := FindPlace(o, g.secLength);
      InBufferIs(buffer, g, o, c, j);
    }
  }

  // --------------------------------------------------------- what is covered

  /** Where what is written ends: with the data, or with a sector that was neither full nor read before. */
  function WrittenTo(a: nat, n: nat, sec: nat, isNew: bool): (t: nat)
    requires sec > 0
    ensures t >= a + n
  {
    if !isNew && a % sec == 0 && n < sec then
      Whole(a, sec);
      (a / sec + 1) * sec
    else a + n
  }

  lemma {:induction false} Whole(a: nat, sec: nat)
    requires sec > 0 && a % sec == 0
    ensures (a / sec + 1) * sec == a + sec
  {
    assert a == a / sec * sec;
    Product(a / sec + 1, a / sec + 1, sec);
  }

  /** The part of a block: n bytes from a on, of count that are left. */
  ghost predicate PartSize(a: nat, n: nat, count: nat, blksiz: nat, sec: nat) {
    sec > 0 && blksiz % sec == 0 && a < blksiz && count > 0 && n == if blksiz - a < count then blksiz - a else count
  }

  /** The sectors of the data lie between the first and the last that are written. */
  lemma {:induction false} DataCovered(a: nat, n: nat, count: nat, blksiz: nat, sec: nat, o: nat)
    requires PartSize(a, n, count, blksiz, sec) && a <= o < a + n
    ensures a / sec <= o / sec <= (a + n - 1) / sec
  {
    DivMono(a, o, sec);
    DivMono(o, a + n - 1, sec);
  }

  /** A byte before the data that is written belongs to the first sector, which has been read. */
  lemma {:induction false} FrontRead(a: nat, sec: nat, o: nat)
    requires sec > 0 && o < a && a / sec <= o / sec
    ensures o / sec == a / sec && a % sec != 0
  {
    DivMono(o, a, sec);
    DivAtLeast(o, sec, a / sec);
  }

  /** A byte behind what is written to belongs to the last sector, and that has been read. */
  lemma {:induction false} BackRead(a: nat, n: nat, count: nat, blksiz: nat, sec: nat, o: nat)
    requires PartSize(a, n, count, blksiz, sec) && WrittenTo(a, n, sec, false) <= o && o / sec <= (a + n - 1) / sec
    ensures o / sec == (a + n - 1) / sec && (a + n) % sec != 0 && n == count && a + count < blksiz
    ensures a % sec == 0 ==> (a + n - 1) / sec != a / sec
  {
    hide WrittenTo;
    EndOpen(a, n, sec, o);
    if a % sec == 0 && (a + n - 1) / sec == a / sec { ShortEnd(a, n, sec, o); }
  }

  lemma {:induction false} EndOpen(a: nat, n: nat, sec: nat, o: nat)
    requires sec > 0 && n > 0 && o >= a + n && o / sec <= (a + n - 1) / sec
    ensures o / sec == (a + n - 1) / sec && (a + n) % sec != 0
  {
    DivMono(a + n - 1, o, sec);
    if (a + n) % sec == 0 {
      DivAtLeast(o, sec, (a + n) / sec);
      LastBefore(a + n, sec);
      assert false;
    }
  }

  lemma {:induction false} ShortEnd(a: nat, n: nat, sec: nat, o: nat)
    requires sec > 0 && n > 0 && a % sec == 0 && (a + n - 1) / sec == a / sec && (a + n) % sec != 0 && o / sec == a / sec
    ensures o < WrittenTo(a, n, sec, false)
  {
    ShortPart(a, n, sec);
    DivAtLeast(o, sec, a / sec + 1);
  }

  lemma {:induction false} LastBefore(x: nat, n: nat)
    requires n > 0 && x > 0 && x % n == 0
    ensures (x - 1) / n == x / n - 1
  {
    assert x == x / n * n;
    DivAtLeast(x, n, 1);
    Product(x / n, x / n, n);
    DivUnique(x - 1, n, x / n - 1, n - 1);
  }

  lemma {:induction false} ShortPart(a: nat, n: nat, sec: nat)
    requires sec > 0 && n > 0 && a % sec == 0 && (a + n - 1) / sec == a / sec && (a + n) % sec != 0
    ensures n < sec
  {
    Whole(a, sec);
    if n >= sec {
      DivAtLeast(a + n - 1, sec, a / sec + 1);
      assert n == sec;
      MultipleMod(a / sec + 1, sec);
    }
  }

  // ------------------------------------------------------------- the whole part

  /** The buffer after fetching: zeros for a new block; for an old one the sectors read, the first if the data begin within it, the last if they end within it. */
  ghost predicate Loaded(dev: Device, block: nat, isNew: bool, was: seq<Sector>, now: seq<Sector>, start: nat, end: nat, first: bool, last: bool)
    requires dev.Valid() && (isNew || block < dev.g.size) && Sectors(was, dev.g) && Sectors(now, dev.g)
    reads dev.store
  {
    forall o {:trigger InBuffer(now, dev.g, o)} :: 0 <= o < dev.g.blksiz ==>
      InBuffer(now, dev.g, o) ==
        if isNew then 0
        else if (first && o / dev.g.secLength == start) || (last && o / dev.g.secLength == end) then ByteIn(dev, block, o)
        else InBuffer(was, dev.g, o)
  }

  /** From the first to the last sector that is written, and which of the two have to be read before. */
  ghost predicate Span(g: Geometry, isNew: bool, a: nat, count: nat, start: nat, end: nat, first: bool, last: bool) {
    && g.secLength > 0 && g.blksiz > 0
    && if isNew then start == 0 && end == (g.blksiz - 1) / g.secLength else
       && start == a / g.secLength && end == (if a + count >= g.blksiz then g.blksiz - 1 else a + count - 1) / g.secLength
       && first == (a % g.secLength != 0)
       && last == (end != start && a + count < g.blksiz && (a + count) % g.secLength != 0)
  }

  lemma {:induction false} PlusMultiple(x: nat, q: nat, k: nat, n: nat)
    requires n > 0
    ensures (q * (k * n) + x) % n == x % n
  {
    var b, r := x / n, x % n;
    Distribute(q, k, b, n);
    DivUnique(q * (k * n) + x, n, q * k + b, r);
  }

  /** The same remainder in the block as in the file. */
  lemma {:induction false} SameRest(pos: nat, count: nat, blksiz: nat, sec: nat)
    requires sec > 0 && blksiz > 0 && blksiz % sec == 0
    ensures pos % sec == pos % blksiz % sec && (pos + count) % sec == (pos % blksiz + count) % sec
  {
    var q, a, k := pos / blksiz, pos % blksiz, blksiz / sec;
    assert blksiz == k * sec;
    assert pos == q * (k * sec) + a;
    PlusMultiple(a, q, k, sec);
    PlusMultiple(a + count, q, k, sec);
  }

  method SpanOf(g: Geometry, isNew: bool, pos: nat, count: nat) returns (start: nat, end: nat, first: bool, last: bool)
    requires GeometryOk(g) && count > 0
    ensures g.blksiz > 0 && Span(g, isNew, pos % g.blksiz, count, start, end, first, last) && start < PerBlock(g) && end < PerBlock(g)
  {
    hide GeometryOk, PerBlock;
    Positive(g);
    var blksiz, sec := g.blksiz, g.secLength;
    first, last := false, false;
    InBlockSector(g, blksiz - 1);
    if isNew {
      start, end := 0, (blksiz - 1) / sec;
    } else {
      var a := pos % blksiz;
      SameRest(pos, count, blksiz, sec) by { MultipleMod(PerBlock(g), sec); }
      start := a / sec;
      end := (if a + count >= blksiz then blksiz - 1 else a + count - 1) / sec;
      first := pos % sec != 0;
      last := end != start && a + count < blksiz && (pos + count) % sec != 0;
      InBlockSector(g, a);
      if a + count < blksiz { InBlockSector(g, a + count - 1); }
    }
  }

  lemma {:induction false} InBlockSector(g: Geometry, a: nat)
    requires GeometryOk(g) && a < g.blksiz
    ensures g.secLength > 0 && a / g.secLength < PerBlock(g)
  {
    Bounded(a, g.secLength, PerBlock(g));
  }

  /** Get the buffer ready: the sectors to be written, with what they share. */
  method FetchPart(dev: Device, block: nat, isNew: bool, start: nat, end: nat, first: bool, last: bool, buffer: array<Sector>)
    returns (ok: bool)
    requires dev.Valid() && Sectors(buffer[..], dev.g) && start < PerBlock(dev.g) && end < PerBlock(dev.g)
    modifies buffer
    ensures Sectors(buffer[..], dev.g) && (isNew || block < dev.g.size ==> ok)
    ensures isNew || block < dev.g.size ==> Loaded(dev, block, isNew, old(buffer[..]), buffer[..], start, end, first, last)
  {
    hide Sectors, InBuffer, ByteIn, Device.Valid, PerBlock;
    ValidGeometry(dev);
    ok := true;
    if isNew {
      SectorsLength(buffer[..], dev.g);
      dev.ClearBuffer(buffer);
      ZeroBuffer(buffer[..], dev.g);
    } else {
      if first {
        ok := FetchSector(dev, block, buffer, start);
        if !ok { return; }
      }
      if last {
        ok := FetchSector(dev, block, buffer, end);
      }
    }
  }

  lemma {:induction false} ValidGeometry(dev: Device)
    requires dev.Valid()
    ensures GeometryOk(dev.g) && dev.g.secLength > 0 && dev.g.blksiz > 0 && dev.g.blksiz % dev.g.secLength == 0
    ensures PerBlock(dev.g) * dev.g.secLength == dev.g.blksiz && PerBlock(dev.g) > 0
  {
    Positive(dev.g);
  }

  lemma {:induction false} SectorsLength(buffer: seq<Sector>, g: Geometry)
    requires Sectors(buffer, g)
    ensures g.secLength > 0 && |buffer| == PerBlock(g)
  {
  }

  /** Which bytes of a block are written, and which of them come from sectors read before. */
  lemma {:induction false} PartCases(g: Geometry, isNew: bool, a: nat, n: nat, count: nat, start: nat, end: nat, first: bool, last: bool, o: nat)
    requires PartSize(a, n, count, g.blksiz, g.secLength) && Span(g, isNew, a, count, start, end, first, last) && o < g.blksiz
    requires g.secLength > 0 && n > 0
    ensures var t, c := WrittenTo(a, n, g.secLength, isNew), o / g.secLength;
            && t >= a + n
            && (a <= o < a + n ==> start <= c <= end)
            && (isNew ==> start <= c <= end && t == a + n)
            && (!isNew && !(a <= o < t) && start <= c <= end ==> (first && c == start) || (last && c == end))
            && (a + n <= o < t ==> start <= c <= end && !(first && c == start) && !(last && c == end))
  {
    hide WrittenTo, PartSize, Span;
    if isNew {
      NewCases(g, a, n, count, start, end, first, last, o);
    } else {
      var sec := g.secLength;
      SpanIs(g, false, a, n, count, start, end, first, last);
      OldCases(a, n, count, g.blksiz, sec, o);
      FromCases(a, n, o, WrittenTo(a, n, sec, false), o / sec, start, end, first, last, a % sec == 0, (a + n) % sec != 0, n == count && a + count < g.blksiz);
    }
  }

  lemma {:induction false} NewCases(g: Geometry, a: nat, n: nat, count: nat, start: nat, end: nat, first: bool, last: bool, o: nat)
    requires PartSize(a, n, count, g.blksiz, g.secLength) && Span(g, true, a, count, start, end, first, last) && o < g.blksiz
    ensures g.secLength > 0 && start <= o / g.secLength <= end && WrittenTo(a, n, g.secLength, true) == a + n
  {
    DivMono(o, g.blksiz - 1, g.secLength);
  }

  /** The cases once more, in terms of which sectors are read. */
  lemma {:induction false} FromCases(a: nat, n: nat, o: nat, t: nat, c: nat, start: nat, end: nat, first: bool, last: bool, whole: bool, open: bool, short: bool)
    requires first == !whole && (short ==> last == (end != start && open))
    requires a <= o < a + n ==> start <= c <= end
    requires o < a && start <= c ==> !whole && c == start
    requires o >= t && c <= end ==> c == end && open && short && (whole ==> end != start)
    requires a + n <= o < t ==> c == start == end && whole
    requires last ==> end != start
    ensures !(a <= o < t) && start <= c <= end ==> (first && c == start) || (last && c == end)
    ensures a + n <= o < t ==> start <= c <= end && !(first && c == start) && !(last && c == end)
  {
  }

  lemma {:induction false} SpanIs(g: Geometry, isNew: bool, a: nat, n: nat, count: nat, start: nat, end: nat, first: bool, last: bool)
    requires PartSize(a, n, count, g.blksiz, g.secLength) && Span(g, isNew, a, count, start, end, first, last) && n > 0
    ensures g.secLength > 0 && g.blksiz > 0
    ensures isNew ==> start == 0 && end == (g.blksiz - 1) / g.secLength
    ensures !isNew ==> start == a / g.secLength && end == (a + n - 1) / g.secLength && first == (a % g.secLength != 0)
    ensures !isNew && n == count ==> last == (end != start && a + count < g.blksiz && (a + n) % g.secLength != 0)
    ensures !isNew && last ==> end != start && a + count < g.blksiz && n == count
  {
    EndIs(a, n, count, g.blksiz, g.secLength);
  }

  lemma {:induction false} OldCases(a: nat, n: nat, count: nat, blksiz: nat, sec: nat, o: nat)
    requires PartSize(a, n, count, blksiz, sec) && sec > 0 && n > 0
    ensures var t, c, start, end := WrittenTo(a, n, sec, false), o / sec, a / sec, (a + n - 1) / sec;
            && (a <= o < a + n ==> start <= c <= end)
            && (o < a && start <= c ==> a % sec != 0 && c == start)
            && (o >= t && c <= end ==> c == end && (a + n) % sec != 0 && n == count && a + count < blksiz && (a % sec == 0 ==> end != start))
            && (o >= t && c <= end && end == start ==> a % sec != 0 && c == start)
            && (a + n <= o < t ==> c == start == end && a % sec == 0)
  {
    hide WrittenTo, PartSize;
    if o < a {
      if a / sec <= o / sec { FrontRead(a, sec, o); }
    } else if o < a + n {
      DataCovered(a, n, count, blksiz, sec, o);
    } else if o < WrittenTo(a, n, sec, false) {
      TornByte(a, n, sec, o);
    } else if o / sec <= (a + n - 1) / sec {
      BackRead(a, n, count, blksiz, sec, o);
    }
  }

  /** A byte of the block after writing: from the buffer if its sector is written. */
  lemma {:induction false} PartByte(dev: Device, block: nat, isNew: bool, was: seq<Sector>, loaded: seq<Sector>, filled: seq<Sector>,
      a: nat, n: nat, count: nat, start: nat, end: nat, first: bool, last: bool, data: seq<byte>, o: nat)
    requires dev.Valid() && block < dev.g.size && Sectors(was, dev.g) && Sectors(loaded, dev.g) && Sectors(filled, dev.g)
    requires PartSize(a, n, count, dev.g.blksiz, dev.g.secLength) && Span(dev.g, isNew, a, count, start, end, first, last)
    requires Loaded(dev, block, isNew, was, loaded, start, end, first, last) && n <= |data| && o < dev.g.blksiz
    requires InBuffer(filled, dev.g, o) == if a <= o < a + n then data[o - a] else InBuffer(loaded, dev.g, o)
    ensures var t, written := WrittenTo(a, n, dev.g.secLength, isNew), start <= o / dev.g.secLength <= end;
            && t >= a + n && (a <= o < a + n ==> written)
            && (!(a <= o < t) && written ==> InBuffer(filled, dev.g, o) == if isNew then 0 else ByteIn(dev, block, o))
            && (isNew ==> written)
            && (a + n <= o < t ==> written && InBuffer(filled, dev.g, o) == InBuffer(was, dev.g, o))
  {
    PartCases(dev.g, isNew, a, n, count, start, end, first, last, o);
    hide Sectors, InBuffer, ByteIn, Device.Valid, PerBlock, WrittenTo, Span, PartSize;
  }

  lemma {:induction false} NewTo(a: nat, n: nat, sec: nat)
    requires sec > 0
    ensures WrittenTo(a, n, sec, true) == a + n
  {
  }

  lemma {:induction false} EndIs(a: nat, n: nat, count: nat, blksiz: nat, sec: nat)
    requires PartSize(a, n, count, blksiz, sec)
    ensures (if a + count >= blksiz then blksiz - 1 else a + count - 1) == a + n - 1
  {
  }

  /** What is torn: the rest of a sector that the data begin but do not fill; it is the only one written, and it is not read. */
  lemma {:induction false} TornByte(a: nat, n: nat, sec: nat, o: nat)
    requires sec > 0 && n > 0 && a + n <= o < WrittenTo(a, n, sec, false)
    ensures a % sec == 0 && o / sec == a / sec == (a + n - 1) / sec
  {
    Whole(a, sec);
    DivUnique(o, sec, a / sec, o - a);
    DivUnique(a + n - 1, sec, a / sec, n - 1);
  }

  /** How many bytes go into the block. */
  function PartLength(a: nat, count: nat, blksiz: nat): nat
    requires a < blksiz
  {
    if blksiz - a < count then blksiz - a else count
  }

  /** Where byte o of the buffer comes from, and whether its sector is to be written. */
  ghost predicate PlannedAt(g: Geometry, isNew: bool, before: seq<byte>, was: seq<Sector>, filled: seq<Sector>,
      a: nat, n: nat, t: nat, start: nat, end: nat, data: seq<byte>, o: nat)
    requires GeometryOk(g) && |before| == g.blksiz && Sectors(was, g) && Sectors(filled, g) && n <= |data| && o < g.blksiz
  {
    var written := start <= o / g.secLength <= end;
    && (a <= o < a + n ==> written && InBuffer(filled, g, o) == data[o - a])
    && (!(a <= o < t) && written ==> InBuffer(filled, g, o) == if isNew then 0 else before[o])
    && (isNew ==> written) && (a + n <= o < t ==> written && InBuffer(filled, g, o) == InBuffer(was, g, o))
  }

  ghost predicate Planned(g: Geometry, isNew: bool, before: seq<byte>, was: seq<Sector>, filled: seq<Sector>,
      a: nat, n: nat, t: nat, start: nat, end: nat, data: seq<byte>)
    requires GeometryOk(g) && |before| == g.blksiz && Sectors(was, g) && Sectors(filled, g)
  {
    && a + n <= t <= g.blksiz && n <= |data|
    && forall o {:trigger PlannedAt(g, isNew, before, was, filled, a, n, t, start, end, data, o)} :: 0 <= o < g.blksiz ==>
         PlannedAt(g, isNew, before, was, filled, a, n, t, start, end, data, o)
  }

  lemma {:induction false} PartPlanned(dev: Device, block: nat, isNew: bool, was: seq<Sector>, loaded: seq<Sector>, filled: seq<Sector>,
      a: nat, n: nat, start: nat, end: nat, first: bool, last: bool, data: seq<byte>)
    requires dev.Valid() && block < dev.g.size && Sectors(was, dev.g) && Sectors(loaded, dev.g) && Sectors(filled, dev.g)
    requires PartSize(a, n, |data|, dev.g.blksiz, dev.g.secLength) && Span(dev.g, isNew, a, |data|, start, end, first, last)
    requires Loaded(dev, block, isNew, was, loaded, start, end, first, last)
    requires forall o :: 0 <= o < dev.g.blksiz ==> InBuffer(filled, dev.g, o) == if a <= o < a + n then data[o - a] else InBuffer(loaded, dev.g, o)
    ensures dev.g.secLength > 0
    ensures Planned(dev.g, isNew, BytesOf(dev, block), was, filled, a, n, WrittenTo(a, n, dev.g.secLength, isNew), start, end, data)
  {
    hide Sectors, InBuffer, ByteIn, Device.Valid, PerBlock, WrittenTo, Span, Loaded;
    ValidGeometry(dev);
    WrittenFits(a, n, dev.g.blksiz, dev.g.secLength, isNew);
    var before, t := BytesOf(dev, block), WrittenTo(a, n, dev.g.secLength, isNew);
    forall o | 0 <= o < dev.g.blksiz
      ensures PlannedAt(dev.g, isNew, before, was, filled, a, n, t, start, end, data, o)
    {
      PartByte(dev, block, isNew, was, loaded, filled, a, n, |data|, start, end, first, last, data, o);
      assert before[o] == ByteIn(dev, block, o);
    }
  }

  /** The block after the buffer has been written back to it. */
  lemma {:induction false} PartDone(dev: Device, block: nat, isNew: bool, before: seq<byte>, was: seq<Sector>, filled: seq<Sector>,
      a: nat, n: nat, t: nat, start: nat, end: nat, data: seq<byte>)
    requires dev.Valid() && block < dev.g.size && |before| == dev.g.blksiz && Sectors(was, dev.g) && Sectors(filled, dev.g)
    requires Planned(dev.g, isNew, before, was, filled, a, n, t, start, end, data)
    requires forall o {:trigger ByteIn(dev, block, o)} :: 0 <= o < dev.g.blksiz ==>
               ByteIn(dev, block, o) == if start <= o / dev.g.secLength <= end then InBuffer(filled, dev.g, o) else before[o]
    ensures PartOf(BytesOf(dev, block), if isNew then Repeat<byte>(0, dev.g.blksiz) else before, a, n, t, data) && t <= dev.g.blksiz
    ensures forall o :: a + n <= o < t ==> BytesOf(dev, block)[o] == InBuffer(was, dev.g, o)
  {
    hide Sectors, InBuffer, ByteIn, Device.Valid, PerBlock;
    ValidGeometry(dev);
    var c := BytesOf(dev, block);
    forall o | 0 <= o < dev.g.blksiz
      ensures (a <= o < a + n ==> c[o] == data[o - a]) && (a + n <= o < t ==> c[o] == InBuffer(was, dev.g, o))
           && (!(a <= o < t) ==> c[o] == if isNew then 0 else before[o])
    {
      assert c[o] == ByteIn(dev, block, o);
      assert PlannedAt(dev.g, isNew, before, was, filled, a, n, t, start, end, data, o);
    }
  }

  lemma {:induction false} WrittenFits(a: nat, n: nat, blksiz: nat, sec: nat, isNew: bool)
    requires sec > 0 && blksiz % sec == 0 && a + n <= blksiz && n > 0
    ensures a + n <= WrittenTo(a, n, sec, isNew) <= blksiz
  {
    if a % sec == 0 {
      Whole(a, sec);
      DivAtLeast(blksiz - 1, sec, blksiz / sec);
      assert blksiz == blksiz / sec * sec && a == a / sec * sec;
      DivAtLeast(a, sec, blksiz / sec);
      Product(a / sec + 1, blksiz / sec, sec);
    }
  }

  // ------------------------------------------------------------- writing back

  /** Write sectors start to end of a block from the buffer. */
  method WriteSectors(dev: Device, block: nat, buffer: seq<Sector>, start: nat, end: nat)
    requires dev.Valid() && Sectors(buffer, dev.g) && block < dev.g.size && end < PerBlock(dev.g)
    modifies dev.store
    ensures dev.Valid()
    ensures forall b, o {:trigger ByteIn(dev, b, o)} :: 0 <= b < dev.g.size && 0 <= o < dev.g.blksiz ==>
              ByteIn(dev, b, o) == if b == block && start <= o / dev.g.secLength <= end then InBuffer(buffer, dev.g, o) else old(ByteIn(dev, b, o))
    ensures Blocks(dev) == old(Blocks(dev))[block := BytesOf(dev, block)]
  {
    hide PerBlock, Permutation, GeometryOk, Device.BlockAt;
    BufferFits(buffer, dev.g);
    dev.WriteBlock(block, buffer, start, end);
    forall b, o | 0 <= b < dev.g.size && 0 <= o < dev.g.blksiz
      ensures ByteIn(dev, b, o) == if b == block && start <= o / dev.g.secLength <= end then InBuffer(buffer, dev.g, o) else old(ByteIn(dev, b, o))
    {
      PlaceOf(dev, b, o);
    }
    hide ByteIn, InBuffer, Sectors;
    forall b | 0 <= b < dev.g.size && b != block ensures BytesOf(dev, b) == old(Blocks(dev))[b] {
      assert old(Blocks(dev))[b] == old(BytesOf(dev, b));
    }
  }

  lemma {:induction false} BufferFits(buffer: seq<Sector>, g: Geometry)
    requires Sectors(buffer, g)
    ensures g.secLength > 0 && |buffer| == PerBlock(g) && forall c :: 0 <= c < |buffer| ==> |buffer[c]| == g.secLength
  {
  }

  /** The bytes of the buffer. */
  ghost function Flat(buffer: seq<Sector>, g: Geometry): (s: seq<byte>)
    requires Sectors(buffer, g) && GeometryOk(g)
    ensures |s| == g.blksiz && forall o :: 0 <= o < |s| ==> s[o] == InBuffer(buffer, g, o)
  {
    seq(g.blksiz, o requires 0 <= o < g.blksiz => InBuffer(buffer, g, o))
  }

  /** Part of a block has been written; what is torn has become what was in the buffer. */
  ghost predicate Rewritten(was: seq<seq<byte>>, now: seq<seq<byte>>, block: nat, isNew: bool, a: nat, n: nat, t: nat, data: seq<byte>, stale: seq<byte>) {
    && block < |was| && |now| == |was| && now == was[block := now[block]] && |now[block]| == |stale|
    && PartOf(now[block], if isNew then Repeat<byte>(0, |stale|) else was[block], a, n, t, data)
    && forall o :: a + n <= o < t ==> now[block][o] == stale[o]
  }

  /**
   The part of a block that the data from pos on go into: n bytes of it are
   those of data, and what was there before stays, but for the rest of a sector
   that the data begin and do not fill.
  */
  method WritePart(dev: Device, block: nat, isNew: bool, pos: nat, data: seq<byte>, buffer: array<Sector>) returns (ok: bool, halted: bool, n: nat)
    requires dev.Valid() && Sectors(buffer[..], dev.g) && |data| > 0
    modifies buffer, dev.store
    ensures dev.Valid() && Sectors(buffer[..], dev.g) && dev.g.blksiz > 0 && dev.g.secLength > 0
    ensures ok && !halted <==> block < dev.g.size
    ensures ok ==> n == PartLength(pos % dev.g.blksiz, |data|, dev.g.blksiz)
    ensures block >= dev.g.size ==> Blocks(dev) == old(Blocks(dev))
    ensures block < dev.g.size ==> Rewritten(old(Blocks(dev)), Blocks(dev), block, isNew, pos % dev.g.blksiz, n,
                                             WrittenTo(pos % dev.g.blksiz, n, dev.g.secLength, isNew), data, old(Flat(buffer[..], dev.g)))
  {
    hide Sectors, InBuffer, ByteIn, Device.Valid, PerBlock, WrittenTo, Rewritten, BytesOf, Blocks, Span, Loaded, Flat;
    ValidGeometry(dev);
    ghost var was := buffer[..];
    halted := false;
    var start, end, first, last := SpanOf(dev.g, isNew, pos, |data|);
    ok := FetchPart(dev, block, isNew, start, end, first, last, buffer);
    if !ok { return false, false, 0; }
    var a := pos % dev.g.blksiz;
    n := if dev.g.blksiz - a < |data| then dev.g.blksiz - a else |data|;
    ghost var loaded := buffer[..];
    FillBuffer(buffer, dev.g, a, n, data);
    if block >= dev.g.size { halted := true; return; }
    PartPlanned(dev, block, isNew, was, loaded, buffer[..], a, n, start, end, first, last, data);
    ghost var before := BytesOf(dev, block);
    WriteSectors(dev, block, buffer[..], start, end);
    PartDone(dev, block, isNew, before, was, buffer[..], a, n, WrittenTo(a, n, dev.g.secLength, isNew), start, end, data);
    BlockRewritten(old(Blocks(dev)), Blocks(dev), block, isNew, a, n, WrittenTo(a, n, dev.g.secLength, isNew), data, was, dev.g);
  }

  lemma {:induction false} BlockRewritten(was: seq<seq<byte>>, now: seq<seq<byte>>, block: nat, isNew: bool, a: nat, n: nat, t: nat,
      data: seq<byte>, stale: seq<Sector>, g: Geometry)
    requires Sectors(stale, g) && GeometryOk(g) && block < |was| && |now| == |was| && now == was[block := now[block]] && |now[block]| == g.blksiz
    requires PartOf(now[block], if isNew then Repeat<byte>(0, g.blksiz) else was[block], a, n, t, data)
    requires forall o :: a + n <= o < t ==> now[block][o] == InBuffer(stale, g, o)
    ensures Rewritten(was, now, block, isNew, a, n, t, data, Flat(stale, g))
  {
    hide Sectors, GeometryOk, InBuffer;
  }
}
