/** What writing data to a file adds up to for the bytes of all files. */
module CpmDelivery {
  import opened Bits
  import opened Wrappers
  import opened Division
  import opened CpmDirectory
  import opened CpmFiles
  import opened CpmLayout
  import opened CpmWritten
  import opened CpmBytes
  import opened CpmPart

  // -------------------------------------------------------- the quiet steps

  lemma {:induction false} MadeQuiet(d: Disk, i: nat, ino: nat, f: File, x: nat)
    requires d.extents > 0 && i < |d.dir| && ino < |d.dir| && Owner(d.dir[ino]) == f && Live(d.dir[ino], d.hi) && x < 2048
    requires d.dir[i].status == UNUSED && FindExtent(d, f, 0, x) == -1
    ensures Quiet(d, NextExtent(d, i, ino, x), f)
  {
    hide FindExtent, ExtentOf, SameText, Grows;
    var d' := NextExtent(d, i, ino, x);
    MadeGrows(d, i, ino, f, x);
    forall n, k {:trigger Pointer(d'.dir[n], k, d.size)} | 0 <= n < |d.dir| && 0 <= k < Slots(d.size)
      ensures if Matches(d.dir[n], f, d.hi) then Pointer(d'.dir[n], k, d.size) == Pointer(d.dir[n], k, d.size)
              else d'.dir[n] == d.dir[n] || Pointer(d'.dir[n], k, d.size) == 0
    {
      if n != i { assert d'.dir[n] == d.dir[n]; }
    }
  }

  lemma {:induction false} ReachQuiet(d: Disk, ino: nat, f: File, x: nat)
    requires Shape(d) && ino < |d.dir| && Owner(d.dir[ino]) == f && Live(d.dir[ino], d.hi) && x < 2048
    ensures Quiet(d, ReachExtent(d, ino, x).0, f)
  {
    hide Quiet, Matches, FindExtent, NextExtent;
    NothingQuiet(d, f);
    var j := FindFree(d.dir, 0);
    if FindExtent(d, f, 0, x) == -1 && j != -1 { MadeQuiet(d, j, ino, f, x); }
  }

  lemma {:induction false} NothingQuiet(d: Disk, f: File)
    requires d.extents > 0
    ensures Quiet(d, d, f)
  {
    hide FindExtent, ExtentOf, Pointer, Matches;
    NothingGrows(d, f);
  }

  lemma {:induction false} MeasureQuiet(d: Disk, i: nat, x: nat, pos: nat, f: File, exact: bool)
    requires Shape(d) && pos > 0 && x < 2048 && FindExtent(d, f, 0, x) == i
    ensures Quiet(d, Step(d, Measurement(i, x, pos, exact)), f)
  {
    hide FindExtent, EndSaid, SameText, Grows, Matches;
    var d' := Step(d, Measurement(i, x, pos, exact));
    MeasureGrows(d, i, x, pos, f, exact);
    FoundHit(d, f, 0, x);
    forall n, k {:trigger Pointer(d'.dir[n], k, d.size)} | 0 <= n < |d.dir| && 0 <= k < Slots(d.size)
      ensures Pointer(d'.dir[n], k, d.size) == Pointer(d.dir[n], k, d.size) && (Matches(d.dir[n], f, d.hi) || d'.dir[n] == d.dir[n])
    {
      if n != i { assert d'.dir[n] == d.dir[n]; }
    }
  }

  // --------------------------------------------------------------- the data

  /** Writing data to file f from position start on, in sectors of sec bytes; stale is what the buffer holds before. */
  datatype Delivery = Delivery(w0: World, m: Format, f: File, start: nat, data: seq<byte>, sec: nat, stale: seq<byte>)

  /** Where the part of a block begins that was written last. */
  function LastPart(start: nat, pos: nat, blksiz: nat): (from: nat)
    requires blksiz > 0 && pos > start
    ensures start <= from && from < pos
  {
    Floored(pos - 1, blksiz);
    if (pos - 1) / blksiz * blksiz > start then (pos - 1) / blksiz * blksiz else start
  }

  /**
   Up to where the file may have changed: not beyond pos, unless the block was
   there before and less than one sector of it was written, from where a sector
   begins; then to where that sector ends.
  */
  function Touched(c: Delivery, pos: nat): nat
    requires FormatOk(c.w0.d, c.m) && pos >= c.start
  {
    if pos == c.start then pos else
    var from := LastPart(c.start, pos, c.m.blksiz);
    if BlockFor(c.w0.d, c.m, c.f, pos - 1) != 0 && c.sec > 0 && from % c.sec == 0 && pos - from < c.sec then from + c.sec else pos
  }

  /** What is torn by a write within one block is what the buffer held. */
  ghost predicate Torn(c: Delivery, w: World, pos: nat)
    requires FormatOk(c.w0.d, c.m) && WorldOk(w, c.m) && c.start <= pos
  {
    |c.stale| == c.m.blksiz
    && forall p {:trigger FileByte(w, c.m, c.f, p)} :: pos <= p < Touched(c, pos) && LastPart(c.start, pos, c.m.blksiz) == c.start ==>
         FileByte(w, c.m, c.f, p) == Some(c.stale[p % c.m.blksiz])
  }

  /** Of the data, everything before pos has been written, and nothing else has changed but what is torn. */
  ghost predicate Delivered(c: Delivery, w: World, pos: nat) {
    && FormatOk(c.w0.d, c.m) && WorldOk(w, c.m) && c.start <= pos
    && Reads(c.w0, w, c.m, c.f, c.start, pos, Touched(c, pos), c.data) && SameBehind(c.w0.d, w.d, c.m, c.f, c.start, pos)
    && Torn(c, w, pos)
  }

  lemma {:induction false} DeliveryStart(c: Delivery)
    requires WorldOk(c.w0, c.m) && |c.stale| == c.m.blksiz
    ensures Delivered(c, c.w0, c.start)
  {
    hide FileByte;
    ReadsNothing(c.w0, c.m, c.f, c.start, c.data);
  }

  lemma {:induction false} DeliveredQuiet(c: Delivery, w: World, d: Disk, pos: nat)
    requires Delivered(c, w, pos) && Quiet(w.d, d, c.f) && Shape(d)
    ensures Delivered(c, World(d, w.bs), pos)
  {
    hide Reads, SameBehind, FileByte, Quiet, FormatOk;
    ReadsQuiet(c.w0, w, d, c.m, c.f, c.start, pos, Touched(c, pos), c.data);
    QuietBytes(w, d, c.m, c.f, c.f, 0);
    forall p: nat ensures FileByte(World(d, w.bs), c.m, c.f, p) == FileByte(w, c.m, c.f, p) { QuietBytes(w, d, c.m, c.f, c.f, p); }
  }

  /** A part of a block begins where the write does, or where a block does. */
  ghost predicate AtPart(c: Delivery, pos: nat) { c.m.blksiz > 0 && c.start <= pos && (pos == c.start || pos % c.m.blksiz == 0) }

  lemma {:induction false} PartIs(start: nat, pos: nat, n: nat, blksiz: nat)
    requires blksiz > 0 && start <= pos && (pos == start || pos % blksiz == 0) && n > 0 && pos % blksiz + n <= blksiz
    ensures LastPart(start, pos + n, blksiz) == pos && (pos + n - 1) / blksiz == pos / blksiz
  {
    var q, r := pos / blksiz, pos % blksiz;
    assert pos == q * blksiz + r;
    DivUnique(pos + n - 1, blksiz, q, r + n - 1);
  }

  /** Positions of the same block have the same block. */
  lemma {:induction false} OneBlock(d: Disk, m: Format, f: File, p: nat, q: nat)
    requires FormatOk(d, m) && p / m.blksiz == q / m.blksiz
    ensures BlockFor(d, m, f, p) == BlockFor(d, m, f, q)
  {
    hide FindExtent, Pointer, SlotNo;
    SamePlace(d, m, p, q);
    SlotFits(d, m, p);
    FindExtentSame(d, f, 0, p / 16384, q / 16384);
  }

  /** The block for the part to be written is there exactly if it was before. */
  lemma {:induction false} BlockAsBefore(c: Delivery, d: Disk, pos: nat, n: nat)
    requires SameBehind(c.w0.d, d, c.m, c.f, c.start, pos) && AtPart(c, pos) && n > 0 && pos % c.m.blksiz + n <= c.m.blksiz
    ensures BlockFor(d, c.m, c.f, pos) == BlockFor(c.w0.d, c.m, c.f, pos + n - 1)
  {
    hide BlockFor;
    PartIs(c.start, pos, n, c.m.blksiz);
    OneBlock(c.w0.d, c.m, c.f, pos, pos + n - 1);
    if c.start < pos { Boundary(pos, c.m.blksiz); }
  }

  lemma {:induction false} Boundary(pos: nat, n: nat)
    requires n > 0 && pos > 0 && pos % n == 0
    ensures pos / n != (pos - 1) / n
  {
    assert pos == pos / n * n;
    DivAtLeast(pos - 1, n, pos / n);
  }

  lemma {:induction false} TailIs(pos: nat, n: nat, blksiz: nat, sec: nat, isNew: bool)
    requires sec > 0 && blksiz > 0 && blksiz % sec == 0
    ensures pos - pos % blksiz + WrittenTo(pos % blksiz, n, sec, isNew) == if !isNew && pos % sec == 0 && n < sec then pos + sec else pos + n
  {
    SameRest(pos, 0, blksiz, sec);
    var a := pos % blksiz;
    if a % sec == 0 { Whole(a, sec); }
  }

  lemma {:induction false} PartTouched(c: Delivery, d: Disk, pos: nat, n: nat, isNew: bool)
    requires SameBehind(c.w0.d, d, c.m, c.f, c.start, pos) && AtPart(c, pos) && n > 0 && pos % c.m.blksiz + n <= c.m.blksiz
    requires c.sec > 0 && c.m.blksiz % c.sec == 0 && isNew == (BlockFor(d, c.m, c.f, pos) == 0)
    ensures Touched(c, pos + n) == pos - pos % c.m.blksiz + WrittenTo(pos % c.m.blksiz, n, c.sec, isNew)
  {
    hide BlockFor, WrittenTo;
    BlockAsBefore(c, d, pos, n);
    PartIs(c.start, pos, n, c.m.blksiz);
    TailIs(pos, n, c.m.blksiz, c.sec, isNew);
  }

  lemma {:induction false} InData(d: Disk, i: nat, k: nat)
    requires Consistent(d) && i < |d.dir| && Live(d.dir[i], d.hi) && k < Slots(d.size)
    ensures Pointer(d.dir[i], k, d.size) == 0 || d.dirblks <= Pointer(d.dir[i], k, d.size) < d.size
  {
    hide Pointer, Agrees;
    if Pointer(d.dir[i], k, d.size) != 0 { assert Holds(d, i, k, Pointer(d.dir[i], k, d.size)); }
  }

  /** The blocks of a file found lie in the data area. */
  lemma {:induction false} HeldInData(d: Disk, f: File, i: nat, x: nat, k: nat)
    requires Consistent(d) && FindExtent(d, f, 0, x) == i && k < Slots(d.size) && Consistent(ReachBlock(d, i, k))
    ensures Pointer(d.dir[i], k, d.size) == 0 || d.dirblks <= Pointer(d.dir[i], k, d.size) < d.size
    ensures var d' := ReachBlock(d, i, k); Pointer(d'.dir[i], k, d.size) == 0 || d.dirblks <= Pointer(d'.dir[i], k, d.size) < d.size
  {
    hide Pointer, Agrees, Sound, FindExtent, ReachBlock, SameText;
    FoundHit(d, f, 0, x);
    FillShape(d, i, k);
    FillLive(d, i, k);
    InData(d, i, k);
    InData(ReachBlock(d, i, k), i, k);
  }

  lemma {:induction false} FormatBefore(c: Delivery, w: World, pos: nat)
    requires Delivered(c, w, pos)
    ensures FormatOk(c.w0.d, c.m) && WorldOk(w, c.m) && c.start <= pos && c.m.blksiz > 0 && |w.bs| == w.d.size && |c.stale| == c.m.blksiz && Shape(w.d)
    ensures Reads(c.w0, w, c.m, c.f, c.start, pos, Touched(c, pos), c.data) && SameBehind(c.w0.d, w.d, c.m, c.f, c.start, pos)
  {
    hide Reads, SameBehind;
  }

  /** A part of a block: n bytes to the place of pos in slot k of entry i. */
  ghost predicate IsPart(c: Delivery, w: World, i: nat, k: nat, pos: nat, n: nat) {
    && c.m.blksiz > 0 && c.m.extcap > 0 && w.d.extents > 0 && c.sec > 0 && c.m.blksiz % c.sec == 0
    && AtPart(c, pos) && FindExtent(w.d, c.f, 0, pos / 16384) == i && k == SlotNo(c.m, pos) < Slots(w.d.size)
    && n > 0 && pos % c.m.blksiz + n <= c.m.blksiz && pos + n <= c.start + |c.data|
  }

  lemma {:induction false} PartTorn(c: Delivery, w: World, i: nat, k: nat, pos: nat, n: nat, t: nat, content: seq<byte>)
    requires FormatOk(c.w0.d, c.m) && WorldOk(w, c.m) && Consistent(w.d) && IsPart(c, w, i, k, pos, n) && |content| == c.m.blksiz
    requires w.d.dirblks <= Pointer(ReachBlock(w.d, i, k).dir[i], k, w.d.size) < w.d.size
    requires Touched(c, pos + n) == pos - pos % c.m.blksiz + t && t <= c.m.blksiz && |c.stale| == c.m.blksiz
    requires pos == c.start ==> forall o :: pos % c.m.blksiz + n <= o < t ==> content[o] == c.stale[o]
    ensures WorldOk(BlockWritten(w, i, k, content), c.m) && Torn(c, BlockWritten(w, i, k, content), pos + n)
  {
    hide FindExtent, Pointer, ReachBlock, SlotNo, Sound, Agrees, Touched, BlockWritten, FormatOk, FileByte, SameFile;
    var w', b, from, to := BlockWritten(w, i, k, content), c.m.blksiz, pos + n, Touched(c, pos + n);
    PartIs(c.start, pos, n, b);
    WriteBytes(w, c.m, c.f, i, k, pos, content, c.f, pos);
    forall p | from <= p < to && pos == c.start
      ensures FileByte(w', c.m, c.f, p) == Some(c.stale[p % b])
    {
      WriteBytes(w, c.m, c.f, i, k, pos, content, c.f, p);
      InBlock(p, pos, b);
      SameAsItself(c.f);
    }
  }

  lemma {:induction false} DeliveredNow(c: Delivery, w: World, pos: nat, tail: nat)
    requires FormatOk(c.w0.d, c.m) && WorldOk(w, c.m) && c.start <= pos && tail == Touched(c, pos)
    requires Reads(c.w0, w, c.m, c.f, c.start, pos, tail, c.data) && SameBehind(c.w0.d, w.d, c.m, c.f, c.start, pos) && Torn(c, w, pos)
    ensures Delivered(c, w, pos)
  {
    hide Reads, SameBehind, Torn, Touched, WorldOk, FormatOk;
  }

  lemma {:induction false} SameAsItself(f: File)
    ensures SameFile(f, f)
  {
  }

  /** One part more. */
  lemma {:induction false} PartDelivered(c: Delivery, w: World, i: nat, k: nat, pos: nat, n: nat, t: nat, content: seq<byte>)
    requires Delivered(c, w, pos) && Touched(c, pos) == pos && Consistent(w.d) && IsPart(c, w, i, k, pos, n) && |content| == c.m.blksiz
    requires Consistent(ReachBlock(w.d, i, k)) && Pointer(ReachBlock(w.d, i, k).dir[i], k, w.d.size) != 0
    requires Pointer(w.d.dir[i], k, w.d.size) < w.d.size && t == WrittenTo(pos % c.m.blksiz, n, c.sec, Pointer(w.d.dir[i], k, w.d.size) == 0)
    requires PartOf(content, Former(w, i, k, c.m.blksiz), pos % c.m.blksiz, n, t, c.data[pos - c.start..])
    requires pos == c.start ==> forall o :: pos % c.m.blksiz + n <= o < t ==> content[o] == c.stale[o]
    ensures Pointer(ReachBlock(w.d, i, k).dir[i], k, w.d.size) < w.d.size
    ensures Delivered(c, BlockWritten(w, i, k, content), pos + n)
  {
    hide WrittenTo, Reads, SameBehind, PartOf, Former, FindExtent, Pointer, ReachBlock, SlotNo, Sound, Agrees, Touched, BlockWritten, FormatOk, WorldOk,
         FileByte, Delivered;
    HeldInData(w.d, c.f, i, pos / 16384, k);
    FormatBefore(c, w, pos);
    var w' := BlockWritten(w, i, k, content);
    PartReads(w, c.m, c.f, i, k, pos, n, t, c.data[pos - c.start..], content);
    PartTouched(c, w.d, pos, n, Pointer(w.d.dir[i], k, w.d.size) == 0);
    ReadsMore(c.w0, w, w', c.m, c.f, c.start, pos, pos + n, Touched(c, pos + n), c.data);
    BehindMore(c.w0.d, w.d, w'.d, c.m, c.f, c.start, pos, pos + n);
    PartSizes(content, Former(w, i, k, c.m.blksiz), pos % c.m.blksiz, n, t, c.data[pos - c.start..]);
    PartTorn(c, w, i, k, pos, n, t, content);
    DeliveredNow(c, w', pos + n, Touched(c, pos + n));
  }

  lemma {:induction false} AtLeastSector(a: nat, b: nat, sec: nat)
    requires sec > 0 && a < b && a % sec == 0 && b % sec == 0
    ensures b - a >= sec
  {
    assert a == a / sec * sec && b == b / sec * sec;
    DivAtLeast(a, sec, b / sec);
    Product(a / sec + 1, b / sec, sec);
  }

  /** A part that fills its block tears nothing, and the next one begins a block. */
  lemma {:induction false} WholePart(c: Delivery, pos: nat, n: nat)
    requires FormatOk(c.w0.d, c.m) && AtPart(c, pos) && n > 0 && pos % c.m.blksiz + n == c.m.blksiz && c.sec > 0 && c.m.blksiz % c.sec == 0
    ensures Touched(c, pos + n) == pos + n && AtPart(c, pos + n)
  {
    hide BlockFor, LastPart;
    PartIs(c.start, pos, n, c.m.blksiz);
    FillsBlock(pos, n, c.m.blksiz, c.sec);
  }

  lemma {:induction false} FillsBlock(pos: nat, n: nat, b: nat, sec: nat)
    requires b > 0 && n > 0 && pos % b + n == b && sec > 0 && b % sec == 0
    ensures (pos + n) % b == 0 && (pos % sec == 0 ==> n >= sec)
  {
    SameRest(pos, 0, b, sec);
    if pos % b % sec == 0 { AtLeastSector(pos % b, b, sec); }
    NextBlockBegins(pos, n, b);
  }

  lemma {:induction false} NextBlockBegins(pos: nat, n: nat, b: nat)
    requires b > 0 && pos % b + n == b
    ensures (pos + n) % b == 0
  {
    var q := pos / b;
    assert pos == q * b + pos % b;
    DivUnique(pos + n, b, q + 1, 0);
  }

  // ------------------------------------------------------- step by step

  /** The data are those of the job, and end within what extent numbers can count. */
  ghost predicate Tied(j: Job, c: Delivery) {
    c.f == j.f && c.start == j.start && c.start + |c.data| <= 0x2000000 && c.m == Format(j.blksiz, j.extcap)
  }

  /**
   What a write is for: whether the file is there, whether it is in order,
   whether its entries cover as many bytes as their logical extents have, and
   what is to be written.
  */
  datatype Aim = Aim(live: bool, good: bool, fit: bool, j: Job, c: Delivery)

  ghost predicate Aimed(a: Aim) {
    (a.good ==> Consistent(a.j.d0) && a.live && a.c.start + |a.c.data| <= 0x2000000) && (a.fit ==> a.good && Tied(a.j, a.c))
  }

  /** The entry that has been found: by number x, for position q; it ends at next. */
  datatype Found = Found(extent: int, x: nat, q: nat, next: nat)

  const NOWHERE := Found(-1, 0, 0, 0)

  /** Nothing is torn so far, and what comes next begins where the write or a block does. */
  ghost predicate Between(c: Delivery, pos: nat) {
    FormatOk(c.w0.d, c.m) && AtPart(c, pos) && Touched(c, pos) == pos
  }

  lemma {:induction false} BetweenStart(c: Delivery)
    requires WorldOk(c.w0, c.m) && |c.stale| == c.m.blksiz
    ensures Delivered(c, c.w0, c.start) && Between(c, c.start)
  {
    hide Delivered;
    DeliveryStart(c);
  }

  lemma {:induction false} ReachDelivers(j: Job, c: Delivery, w: World, pos: nat)
    requires Progressed(j, w.d, pos) && Delivered(c, w, pos) && Shape(w.d) && j.ino < |w.d.dir| && c.f == j.f && pos < 0x2000000
    ensures Delivered(c, World(ReachExtent(w.d, j.ino, pos / 16384).0, w.bs), pos)
  {
    hide Delivered, Consistent, Kept, Tidy, Mapped, Recorded, Quiet, ReachExtent, Regular;
    ReachQuiet(w.d, j.ino, j.f, pos / 16384);
    DeliveredQuiet(c, w, ReachExtent(w.d, j.ino, pos / 16384).0, pos);
  }

  lemma {:induction false} MeasureDelivers(j: Job, c: Delivery, w: World, i: nat, x: nat, q: nat, from: nat, next: nat, pos: nat, exact: bool)
    requires Located(j, w.d, i, x, q, from, next) && Delivered(c, w, pos) && Shape(w.d) && c.f == j.f && from < pos <= 0x2000000
    ensures Delivered(c, World(Step(w.d, Measurement(i, x, pos, exact)), w.bs), pos)
  {
    hide Delivered, Quiet, Measurement, Step, FindExtent;
    MeasureQuiet(w.d, i, x, pos, c.f, exact);
    ShapeKept(w.d, Measurement(i, x, pos, exact));
    DeliveredQuiet(c, w, Step(w.d, Measurement(i, x, pos, exact)), pos);
  }

  /** A part of a block written to entry i where the file is: it is delivered. */
  lemma {:induction false} PartGoes(c: Delivery, j: Job, w: World, w': World, i: nat, k: nat, x: nat, q: nat, pos: nat, next: nat, n: nat, rest: seq<byte>,
      held: seq<byte>, block: nat, isNew: bool)
    requires Delivered(c, w, pos) && Between(c, pos) && Tied(j, c) && Consistent(w.d) && i < |w.d.dir| && k < Slots(w.d.size)
    requires w'.d == ReachBlock(w.d, i, k) && Progressed(j, w'.d, pos) && Located(j, w'.d, i, x, q, pos, next) && IsSlot(k, pos, c.m.extcap, c.m.blksiz)
    requires block == Pointer(w'.d.dir[i], k, w.d.size) && block != 0 && isNew == (Pointer(w.d.dir[i], k, w.d.size) == 0)
    requires c.sec > 0 && c.m.blksiz % c.sec == 0 && rest != [] && n == PartLength(pos % c.m.blksiz, |rest|, c.m.blksiz) && rest == c.data[pos - c.start..]
    requires c.start <= pos <= c.start + |c.data| && |held| == c.m.blksiz && (pos == c.start ==> held == c.stale)
    requires Rewritten(w.bs, w'.bs, block, isNew, pos % c.m.blksiz, n, WrittenTo(pos % c.m.blksiz, n, c.sec, isNew), rest, held)
    ensures Delivered(c, w', pos + n) && (n < |rest| ==> Between(c, pos + n))
  {
    hide Delivered, Touched, Consistent, Progressed, FindExtent, ReachBlock, Pointer, Rewritten, WrittenTo, Slots, PartLength, SlotNo,
         Located, IsSlot, IsPart, Former, PartOf, BlockWritten, AtPart, WorldOk, Reads, SameBehind;
    PartFits(pos % c.m.blksiz, |rest|, n, c.m.blksiz);
    FormatBefore(c, w, pos);
    assert Shape(w.d);
    PartPlace(c, j, w, i, k, x, q, pos, next, n);
    PartContent(c.m, w, w', i, k, block, isNew, pos % c.m.blksiz, n, WrittenTo(pos % c.m.blksiz, n, c.sec, isNew), rest, held);
    PartDelivered(c, w, i, k, pos, n, WrittenTo(pos % c.m.blksiz, n, c.sec, isNew), w'.bs[block]);
    if n < |rest| { WholePart(c, pos, n); }
  }

  lemma {:induction false} PartPlace(c: Delivery, j: Job, w: World, i: nat, k: nat, x: nat, q: nat, pos: nat, next: nat, n: nat)
    requires Shape(w.d) && i < |w.d.dir| && k < Slots(w.d.size) && c.sec > 0 && c.m.blksiz > 0 && c.m.blksiz % c.sec == 0
    requires Tied(j, c) && Between(c, pos) && n > 0 && pos % c.m.blksiz + n <= c.m.blksiz && pos + n <= c.start + |c.data|
    requires Progressed(j, ReachBlock(w.d, i, k), pos) && Located(j, ReachBlock(w.d, i, k), i, x, q, pos, next) && IsSlot(k, pos, c.m.extcap, c.m.blksiz)
    ensures IsPart(c, w, i, k, pos, n) && Consistent(ReachBlock(w.d, i, k))
  {
    hide Kept, Tidy, Mapped, Recorded, FindExtent, ReachBlock, LookupOf, Sound, Agrees, Touched, FormatOk;
    FillFind(w.d, i, k, j.f, x);
    FillShape(w.d, i, k);
    SameFound(w.d, j.f, q, pos, j.blksiz, j.extcap);
  }

  lemma {:induction false} PartContent(m: Format, w: World, w': World, i: nat, k: nat, block: nat, isNew: bool, a: nat, n: nat, t: nat,
      rest: seq<byte>, held: seq<byte>)
    requires WorldOk(w, m) && i < |w.d.dir| && k < Slots(w.d.size) && |held| == m.blksiz
    requires w'.d == ReachBlock(w.d, i, k) && block == Pointer(w'.d.dir[i], k, w.d.size) && isNew == (Pointer(w.d.dir[i], k, w.d.size) == 0)
    requires block != 0 && Rewritten(w.bs, w'.bs, block, isNew, a, n, t, rest, held)
    ensures Pointer(w.d.dir[i], k, w.d.size) < w.d.size && block < w.d.size && |w'.bs| == w.d.size && |w'.bs[block]| == m.blksiz
    ensures w' == BlockWritten(w, i, k, w'.bs[block]) && PartOf(w'.bs[block], Former(w, i, k, m.blksiz), a, n, t, rest)
    ensures forall o :: a + n <= o < t ==> w'.bs[block][o] == held[o]
  {
    hide PartOf, Pointer, ReachBlock;
    SlotNow(w.d, i, k);
  }

  /** What is in a slot once it has been filled. */
  lemma {:induction false} SlotNow(d: Disk, i: nat, k: nat)
    requires Shape(d) && i < |d.dir| && k < Slots(d.size)
    ensures var d', b := ReachBlock(d, i, k), Pointer(d.dir[i], k, d.size);
            && d'.size == d.size && |d'.dir| == |d.dir| && (b == 0 && NextBlock(d) == -1 ==> d' == d)
            && Pointer(d'.dir[i], k, d.size) == if b != 0 || NextBlock(d) == -1 then b else NextBlock(d)
  {
    hide NextBlock;
  }

  lemma {:induction false} PartFits(a: nat, count: nat, n: nat, blksiz: nat)
    requires a < blksiz && count > 0 && n == PartLength(a, count, blksiz)
    ensures 0 < n <= count && a + n <= blksiz && (n < count ==> a + n == blksiz)
  {
  }

  lemma {:induction false} EndAway(end: nat, pos: nat, n: nat)
    requires IsEnd(end, pos, n)
    ensures n > 0 && end - pos == n - pos % n
  {
    assert pos == pos / n * n + pos % n;
  }

  ghost predicate IsEnd(end: nat, pos: nat, n: nat) { n > 0 && end == pos / n * n + n }

  ghost predicate IsSlot(k: nat, pos: nat, extcap: nat, blksiz: nat) { extcap > 0 && blksiz > 0 && k == pos % extcap / blksiz }
}
