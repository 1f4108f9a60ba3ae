/**
 The bytes of all files of a disk, position by position, and what the steps of
 a write do to them.
*/
module CpmBytes {
  import opened Bits
  import opened Wrappers
  import opened Division
  import opened CpmDirectory
  import opened CpmFiles
  import opened CpmLayout
  import opened CpmWritten

  /** A disk and the bytes of its blocks. */
  datatype World = World(d: Disk, bs: seq<seq<byte>>)

  /** Block size, and bytes covered by an entry: as many as its logical extents have. */
  datatype Format = Format(blksiz: nat, extcap: nat)

  predicate FormatOk(d: Disk, m: Format) {
    && m.blksiz > 0 && m.extcap > 0 && m.extcap % m.blksiz == 0 && d.extents > 0 && m.extcap == 16384 * d.extents
    && m.extcap <= Slots(d.size) * m.blksiz
  }

  predicate WorldOk(w: World, m: Format) {
    Shape(w.d) && FormatOk(w.d, m) && |w.bs| == w.d.size && forall b :: 0 <= b < |w.bs| ==> |w.bs[b]| == m.blksiz
  }

  /** The slot for position p. */
  function SlotNo(m: Format, p: nat): nat
    requires m.blksiz > 0 && m.extcap > 0
  {
    p % m.extcap / m.blksiz
  }

  lemma {:induction false} SlotFits(d: Disk, m: Format, p: nat)
    requires FormatOk(d, m)
    ensures SlotNo(m, p) < Slots(d.size)
  {
    DivAtLeast(p % m.extcap, m.blksiz, Slots(d.size));
  }

  /** The block of position p of file f; 0 if it has none. */
  function BlockFor(d: Disk, m: Format, f: File, p: nat): nat
    requires FormatOk(d, m)
  {
    var i := FindExtent(d, f, 0, p / 16384);
    SlotFits(d, m, p);
    if i == -1 then 0 else Pointer(d.dir[i], SlotNo(m, p), d.size)
  }

  /** Byte p of file f: zero where there is no block, None where the block is no data block. */
  function FileByte(w: World, m: Format, f: File, p: nat): Option<byte>
    requires WorldOk(w, m)
  {
    var b := BlockFor(w.d, m, f, p);
    if b == 0 then Some(0) else if b < w.d.dirblks || b >= w.d.size then None else Some(w.bs[b][p % m.blksiz])
  }

  // ------------------------------------------------------------ whose entries

  lemma {:induction false} OneFile(e: Entry, f: File, g: File, hi: bool)
    requires Matches(e, f, hi)
    ensures Matches(e, g, hi) <==> SameFile(f, g)
  {
  }

  lemma {:induction false} SameFind(d: Disk, d': Disk, f: File, f': File, x: nat, start: nat)
    requires d.extents > 0 && d'.extents > 0 && |d'.dir| == |d.dir| && start <= |d.dir|
    requires forall i :: 0 <= i < |d.dir| ==> (Hit(d', f', x, i) <==> Hit(d, f, x, i))
    ensures FindExtent(d', f', start, x) == FindExtent(d, f, start, x)
    decreases |d.dir| - start
  {
    hide Hit;
    if start < |d.dir| {
      FindStep(d, f, start, x);
      FindStep(d', f', start, x);
      SameFind(d, d', f, f', x, start + 1);
    }
  }

  /** A file is found by any of its names. */
  lemma {:induction false} SameFileFind(d: Disk, f: File, g: File, x: nat)
    requires d.extents > 0 && SameFile(f, g)
    ensures FindExtent(d, g, 0, x) == FindExtent(d, f, 0, x)
  {
    forall i | 0 <= i < |d.dir| ensures Hit(d, g, x, i) <==> Hit(d, f, x, i) {}
    SameFind(d, d, f, g, x, 0);
  }

  /** A step of writing f leaves the entries of any other file as they are. */
  lemma {:induction false} OtherFind(d: Disk, d': Disk, f: File, g: File, x: nat)
    requires Grows(d, d', f) && !SameFile(f, g)
    ensures var i := FindExtent(d', g, 0, x); i == FindExtent(d, g, 0, x) && (i != -1 ==> d'.dir[i] == d.dir[i])
  {
    hide FindExtent, ExtentOf, SameText;
    forall i | 0 <= i < |d.dir| ensures Hit(d', g, x, i) <==> Hit(d, g, x, i) { OtherHit(d, d', f, g, x, i); }
    SameFind(d, d', g, g, x, 0);
    var i := FindExtent(d, g, 0, x);
    if i != -1 {
      FoundHit(d, g, 0, x);
      OtherHit(d, d', f, g, x, i);
    }
  }

  lemma {:induction false} OtherHit(d: Disk, d': Disk, f: File, g: File, x: nat, i: nat)
    requires Grows(d, d', f) && !SameFile(f, g) && i < |d.dir|
    ensures Hit(d', g, x, i) <==> Hit(d, g, x, i)
    ensures Hit(d, g, x, i) ==> d'.dir[i] == d.dir[i]
  {
    hide FindExtent, ExtentOf, SameText, SameFile;
    assert GrowsAt(d, d', f, i);
    if Matches(d.dir[i], f, d.hi) { OneFile(d.dir[i], f, g, d.hi); }
    if Matches(d'.dir[i], f, d.hi) { OneFile(d'.dir[i], f, g, d.hi); }
  }

  // -------------------------------------------------------------- quiet steps

  /** A step of writing f that gives and takes no block. */
  ghost predicate Quiet(d: Disk, d': Disk, f: File) {
    Grows(d, d', f) && forall i, k {:trigger Pointer(d'.dir[i], k, d.size)} :: 0 <= i < |d.dir| && 0 <= k < Slots(d.size) ==>
      if Matches(d.dir[i], f, d.hi) then Pointer(d'.dir[i], k, d.size) == Pointer(d.dir[i], k, d.size)
      else d'.dir[i] == d.dir[i] || Pointer(d'.dir[i], k, d.size) == 0
  }

  lemma {:induction false} NewHit(d: Disk, d': Disk, f: File, x: nat, j: nat)
    requires Grows(d, d', f) && j < |d.dir| && Hit(d', f, x, j) && !Hit(d, f, x, j)
    ensures !Matches(d.dir[j], f, d.hi) && d'.dir[j] != d.dir[j]
  {
    hide FindExtent, ExtentOf, SameText;
    assert GrowsAt(d, d', f, j);
  }

  lemma {:induction false} QuietBlock(d: Disk, d': Disk, m: Format, f: File, g: File, p: nat)
    requires Quiet(d, d', f) && FormatOk(d, m)
    ensures FormatOk(d', m) && BlockFor(d', m, g, p) == BlockFor(d, m, g, p)
  {
    hide FindExtent, ExtentOf, SameText, Pointer, Matches, SameFile, GrowsAt, SlotNo;
    SlotFits(d, m, p);
    var x := p / 16384;
    if !SameFile(f, g) {
      OtherFind(d, d', f, g, x);
    } else {
      SameFileFind(d, f, g, x);
      SameFileFind(d', f, g, x);
      if FindExtent(d, f, 0, x) != -1 {
        FoundKept(d, d', f, x, 0);
        FoundHit(d, f, 0, x);
      } else if FindExtent(d', f, 0, x) != -1 {
        FoundHit(d', f, 0, x);
        FindNone(d, f, 0, x);
        NewHit(d, d', f, x, FindExtent(d', f, 0, x));
      }
    }
  }

  // ------------------------------------------------------------- a block more

  /** Positions are in the same block exactly if entry and slot are the same. */
  lemma {:induction false} SamePlace(d: Disk, m: Format, p: nat, q: nat)
    requires FormatOk(d, m)
    ensures p / m.blksiz == q / m.blksiz <==> p / 16384 / d.extents == q / 16384 / d.extents && SlotNo(m, p) == SlotNo(m, q)
  {
    DivDiv(p, 16384, d.extents);
    DivDiv(q, 16384, d.extents);
    var n, c := m.blksiz, m.extcap;
    SlotOf(p, n, c);
    SlotOf(q, n, c);
    if p / n == q / n { SameRegion(p, q, n, c); }
  }

  lemma {:induction false} FillHit(d: Disk, i: nat, k: nat, f: File, x: nat, n: nat)
    requires Shape(d) && i < |d.dir| && k < Slots(d.size) && n < |d.dir|
    ensures Hit(ReachBlock(d, i, k), f, x, n) <==> Hit(d, f, x, n)
  {
    hide FindExtent, SameText, Pointer, NextBlock;
  }

  lemma {:induction false} FillFind(d: Disk, i: nat, k: nat, f: File, x: nat)
    requires Shape(d) && i < |d.dir| && k < Slots(d.size)
    ensures FindExtent(ReachBlock(d, i, k), f, 0, x) == FindExtent(d, f, 0, x)
  {
    hide Hit, ReachBlock;
    var d' := ReachBlock(d, i, k);
    FillShape(d, i, k);
    forall n | 0 <= n < |d.dir| ensures Hit(d', f, x, n) <==> Hit(d, f, x, n) { FillHit(d, i, k, f, x, n); }
    SameFind(d, d', f, f, x, 0);
  }

  lemma {:induction false} FillShape(d: Disk, i: nat, k: nat)
    requires Shape(d) && i < |d.dir| && k < Slots(d.size)
    ensures var r := ReachBlock(d, i, k); r.size == d.size && r.extents == d.extents && r.dirblks == d.dirblks && r.hi == d.hi && |r.dir| == |d.dir|
  {
    hide Pointer, NextBlock;
  }

  lemma {:induction false} FilledOwn(d: Disk, m: Format, f: File, i: nat, k: nat, q: nat, p: nat)
    requires Consistent(d) && FormatOk(d, m) && FindExtent(d, f, 0, q / 16384) == i && k == SlotNo(m, q) < Slots(d.size)
    ensures var d' := ReachBlock(d, i, k);
            && FormatOk(d', m)
            && BlockFor(d', m, f, p) == (if p / m.blksiz == q / m.blksiz then Pointer(d'.dir[i], k, d.size) else BlockFor(d, m, f, p))
            && (p / m.blksiz == q / m.blksiz ==> BlockFor(d, m, f, p) == Pointer(d.dir[i], k, d.size))
  {
    hide FindExtent, ExtentOf, Pointer, Matches, Agrees, Sound, NextBlock, Grows, SameLengths, ReachBlock, SlotNo;
    SlotFits(d, m, p);
    var x := p / 16384;
    FoundHit(d, f, 0, q / 16384);
    FillGrows(d, i, k, f);
    FillShape(d, i, k);
    FillFind(d, i, k, f, x);
    SamePlace(d, m, p, q);
    var n := FindExtent(d, f, 0, x);
    if p / m.blksiz == q / m.blksiz {
      FindExtentSame(d, f, 0, x, q / 16384);
    } else if n != -1 {
      FoundHit(d, f, 0, x);
      FillOthers(d, i, k, n);
    }
  }

  /** Filling a slot gives its block to the positions of one block of the file, and to no others. */
  lemma {:induction false} FilledBlock(d: Disk, m: Format, f: File, i: nat, k: nat, q: nat, g: File, p: nat)
    requires Consistent(d) && FormatOk(d, m) && FindExtent(d, f, 0, q / 16384) == i && k == SlotNo(m, q) < Slots(d.size)
    ensures var d', own := ReachBlock(d, i, k), SameFile(f, g) && p / m.blksiz == q / m.blksiz;
            && FormatOk(d', m) && BlockFor(d', m, g, p) == (if own then Pointer(d'.dir[i], k, d.size) else BlockFor(d, m, g, p))
            && (own ==> BlockFor(d, m, g, p) == Pointer(d.dir[i], k, d.size))
  {
    hide FindExtent, Pointer, SameFile, Agrees, Sound, NextBlock, SameLengths, ReachBlock, SlotNo, SameText, ExtentOf, GrowsAt;
    SlotFits(d, m, p);
    FilledOwn(d, m, f, i, k, q, p);
    if SameFile(f, g) {
      SameFileFind(d, f, g, p / 16384);
      SameFileFind(ReachBlock(d, i, k), f, g, p / 16384);
    } else {
      FoundHit(d, f, 0, q / 16384);
      FillGrows(d, i, k, f);
      OtherFind(d, ReachBlock(d, i, k), f, g, p / 16384);
    }
  }

  lemma {:induction false} FillOthers(d: Disk, i: nat, k: nat, n: nat)
    requires Shape(d) && i < |d.dir| && k < Slots(d.size) && n < |d.dir|
    ensures n != i ==> ReachBlock(d, i, k).dir[n] == d.dir[n]
  {
    hide Pointer, NextBlock;
  }

  lemma {:induction false} FoundHolds(d: Disk, m: Format, g: File, p: nat)
    requires FormatOk(d, m) && BlockFor(d, m, g, p) != 0
    ensures var i := FindExtent(d, g, 0, p / 16384);
            0 <= i < |d.dir| && Hit(d, g, p / 16384, i) && SlotNo(m, p) < Slots(d.size) && Holds(d, i, SlotNo(m, p), BlockFor(d, m, g, p))
  {
    hide FindExtent, ExtentOf, SameText, Pointer, SlotNo;
    SlotFits(d, m, p);
    FoundHit(d, g, 0, p / 16384);
  }

  /** What the slots hold after filling one. */
  lemma {:induction false} FillHolds(d: Disk, i: nat, k: nat, n: nat, s: nat, b: nat)
    requires Shape(d) && i < |d.dir| && k < Slots(d.size) && Holds(d, n, s, b)
    ensures Holds(ReachBlock(d, i, k), n, s, b)
  {
    hide NextBlock;
  }

  /** No other position has the block that was filled. */
  lemma {:induction false} DistinctBlock(d: Disk, m: Format, f: File, i: nat, k: nat, q: nat, g: File, p: nat)
    requires Consistent(d) && FormatOk(d, m) && FindExtent(d, f, 0, q / 16384) == i && k == SlotNo(m, q) < Slots(d.size)
    requires !(SameFile(f, g) && p / m.blksiz == q / m.blksiz) && BlockFor(d, m, g, p) != 0
    ensures BlockFor(d, m, g, p) != Pointer(ReachBlock(d, i, k).dir[i], k, d.size)
  {
    hide FindExtent, ExtentOf, SameText, Pointer, Agrees, NextBlock, ReachBlock, SlotNo, BlockFor;
    var d', b, n, s := ReachBlock(d, i, k), BlockFor(d, m, g, p), FindExtent(d, g, 0, p / 16384), SlotNo(m, p);
    FoundHit(d, f, 0, q / 16384);
    FoundHolds(d, m, g, p);
    FilledConsistent(d, i, k);
    FillShape(d, i, k);
    FillHolds(d, i, k, n, s, b);
    FillLive(d, i, k);
    if b == Pointer(d'.dir[i], k, d.size) {
      assert Holds(d', i, k, b) && Holds(d', n, s, b);
      OneFile(d.dir[i], f, g, d.hi);
      SamePlace(d, m, p, q);
      assert false;
    }
  }

  lemma {:induction false} FillLive(d: Disk, i: nat, k: nat)
    requires Shape(d) && i < |d.dir| && k < Slots(d.size)
    ensures ReachBlock(d, i, k).dir[i].status == d.dir[i].status
  {
    hide Pointer, NextBlock;
  }

  // ------------------------------------------------------------------- worlds

  /** Steps that give and take no block change no byte of any file. */
  lemma {:induction false} QuietBytes(w: World, d': Disk, m: Format, f: File, g: File, p: nat)
    requires WorldOk(w, m) && Quiet(w.d, d', f) && Shape(d')
    ensures WorldOk(World(d', w.bs), m) && FileByte(World(d', w.bs), m, g, p) == FileByte(w, m, g, p)
  {
    hide BlockFor, Quiet;
    QuietBlock(w.d, d', m, f, g, p);
    QuietShape(w.d, d', f);
  }

  lemma {:induction false} QuietShape(d: Disk, d': Disk, f: File)
    requires Quiet(d, d', f)
    ensures d'.size == d.size && d'.extents == d.extents && d'.dirblks == d.dirblks
  {
    hide GrowsAt, Matches, Pointer;
  }

  /** The world after slot k of entry i has been filled, if need be, and its block written with c. */
  function BlockWritten(w: World, i: nat, k: nat, c: seq<byte>): World
    requires Shape(w.d) && i < |w.d.dir| && k < Slots(w.d.size) && |w.bs| == w.d.size
    requires Pointer(ReachBlock(w.d, i, k).dir[i], k, w.d.size) < w.d.size
  {
    var d' := ReachBlock(w.d, i, k);
    World(d', w.bs[Pointer(d'.dir[i], k, w.d.size) := c])
  }

  /** Writing the block of position q of file f changes the bytes of that block of that file, and no others. */
  lemma {:induction false} WriteBytes(w: World, m: Format, f: File, i: nat, k: nat, q: nat, c: seq<byte>, g: File, p: nat)
    requires WorldOk(w, m) && Consistent(w.d) && |c| == m.blksiz
    requires FindExtent(w.d, f, 0, q / 16384) == i && k == SlotNo(m, q) < Slots(w.d.size)
    requires w.d.dirblks <= Pointer(ReachBlock(w.d, i, k).dir[i], k, w.d.size) < w.d.size
    ensures var w' := BlockWritten(w, i, k, c);
            && WorldOk(w', m)
            && FileByte(w', m, g, p) == (if SameFile(f, g) && p / m.blksiz == q / m.blksiz then Some(c[p % m.blksiz]) else FileByte(w, m, g, p))
  {
    hide BlockFor, ReachBlock, Pointer, FindExtent, SlotNo, SameFile, Agrees, Sound;
    var d' := ReachBlock(w.d, i, k);
    FillShape(w.d, i, k);
    FilledBlock(w.d, m, f, i, k, q, g, p);
    if !(SameFile(f, g) && p / m.blksiz == q / m.blksiz) && BlockFor(w.d, m, g, p) != 0 {
      DistinctBlock(w.d, m, f, i, k, q, g, p);
    }
  }

  // -------------------------------------------------------- what a write does

  /** Byte p of file g: new from lo to hi in file f, perhaps lost from there to tail, and else as before. */
  ghost predicate ReadsAt(w0: World, w: World, m: Format, f: File, lo: nat, hi: nat, tail: nat, data: seq<byte>, g: File, p: nat)
    requires WorldOk(w0, m) && WorldOk(w, m) && lo <= hi <= lo + |data|
  {
    if SameFile(f, g) && lo <= p < hi then FileByte(w, m, g, p) == Some(data[p - lo])
    else (SameFile(f, g) && hi <= p < tail) || FileByte(w, m, g, p) == FileByte(w0, m, g, p)
  }

  ghost predicate Reads(w0: World, w: World, m: Format, f: File, lo: nat, hi: nat, tail: nat, data: seq<byte>) {
    && WorldOk(w0, m) && WorldOk(w, m) && lo <= hi <= lo + |data| && hi <= tail
    && (forall g: File, p: nat {:trigger ReadsAt(w0, w, m, f, lo, hi, tail, data, g, p)} :: ReadsAt(w0, w, m, f, lo, hi, tail, data, g, p))
  }

  /** The file has blocks behind hi where it had them before, but in the block that hi is in. */
  ghost predicate SameBehind(d0: Disk, d: Disk, m: Format, f: File, lo: nat, hi: nat) {
    && FormatOk(d0, m) && FormatOk(d, m)
    && forall p: nat {:trigger BlockFor(d, m, f, p)} :: hi <= p && (lo < hi ==> p / m.blksiz != (hi - 1) / m.blksiz) ==>
         BlockFor(d, m, f, p) == BlockFor(d0, m, f, p)
  }

  lemma {:induction false} ReadsNothing(w: World, m: Format, f: File, lo: nat, data: seq<byte>)
    requires WorldOk(w, m)
    ensures Reads(w, w, m, f, lo, lo, lo, data) && SameBehind(w.d, w.d, m, f, lo, lo)
  {
    hide FileByte, SameFile, BlockFor;
  }

  lemma {:induction false} ReadsQuiet(w0: World, w: World, d': Disk, m: Format, f: File, lo: nat, hi: nat, tail: nat, data: seq<byte>)
    requires Reads(w0, w, m, f, lo, hi, tail, data) && SameBehind(w0.d, w.d, m, f, lo, hi) && Quiet(w.d, d', f) && Shape(d')
    ensures Reads(w0, World(d', w.bs), m, f, lo, hi, tail, data) && SameBehind(w0.d, d', m, f, lo, hi)
  {
    hide FileByte, SameFile, BlockFor, Quiet;
    var w' := World(d', w.bs);
    QuietBytes(w, d', m, f, f, 0);
    forall g: File, p: nat ensures ReadsAt(w0, w', m, f, lo, hi, tail, data, g, p) {
      assert ReadsAt(w0, w, m, f, lo, hi, tail, data, g, p);
      QuietBytes(w, d', m, f, g, p);
    }
    QuietBlock(w.d, d', m, f, f, 0);
    forall p: nat | hi <= p && (lo < hi ==> p / m.blksiz != (hi - 1) / m.blksiz) ensures BlockFor(d', m, f, p) == BlockFor(w0.d, m, f, p) {
      QuietBlock(w.d, d', m, f, f, p);
    }
  }

  /** One part after another. */
  lemma {:induction false} ReadsMore(w0: World, w: World, w': World, m: Format, f: File, lo: nat, mid: nat, hi: nat, tail: nat, data: seq<byte>)
    requires Reads(w0, w, m, f, lo, mid, mid, data) && hi <= lo + |data| && Reads(w, w', m, f, mid, hi, tail, data[mid - lo..])
    ensures Reads(w0, w', m, f, lo, hi, tail, data)
  {
    hide FileByte, SameFile;
    forall g: File, p: nat ensures ReadsAt(w0, w', m, f, lo, hi, tail, data, g, p) {
      assert ReadsAt(w0, w, m, f, lo, mid, mid, data, g, p);
      assert ReadsAt(w, w', m, f, mid, hi, tail, data[mid - lo..], g, p);
    }
  }

  lemma {:induction false} BehindMore(d0: Disk, d: Disk, d': Disk, m: Format, f: File, lo: nat, mid: nat, hi: nat)
    requires SameBehind(d0, d, m, f, lo, mid) && SameBehind(d, d', m, f, mid, hi) && lo <= mid < hi
    ensures SameBehind(d0, d', m, f, lo, hi)
  {
    hide BlockFor;
    forall p: nat | hi <= p && p / m.blksiz != (hi - 1) / m.blksiz ensures BlockFor(d', m, f, p) == BlockFor(d0, m, f, p) {
      DivMono(hi - 1, p, m.blksiz);
      if lo < mid { DivMono(mid - 1, hi - 1, m.blksiz); }
      assert BlockFor(d', m, f, p) == BlockFor(d, m, f, p);
    }
  }

  /** Block contents c: data from a on for n bytes, anything from there to t, and else what was there before. */
  ghost predicate PartOf(c: seq<byte>, before: seq<byte>, a: nat, n: nat, t: nat, data: seq<byte>) {
    && |c| == |before| && a + n <= t <= |c| && n <= |data|
    && forall o :: 0 <= o < |c| ==> if a <= o < a + n then c[o] == data[o - a] else a + n <= o < t || c[o] == before[o]
  }

  /** What the block of slot k of entry i has in it before: zeros if there is none. */
  function Former(w: World, i: nat, k: nat, n: nat): seq<byte>
    requires i < |w.d.dir| && k < Slots(w.d.size) && |w.bs| == w.d.size && Pointer(w.d.dir[i], k, w.d.size) < w.d.size
  {
    if Pointer(w.d.dir[i], k, w.d.size) == 0 then Repeat<byte>(0, n) else w.bs[Pointer(w.d.dir[i], k, w.d.size)]
  }

  lemma {:induction false} FormerIs(w: World, m: Format, f: File, i: nat, k: nat, q: nat, p: nat)
    requires WorldOk(w, m) && Consistent(w.d) && p / m.blksiz == q / m.blksiz
    requires FindExtent(w.d, f, 0, q / 16384) == i && k == SlotNo(m, q) < Slots(w.d.size)
    requires Pointer(w.d.dir[i], k, w.d.size) == 0 || w.d.dirblks <= Pointer(w.d.dir[i], k, w.d.size) < w.d.size
    ensures |Former(w, i, k, m.blksiz)| == m.blksiz && FileByte(w, m, f, p) == Some(Former(w, i, k, m.blksiz)[p % m.blksiz])
  {
    hide BlockFor, ReachBlock, Pointer, FindExtent, SlotNo, Agrees, Sound;
    FilledOwn(w.d, m, f, i, k, q, p);
  }

  lemma {:induction false} InBlock(p: nat, q: nat, b: nat)
    requires b > 0
    ensures p / b == q / b ==> p == q - q % b + p % b
    ensures q - q % b <= p < q - q % b + b ==> p / b == q / b && p % b == p - (q - q % b)
  {
    assert q == q / b * b + q % b && p == p / b * b + p % b;
    if q - q % b <= p < q - q % b + b { DivUnique(p, b, q / b, p - (q - q % b)); }
  }

  lemma {:induction false} SameFileByte(w: World, m: Format, f: File, g: File, p: nat)
    requires WorldOk(w, m) && SameFile(f, g)
    ensures FileByte(w, m, g, p) == FileByte(w, m, f, p)
  {
    SameFileFind(w.d, f, g, p / 16384);
    hide FindExtent, Pointer, SameFile;
  }

  lemma {:induction false} PartAt(w: World, m: Format, f: File, i: nat, k: nat, q: nat, n: nat, t: nat, data: seq<byte>, c: seq<byte>, g: File, p: nat)
    requires WorldOk(w, m) && Consistent(w.d) && FindExtent(w.d, f, 0, q / 16384) == i && k == SlotNo(m, q) < Slots(w.d.size)
    requires w.d.dirblks <= Pointer(ReachBlock(w.d, i, k).dir[i], k, w.d.size) < w.d.size && WorldOk(BlockWritten(w, i, k, c), m)
    requires Pointer(w.d.dir[i], k, w.d.size) == 0 || w.d.dirblks <= Pointer(w.d.dir[i], k, w.d.size) < w.d.size
    requires n > 0 && PartOf(c, Former(w, i, k, m.blksiz), q % m.blksiz, n, t, data) && |c| == m.blksiz
    requires FileByte(BlockWritten(w, i, k, c), m, g, p)
          == (if SameFile(f, g) && p / m.blksiz == q / m.blksiz then Some(c[p % m.blksiz]) else FileByte(w, m, g, p))
    ensures n <= |data| && ReadsAt(w, BlockWritten(w, i, k, c), m, f, q, q + n, q - q % m.blksiz + t, data, g, p)
  {
    hide BlockFor, ReachBlock, Pointer, FindExtent, SlotNo, Agrees, Sound, FileByte, SameFile, Former, BlockWritten;
    InBlock(p, q, m.blksiz);
    if SameFile(f, g) {
      SameFileByte(w, m, f, g, p);
      if p / m.blksiz == q / m.blksiz { FormerIs(w, m, f, i, k, q, p); }
    }
  }

  lemma {:induction false} PartBehind(d: Disk, m: Format, f: File, i: nat, k: nat, q: nat, n: nat)
    requires Consistent(d) && FormatOk(d, m) && FindExtent(d, f, 0, q / 16384) == i && k == SlotNo(m, q) < Slots(d.size)
    requires n > 0 && q % m.blksiz + n <= m.blksiz
    ensures SameBehind(d, ReachBlock(d, i, k), m, f, q, q + n)
  {
    hide BlockFor, ReachBlock, Pointer, FindExtent, SlotNo, Agrees, Sound;
    InBlock(q + n - 1, q, m.blksiz);
    FilledOwn(d, m, f, i, k, q, q);
    forall p: nat | q + n <= p && p / m.blksiz != (q + n - 1) / m.blksiz
      ensures BlockFor(ReachBlock(d, i, k), m, f, p) == BlockFor(d, m, f, p)
    {
      FilledOwn(d, m, f, i, k, q, p);
    }
  }

  /** A part of a block written: so the file reads. */
  lemma {:induction false} PartReads(w: World, m: Format, f: File, i: nat, k: nat, q: nat, n: nat, t: nat, data: seq<byte>, c: seq<byte>)
    requires WorldOk(w, m) && Consistent(w.d) && FindExtent(w.d, f, 0, q / 16384) == i && k == SlotNo(m, q) < Slots(w.d.size)
    requires w.d.dirblks <= Pointer(ReachBlock(w.d, i, k).dir[i], k, w.d.size) < w.d.size
    requires Pointer(w.d.dir[i], k, w.d.size) == 0 || w.d.dirblks <= Pointer(w.d.dir[i], k, w.d.size) < w.d.size
    requires n > 0 && q % m.blksiz + n <= m.blksiz && PartOf(c, Former(w, i, k, m.blksiz), q % m.blksiz, n, t, data) && |c| == m.blksiz
    ensures n <= |data|
    ensures var w' := BlockWritten(w, i, k, c);
            Reads(w, w', m, f, q, q + n, q - q % m.blksiz + t, data) && SameBehind(w.d, w'.d, m, f, q, q + n)
  {
    hide BlockFor, ReachBlock, Pointer, FindExtent, SlotNo, Agrees, Sound, FileByte, SameFile, Former, PartOf;
    var w', hi, tail := BlockWritten(w, i, k, c), q + n, q - q % m.blksiz + t;
    assert hi <= tail && n <= |data| by { PartSizes(c, Former(w, i, k, m.blksiz), q % m.blksiz, n, t, data); }
    WriteBytes(w, m, f, i, k, q, c, f, q);
    forall g: File, p: nat ensures ReadsAt(w, w', m, f, q, hi, tail, data, g, p) {
      WriteBytes(w, m, f, i, k, q, c, g, p);
      PartAt(w, m, f, i, k, q, n, t, data, c, g, p);
    }
    PartBehind(w.d, m, f, i, k, q, n);
  }

  lemma {:induction false} PartSizes(c: seq<byte>, before: seq<byte>, a: nat, n: nat, t: nat, data: seq<byte>)
    requires PartOf(c, before, a, n, t, data)
    ensures a + n <= t <= |c| && n <= |data|
  {
  }
}
