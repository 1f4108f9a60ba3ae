/** Positions in a file, and the extents, slots, sectors and bytes they stand for. */
module CpmLayout {
  import opened Bits
  import opened Division
  import opened CpmBlocks

  const EXTENTSIZE := 16384

  /** Positions that share a region of n bytes share every region that is made of such regions. */
  lemma {:induction false} SameRegion(p: nat, q: nat, n: nat, m: nat)
    requires n > 0 && m > 0 && m % n == 0 && p / n == q / n
    ensures p / m == q / m
  {
    var k := m / n;
    assert m == n * k;
    assert k > 0;
    DivDiv(p, n, k);
    DivDiv(q, n, k);
  }

  /** Within a region of n bytes, beginning at a multiple of n, positions divide alike. */
  lemma {:induction false} InRegion(p: nat, q: nat, n: nat)
    requires n > 0 && q % n == 0 && q <= p < q + n
    ensures p / n == q / n && p % n == p - q
  {
    DivUnique(p, n, q / n, p - q);
  }

  /** Positions in one block have the same place within a larger region. */
  lemma {:induction false} SameSlot(p: nat, q: nat, n: nat, m: nat)
    requires n > 0 && m > 0 && m % n == 0 && p / n == q / n
    ensures (p % m) / n == (q % m) / n && (p % m) % n == p % n
  {
    SameRegion(p, q, n, m);
    SlotOf(p, n, m);
    SlotOf(q, n, m);
  }

  lemma {:induction false} SlotOf(p: nat, n: nat, m: nat)
    requires n > 0 && m > 0 && m % n == 0
    ensures (p % m) / n == p / n - p / m * (m / n) && (p % m) % n == p % n
  {
    var k := m / n;
    assert m == n * k;
    var a, r := p / m, p % m;
    assert p == a * (n * k) + r;
    var b, s := r / n, r % n;
    assert p == (a * k + b) * n + s by { Distribute(a, k, b, n); }
    DivUnique(p, n, a * k + b, s);
  }

  lemma {:induction false} SlotBound(p: nat, n: nat, m: nat, s: nat)
    requires n > 0 && m > 0 && m <= s * n
    ensures (p % m) / n < s
  {
    Bounded(p % m, n, s);
  }

  // ---------------------------------------------------------------- layout

  /** Block size, bytes covered by one entry, sector size, pointers in an entry, logical extents in an entry. */
  datatype Layout = Layout(blksiz: nat, extcap: nat, sec: nat, slots: nat, extents: nat)

  predicate LayoutOk(l: Layout) {
    && l.blksiz > 0 && l.sec > 0 && l.blksiz % l.sec == 0 && l.extcap > 0 && l.extcap % l.blksiz == 0
    && l.extcap <= l.slots * l.blksiz && l.extents > 0 && (EXTENTSIZE * l.extents) % l.extcap == 0
  }

  function SlotOfPos(l: Layout, pos: nat): (k: nat)
    requires LayoutOk(l)
    ensures k < l.slots
  {
    SlotBound(pos, l.blksiz, l.extcap, l.slots);
    (pos % l.extcap) / l.blksiz
  }

  function SectorOfPos(l: Layout, pos: nat): (s: nat)
    requires LayoutOk(l)
    ensures s < l.blksiz / l.sec
  {
    Bounded(pos % l.blksiz, l.sec, l.blksiz / l.sec);
    pos % l.blksiz / l.sec
  }

  function OffsetOfPos(l: Layout, pos: nat): (o: nat)
    requires LayoutOk(l)
    ensures o < l.sec
  {
    pos % l.blksiz % l.sec
  }

  /** Slot, sector and offset of a position say where it is in the bytes its entry covers. */
  lemma {:induction false} PositionIs(l: Layout, pos: nat)
    requires LayoutOk(l)
    ensures pos % l.extcap == SlotOfPos(l, pos) * l.blksiz + SectorOfPos(l, pos) * l.sec + OffsetOfPos(l, pos)
  {
    var a := pos % l.extcap;
    SlotOf(pos, l.blksiz, l.extcap);
    assert a == a / l.blksiz * l.blksiz + a % l.blksiz;
  }

  function ExtentOfPos(l: Layout, pos: nat): nat { pos / EXTENTSIZE }

  /** Where the next block begins. */
  function NextBlockPos(l: Layout, pos: nat): (r: nat)
    requires LayoutOk(l)
    ensures r > pos
  {
    pos / l.blksiz * l.blksiz + l.blksiz
  }

  /** Where the next entry begins. */
  function NextExtPos(l: Layout, pos: nat): (r: nat)
    requires LayoutOk(l)
    ensures r > pos
  {
    pos / l.extcap * l.extcap + l.extcap
  }

  lemma {:induction false} SameQuotient(p: nat, q: nat, n: nat)
    requires n > 0 && p <= q < p / n * n + n
    ensures p / n == q / n
  {
    MultipleMod(p / n, n);
    InRegion(q, p / n * n, n);
  }

  /** Positions covered by the same entry are found under the same extent number. */
  lemma {:induction false} SameEntryPos(l: Layout, p: nat, q: nat)
    requires LayoutOk(l) && p <= q < NextExtPos(l, p)
    ensures NextExtPos(l, p) == NextExtPos(l, q)
    ensures ExtentOfPos(l, p) / l.extents == ExtentOfPos(l, q) / l.extents
  {
    SameQuotient(p, q, l.extcap);
    SameRegion(p, q, l.extcap, EXTENTSIZE * l.extents);
    DivDiv(p, EXTENTSIZE, l.extents);
    DivDiv(q, EXTENTSIZE, l.extents);
  }

  /** Positions in the same block use the same slot of the same entry. */
  lemma {:induction false} SameBlockPos(l: Layout, p: nat, q: nat)
    requires LayoutOk(l) && p <= q < NextBlockPos(l, p)
    ensures NextBlockPos(l, p) == NextBlockPos(l, q) && SlotOfPos(l, p) == SlotOfPos(l, q)
    ensures q < NextExtPos(l, p)
  {
    SameQuotient(p, q, l.blksiz);
    SameSlot(p, q, l.blksiz, l.extcap);
    SameRegion(p, q, l.blksiz, l.extcap);
  }

  /** The sectors from that of pos to that of the last byte wanted, as far as the block goes. */
  function LastSector(l: Layout, pos: nat, count: nat): (r: nat)
    requires LayoutOk(l) && count > 0
    ensures r < l.blksiz / l.sec
  {
    var at := pos % l.blksiz;
    Bounded(if at + count > l.blksiz then l.blksiz - 1 else at + count - 1, l.sec, l.blksiz / l.sec);
    (if at + count > l.blksiz then l.blksiz - 1 else at + count - 1) / l.sec
  }

  lemma {:induction false} SectorsCover(l: Layout, pos: nat, count: nat, p: nat)
    requires LayoutOk(l) && count > 0 && pos <= p < pos + count && p < NextBlockPos(l, pos)
    ensures SectorOfPos(l, pos) <= SectorOfPos(l, p) <= LastSector(l, pos, count)
  {
    var q := pos / l.blksiz * l.blksiz;
    MultipleMod(pos / l.blksiz, l.blksiz);
    InRegion(p, q, l.blksiz);
    InRegion(pos, q, l.blksiz);
    var at := pos % l.blksiz;
    DivMono(at, p % l.blksiz, l.sec);
    DivMono(p % l.blksiz, if at + count > l.blksiz then l.blksiz - 1 else at + count - 1, l.sec);
  }

  /** A block that ends before its entry does is followed by a block of the same entry. */
  lemma {:induction false} BlockInEntry(l: Layout, p: nat)
    requires LayoutOk(l)
    ensures NextBlockPos(l, p) <= NextExtPos(l, p)
    ensures NextBlockPos(l, p) < NextExtPos(l, p) ==> NextExtPos(l, NextBlockPos(l, p)) == NextExtPos(l, p)
  {
    var b := NextBlockPos(l, p);
    SameBlockPos(l, p, b - 1);
    if b < NextExtPos(l, p) { SameEntryPos(l, p, b); }
  }
}
