/**
 What writing a file adds up to: every position written has a block, the
 entry says how far the file goes, and nothing else on the disk has changed.
*/
module CpmWritten {
  import opened Bits
  import opened Division
  import opened CpmDirectory
  import opened CpmFiles
  import opened CpmLayout

  // ------------------------------------------------------ one step at a time

  /** Entry i after a step of writing file f: an entry of f keeps its name, stretch and blocks, any other stays as it is or becomes a new one of f. */
  ghost predicate GrowsAt(d: Disk, d': Disk, f: File, i: nat)
    requires d.extents > 0 && i < |d.dir| == |d'.dir|
  {
    var e, e' := d.dir[i], d'.dir[i];
    if Matches(e, f, d.hi) then
      && Owner(e') == Owner(e) && ExtentOf(e') / d.extents == ExtentOf(e) / d.extents
      && forall k {:trigger Pointer(e, k, d.size)} :: 0 <= k < Slots(d.size) && Pointer(e, k, d.size) != 0 ==>
           Pointer(e', k, d.size) == Pointer(e, k, d.size)
    else e' == e || (e.status == UNUSED && Matches(e', f, d.hi) && FindExtent(d, f, 0, ExtentOf(e')) == -1)
  }

  ghost predicate Grows(d: Disk, d': Disk, f: File) {
    && d.extents > 0 && d'.extents == d.extents && d'.size == d.size && d'.hi == d.hi && d'.dirblks == d.dirblks && |d'.dir| == |d.dir|
    && forall i {:trigger GrowsAt(d, d', f, i)} :: 0 <= i < |d.dir| ==> GrowsAt(d, d', f, i)
  }

  /** Entry i is what the search for extent number x looks for. */
  predicate Hit(d: Disk, f: File, x: nat, i: nat)
    requires d.extents > 0 && i < |d.dir|
  {
    ExtentOf(d.dir[i]) / d.extents == x / d.extents && Matches(d.dir[i], f, d.hi)
  }

  lemma {:induction false} FindStep(d: Disk, f: File, start: nat, x: nat)
    requires d.extents > 0 && start < |d.dir|
    ensures FindExtent(d, f, start, x) == if Hit(d, f, x, start) then start else FindExtent(d, f, start + 1, x)
  {
  }

  lemma {:induction false} FindNone(d: Disk, f: File, start: nat, x: nat)
    requires d.extents > 0 && start <= |d.dir| && FindExtent(d, f, start, x) == -1
    ensures forall i :: start <= i < |d.dir| ==> !Hit(d, f, x, i)
    decreases |d.dir| - start
  {
    hide Hit;
    if start < |d.dir| {
      FindStep(d, f, start, x);
      FindNone(d, f, start + 1, x);
    }
  }

  lemma {:induction false} FindHit(d: Disk, f: File, start: nat, x: nat, i: nat)
    requires d.extents > 0 && start <= i < |d.dir| && Hit(d, f, x, i) && forall j :: start <= j < i ==> !Hit(d, f, x, j)
    ensures FindExtent(d, f, start, x) == i
    decreases i - start
  {
    hide Hit;
    FindStep(d, f, start, x);
    if start < i { FindHit(d, f, start + 1, x, i); }
  }

  lemma {:induction false} FoundHit(d: Disk, f: File, start: nat, x: nat)
    requires d.extents > 0 && start <= |d.dir| && FindExtent(d, f, start, x) != -1
    ensures start <= FindExtent(d, f, start, x) < |d.dir| && Hit(d, f, x, FindExtent(d, f, start, x))
    decreases |d.dir| - start
  {
    hide Hit;
    if start < |d.dir| {
      FindStep(d, f, start, x);
      if !Hit(d, f, x, start) { FoundHit(d, f, start + 1, x); }
    }
  }

  lemma {:induction false} SameHit(d: Disk, d': Disk, f: File, x: nat, i: nat)
    requires Grows(d, d', f) && i < |d.dir| && FindExtent(d, f, 0, x) != -1
    ensures Hit(d', f, x, i) <==> Hit(d, f, x, i)
  {
    hide FindExtent, ExtentOf;
    assert GrowsAt(d, d', f, i);
    if !Matches(d.dir[i], f, d.hi) && d'.dir[i] != d.dir[i] && ExtentOf(d'.dir[i]) / d.extents == x / d.extents {
      FindExtentSame(d, f, 0, ExtentOf(d'.dir[i]), x);
      assert false;
    }
  }

  /** What has been found is found again. */
  lemma {:induction false} FoundKept(d: Disk, d': Disk, f: File, x: nat, start: nat)
    requires Grows(d, d', f) && start <= |d.dir| && FindExtent(d, f, 0, x) != -1
    ensures FindExtent(d', f, start, x) == FindExtent(d, f, start, x)
    decreases |d.dir| - start
  {
    hide Hit, GrowsAt;
    if start < |d.dir| {
      SameHit(d, d', f, x, start);
      FindStep(d, f, start, x);
      FindStep(d', f, start, x);
      FoundKept(d, d', f, x, start + 1);
    }
  }

  // ---------------------------------------------------------- what adds up

  /** The entry looked up for position p of file f has a block in the slot for p. */
  ghost predicate Mapped(d: Disk, f: File, blksiz: nat, extcap: nat, p: nat)
    requires d.extents > 0 && extcap > 0
  {
    var i := FindExtent(d, f, 0, p / 16384);
    i != -1 && exists k: nat :: HasBlock(d, i, k, blksiz, p % extcap)
  }

  /** Slot k of entry i is the one for the byte at place a of the entry, and is filled. */
  ghost predicate HasBlock(d: Disk, i: nat, k: nat, blksiz: nat, a: nat) {
    i < |d.dir| && k < Slots(d.size) && k * blksiz <= a < (k + 1) * blksiz && Pointer(d.dir[i], k, d.size) != 0
  }

  lemma {:induction false} MappedKept(d: Disk, d': Disk, f: File, blksiz: nat, extcap: nat, p: nat)
    requires Grows(d, d', f) && extcap > 0 && Mapped(d, f, blksiz, extcap, p)
    ensures Mapped(d', f, blksiz, extcap, p)
  {
    hide Matches, Pointer;
    var i := FindExtent(d, f, 0, p / 16384);
    var k: nat :| HasBlock(d, i, k, blksiz, p % extcap);
    FoundKept(d, d', f, p / 16384, 0);
    assert GrowsAt(d, d', f, i);
    assert HasBlock(d', i, k, blksiz, p % extcap);
  }

  /** Entries that belonged to other files are as they were; those of file f still belong to it, and have lost no block. */
  ghost predicate Kept(d: Disk, d': Disk, f: File) {
    && d'.size == d.size && d'.hi == d.hi && |d'.dir| == |d.dir|
    && forall i {:trigger d'.dir[i]} :: 0 <= i < |d.dir| && Live(d.dir[i], d.hi) ==>
         if Matches(d.dir[i], f, d.hi) then
           && Owner(d'.dir[i]) == Owner(d.dir[i])
           && forall k {:trigger Pointer(d.dir[i], k, d.size)} :: 0 <= k < Slots(d.size) && Pointer(d.dir[i], k, d.size) != 0 ==>
                Pointer(d'.dir[i], k, d.size) == Pointer(d.dir[i], k, d.size)
         else d'.dir[i] == d.dir[i]
  }

  lemma {:induction false} KeptMore(d0: Disk, d: Disk, d': Disk, f: File)
    requires Kept(d0, d, f) && Grows(d, d', f)
    ensures Kept(d0, d', f)
  {
    hide Pointer, FindExtent, ExtentOf;
    forall i | 0 <= i < |d0.dir| && Live(d0.dir[i], d0.hi)
      ensures if Matches(d0.dir[i], f, d0.hi) then
                && Owner(d'.dir[i]) == Owner(d0.dir[i])
                && forall k {:trigger Pointer(d0.dir[i], k, d0.size)} :: 0 <= k < Slots(d0.size) && Pointer(d0.dir[i], k, d0.size) != 0 ==>
                     Pointer(d'.dir[i], k, d0.size) == Pointer(d0.dir[i], k, d0.size)
              else d'.dir[i] == d0.dir[i]
    {
      assert GrowsAt(d, d', f, i);
    }
  }

  /** Only slots that the capacity of an entry covers are filled in the entries of file f. */
  ghost predicate Tidy(d: Disk, f: File, blksiz: nat, extcap: nat) {
    forall i, k {:trigger Pointer(d.dir[i], k, d.size)} :: 0 <= i < |d.dir| && 0 <= k < Slots(d.size) && Matches(d.dir[i], f, d.hi) && Pointer(d.dir[i], k, d.size) != 0 ==>
      k * blksiz < extcap
  }

  /** How far the file goes, as it is worked out from its last entry. */
  function EndSaid(e: Entry, exact: bool): int {
    ExtentOf(e) * 16384 + (e.blkcnt - 1) * 128 + if exact then 128 - e.lrc else if e.lrc != 0 then e.lrc else 128
  }

  /** The entry of the last byte before pos says how far the file goes, with the extent number of position q. */
  ghost predicate Recorded(d: Disk, f: File, exact: bool, pos: nat, q: nat)
    requires d.extents > 0 && pos > 0
  {
    var i := FindExtent(d, f, 0, (pos - 1) / 16384);
    i != -1 && d.dir[i].blkcnt > 0 && EndSaid(d.dir[i], exact) == q / 16384 * 16384 + (pos - 1) % 16384 + 1
  }

  /** No entry of f has had its extent number or length changed. */
  ghost predicate SameLengths(d: Disk, d': Disk, f: File) {
    |d'.dir| == |d.dir| && forall i {:trigger d'.dir[i]} :: 0 <= i < |d.dir| && Matches(d.dir[i], f, d.hi) ==>
      var e, e' := d.dir[i], d'.dir[i];
      e'.extnol == e.extnol && e'.extnoh == e.extnoh && e'.blkcnt == e.blkcnt && e'.lrc == e.lrc
  }

  lemma {:induction false} RecordedKept(d: Disk, d': Disk, f: File, exact: bool, pos: nat, q: nat)
    requires Grows(d, d', f) && SameLengths(d, d', f) && pos > 0 && Recorded(d, f, exact, pos, q)
    ensures Recorded(d', f, exact, pos, q)
  {
    hide GrowsAt, Matches;
    FoundKept(d, d', f, (pos - 1) / 16384, 0);
  }

  lemma {:induction false} TidyKept(d: Disk, d': Disk, f: File, blksiz: nat, extcap: nat)
    requires Grows(d, d', f) && Tidy(d, f, blksiz, extcap)
    requires forall i, k {:trigger Pointer(d'.dir[i], k, d.size)} :: 0 <= i < |d.dir| && 0 <= k < Slots(d.size) && Pointer(d'.dir[i], k, d.size) != 0 ==>
               d'.dir[i] == d.dir[i] || (Matches(d.dir[i], f, d.hi) && Pointer(d.dir[i], k, d.size) != 0) || k * blksiz < extcap
    ensures Tidy(d', f, blksiz, extcap)
  {
    hide Pointer, FindExtent, ExtentOf, Matches, Slots, GrowsAt;
    forall i, k | 0 <= i < |d'.dir| && 0 <= k < Slots(d'.size) && Matches(d'.dir[i], f, d'.hi) && Pointer(d'.dir[i], k, d'.size) != 0
      ensures k * blksiz < extcap
    {
      assert Pointer(d'.dir[i], k, d.size) != 0;
    }
  }

  // ---------------------------------------------------------------- the job

  /** Writing file f, which entry ino belongs to, from position start on. */
  datatype Job = Job(d0: Disk, ino: nat, f: File, start: nat, blksiz: nat, extcap: nat, exact: bool)

  /** An entry covers whole blocks, and one or more of them make up its logical extents. */
  predicate Regular(blksiz: nat, extcap: nat, extents: nat) {
    blksiz > 0 && extcap > 0 && extcap % blksiz == 0 && extents > 0 && (16384 * extents) % extcap == 0
  }

  /** The place the extent number of the last entry was taken from: where the write began, or where that entry begins. */
  function LookupOf(start: nat, pos: nat, extcap: nat): (q: nat)
    requires extcap > 0 && pos > start
    ensures start <= q && q < pos
  {
    Floored(pos - 1, extcap);
    if (pos - 1) / extcap * extcap > start then (pos - 1) / extcap * extcap else start
  }

  lemma {:induction false} Floored(x: nat, n: nat)
    requires n > 0
    ensures x / n * n <= x < x / n * n + n
  {
  }

  /** Of the job, everything before pos has been done. */
  ghost predicate Progressed(j: Job, d: Disk, pos: nat) {
    && Consistent(d) && Regular(j.blksiz, j.extcap, d.extents) && j.ino < |d.dir| && j.start <= pos
    && Owner(d.dir[j.ino]) == j.f && Live(d.dir[j.ino], d.hi)
    && Kept(j.d0, d, j.f) && Tidy(d, j.f, j.blksiz, j.extcap)
    && (forall p {:trigger Mapped(d, j.f, j.blksiz, j.extcap, p)} :: j.start <= p < pos ==> Mapped(d, j.f, j.blksiz, j.extcap, p))
    && (pos > j.start ==> Recorded(d, j.f, j.exact, pos, LookupOf(j.start, pos, j.extcap)))
  }

  /** What a step keeps of the job, given what it does to the disk. */
  lemma {:induction false} WrittenStep(j: Job, d: Disk, d': Disk, pos: nat)
    requires Progressed(j, d, pos) && Grows(d, d', j.f) && SameLengths(d, d', j.f) && Consistent(d')
    requires Tidy(d', j.f, j.blksiz, j.extcap)
    ensures Progressed(j, d', pos)
  {
    hide Consistent, Tidy, Kept, Recorded, Mapped, FindExtent, SameText, Regular, SameLengths, LookupOf, Pointer, ExtentOf;
    OwnMatches(d.dir[j.ino], d.hi);
    assert GrowsAt(d, d', j.f, j.ino);
    KeptMore(j.d0, d, d', j.f);
    Positive(j, d);
    forall p | j.start <= p < pos ensures Mapped(d', j.f, j.blksiz, j.extcap, p) {
      MappedKept(d, d', j.f, j.blksiz, j.extcap, p);
    }
    if pos > j.start { RecordedKept(d, d', j.f, j.exact, pos, LookupOf(j.start, pos, j.extcap)); }
  }

  lemma {:induction false} Positive(j: Job, d: Disk)
    requires Regular(j.blksiz, j.extcap, d.extents)
    ensures j.blksiz > 0 && j.extcap > 0 && d.extents > 0
  {
  }

  lemma {:induction false} OwnMatches(e: Entry, hi: bool)
    requires Live(e, hi)
    ensures Matches(e, Owner(e), hi)
  {
  }

  // ------------------------------------------------------------ the steps

  lemma {:induction false} NumberBack(x: nat)
    requires x < 2048
    ensures x % 32 < 256 && x / 32 % 64 < 256 && x % 32 % 32 + x / 32 % 64 % 64 * 32 == x
  {
  }

  /** The entry made for an extent: it belongs to the file, has the number, and no blocks. */
  lemma {:induction false} MadeEntry(d: Disk, i: nat, ino: nat, x: nat)
    requires i < |d.dir| && ino < |d.dir| && Live(d.dir[ino], d.hi) && x < 2048
    ensures var e := NextExtent(d, i, ino, x).dir[i];
            Matches(e, Owner(d.dir[ino]), d.hi) && ExtentOf(e) == x && e.pointers == NoPointers()
  {
    OwnMatches(d.dir[ino], d.hi);
    NumberBack(x);
    hide NoPointers;
  }

  lemma {:induction false} MadeGrows(d: Disk, i: nat, ino: nat, f: File, x: nat)
    requires d.extents > 0 && i < |d.dir| && ino < |d.dir| && Owner(d.dir[ino]) == f && Live(d.dir[ino], d.hi) && x < 2048
    requires d.dir[i].status == UNUSED && FindExtent(d, f, 0, x) == -1
    ensures var d' := NextExtent(d, i, ino, x); Grows(d, d', f) && SameLengths(d, d', f) && FindExtent(d', f, 0, x) == i
  {
    hide FindExtent, ExtentOf, Pointer, NoPointers, SameText;
    var d' := NextExtent(d, i, ino, x);
    MadeEntry(d, i, ino, x);
    assert !Matches(d.dir[i], f, d.hi);
    forall k | 0 <= k < |d.dir| ensures GrowsAt(d, d', f, k) {
      if k != i { assert d'.dir[k] == d.dir[k]; }
    }
    FindNone(d, f, 0, x);
    forall k | 0 <= k < i ensures !Hit(d', f, x, k) { assert !Hit(d, f, x, k); }
    FindHit(d', f, 0, x, i);
  }

  lemma {:induction false} NothingGrows(d: Disk, f: File)
    requires d.extents > 0
    ensures Grows(d, d, f) && SameLengths(d, d, f)
  {
    hide FindExtent, ExtentOf, Pointer, Matches;
  }

  /** Reaching an extent: found again, or made where there was none. */
  lemma {:induction false} ReachGrows(d: Disk, ino: nat, f: File, x: nat)
    requires Shape(d) && ino < |d.dir| && Owner(d.dir[ino]) == f && Live(d.dir[ino], d.hi) && x < 2048
    ensures var (d', i) := ReachExtent(d, ino, x);
            Grows(d, d', f) && SameLengths(d, d', f) && (i != -1 ==> FindExtent(d', f, 0, x) == i)
  {
    hide Grows, SameLengths, Matches, FindExtent, NextExtent;
    NothingGrows(d, f);
    var j := FindFree(d.dir, 0);
    if FindExtent(d, f, 0, x) == -1 && j != -1 { MadeGrows(d, j, ino, f, x); }
  }

  lemma {:induction false} WrittenReach(j: Job, d: Disk, x: nat, pos: nat)
    requires Progressed(j, d, pos) && x < 2048
    ensures var (d', i) := ReachExtent(d, j.ino, x); Progressed(j, d', pos) && (i != -1 ==> FindExtent(d', j.f, 0, x) == i)
  {
    hide Grows, SameLengths, Matches, FindExtent, ReachExtent, Kept, Mapped, Recorded, Agrees, Sound, Regular;
    var d' := ReachExtent(d, j.ino, x).0;
    ReachGrows(d, j.ino, j.f, x);
    ReachExtentConsistent(d, j.ino, x);
    ReachTidy(j, d, x);
    WrittenStep(j, d, d', pos);
  }

  lemma {:induction false} ReachTidy(j: Job, d: Disk, x: nat)
    requires Shape(d) && j.ino < |d.dir| && Tidy(d, j.f, j.blksiz, j.extcap) && Grows(d, ReachExtent(d, j.ino, x).0, j.f)
    ensures Tidy(ReachExtent(d, j.ino, x).0, j.f, j.blksiz, j.extcap)
  {
    hide FindExtent, Grows, Tidy, Matches, ExtentOf;
    var d' := ReachExtent(d, j.ino, x).0;
    TidyKept(d, d', j.f, j.blksiz, j.extcap);
  }

  /** Filling a slot of an entry of the file. */
  lemma {:induction false} FillGrows(d: Disk, i: nat, k: nat, f: File)
    requires Consistent(d) && i < |d.dir| && k < Slots(d.size) && Matches(d.dir[i], f, d.hi)
    ensures var d' := ReachBlock(d, i, k);
            && Grows(d, d', f) && SameLengths(d, d', f)
            && (Pointer(d.dir[i], k, d.size) != 0 || NextBlock(d) != -1 ==> Pointer(d'.dir[i], k, d.size) != 0)
            && forall n {:trigger Pointer(d'.dir[i], n, d.size)} :: 0 <= n < Slots(d.size) && n != k ==>
                 Pointer(d'.dir[i], n, d.size) == Pointer(d.dir[i], n, d.size)
  {
    hide FindExtent, Pointer, SameText, NextBlock, Agrees, Sound;
    NothingGrows(d, f);
    var b := NextBlock(d);
    if Pointer(d.dir[i], k, d.size) == 0 && b != -1 {
      NextBlockFree(d);
      var d', e := Taken(d, i, k, b), SetPointer(d.dir[i], k, b, d.size);
      forall n | 0 <= n < |d.dir| ensures GrowsAt(d, d', f, n) {
        if n != i { assert d'.dir[n] == d.dir[n]; }
      }
    }
  }

  lemma {:induction false} WrittenFill(j: Job, d: Disk, x: nat, i: nat, k: nat, pos: nat)
    requires Progressed(j, d, pos) && FindExtent(d, j.f, 0, x) == i && k < Slots(d.size) && k * j.blksiz < j.extcap
    ensures var d' := ReachBlock(d, i, k);
            && Progressed(j, d', pos) && FindExtent(d', j.f, 0, x) == i
            && (Pointer(d.dir[i], k, d.size) != 0 || NextBlock(d) != -1 ==> Pointer(d'.dir[i], k, d.size) != 0)
  {
    hide Grows, SameLengths, FindExtent, Kept, Mapped, Recorded, Agrees, Sound, Regular, Pointer, NextBlock, SameText, LookupOf;
    var d' := ReachBlock(d, i, k);
    FoundHit(d, j.f, 0, x);
    FillGrows(d, i, k, j.f);
    FoundKept(d, d', j.f, x, 0);
    FilledConsistent(d, i, k);
    FillTidy(j, d, i, k);
    WrittenStep(j, d, d', pos);
  }

  lemma {:induction false} FillTidy(j: Job, d: Disk, i: nat, k: nat)
    requires Shape(d) && i < |d.dir| && k < Slots(d.size) && Matches(d.dir[i], j.f, d.hi) && k * j.blksiz < j.extcap
    requires Tidy(d, j.f, j.blksiz, j.extcap) && Grows(d, ReachBlock(d, i, k), j.f)
    requires forall n {:trigger Pointer(ReachBlock(d, i, k).dir[i], n, d.size)} :: 0 <= n < Slots(d.size) && n != k ==>
               Pointer(ReachBlock(d, i, k).dir[i], n, d.size) == Pointer(d.dir[i], n, d.size)
    ensures Tidy(ReachBlock(d, i, k), j.f, j.blksiz, j.extcap)
  {
    hide Grows, Tidy, Matches, Pointer, NextBlock, SetPointer;
    var d' := ReachBlock(d, i, k);
    TidyKept(d, d', j.f, j.blksiz, j.extcap);
  }

  // ------------------------------------------------------ recording lengths

  /** What is recorded in entry i when the file goes up to pos: the number x of its extent, and the length in it. */
  function Measurement(i: nat, x: nat, pos: nat, exact: bool): (op: Op)
    requires pos > 0
    ensures op.Measure?
  {
    Measure(i, x % 32, x / 32 % 64, (pos - 1) % 16384 / 128 + 1, if exact then (128 - pos % 128) % 128 else pos % 128)
  }

  /** What is recorded says where the file ends, if x is the extent number of the last byte. */
  lemma {:induction false} LengthSaid(e: Entry, x: nat, pos: nat, exact: bool)
    requires pos > 0 && x < 2048
    ensures var m := Measurement(0, x, pos, exact);
            var r := e.(extnol := m.extnol, extnoh := m.extnoh, blkcnt := m.blkcnt, lrc := m.lrc);
            r.blkcnt > 0 && ExtentOf(r) == x && EndSaid(r, exact) == x * 16384 + (pos - 1) % 16384 + 1
  {
    NumberBack(x);
    LastRecord(pos);
  }

  lemma {:induction false} LastRecord(pos: nat)
    requires pos > 0
    ensures var c, r := (pos - 1) % 16384 / 128, pos % 128; c * 128 + (if r != 0 then r else 128) == (pos - 1) % 16384 + 1
    ensures 128 - (128 - pos % 128) % 128 == if pos % 128 != 0 then pos % 128 else 128
  {
    var a := (pos - 1) % 16384;
    SlotOf(pos - 1, 128, 16384);
    assert a % 128 == (pos - 1) % 128;
    if pos % 128 == 0 {
      DivUnique(pos - 1, 128, pos / 128 - 1, 127);
    } else {
      DivUnique(pos - 1, 128, pos / 128, pos % 128 - 1);
    }
  }

  lemma {:induction false} MeasureGrows(d: Disk, i: nat, x: nat, pos: nat, f: File, exact: bool)
    requires Shape(d) && pos > 0 && x < 2048 && FindExtent(d, f, 0, x) == i
    ensures var d' := Step(d, Measurement(i, x, pos, exact));
            && Grows(d, d', f) && FindExtent(d', f, 0, x) == i
            && d'.dir[i].blkcnt > 0 && EndSaid(d'.dir[i], exact) == x * 16384 + (pos - 1) % 16384 + 1
  {
    hide FindExtent, EndSaid, SameText;
    var d' := Step(d, Measurement(i, x, pos, exact));
    FoundHit(d, f, 0, x);
    LengthSaid(d.dir[i], x, pos, exact);
    hide ExtentOf;
    forall n | 0 <= n < |d.dir| ensures GrowsAt(d, d', f, n) {
      if n != i { assert d'.dir[n] == d.dir[n]; }
    }
    FoundKept(d, d', f, x, 0);
  }

  // ------------------------------------------------------- part of a block

  /** The places of the bytes from pos on, as far as the block goes. */
  lemma {:induction false} PlaceInBlock(pos: nat, p: nat, blksiz: nat, extcap: nat)
    requires blksiz > 0 && extcap > 0 && extcap % blksiz == 0 && pos <= p < pos / blksiz * blksiz + blksiz
    ensures p / extcap == pos / extcap && p % extcap / blksiz == pos % extcap / blksiz
    ensures var k := pos % extcap / blksiz; k * blksiz <= p % extcap < (k + 1) * blksiz
  {
    SameQuotient(pos, p, blksiz);
    SameSlot(pos, p, blksiz, extcap);
    SameRegion(pos, p, blksiz, extcap);
    InSlot(p % extcap, blksiz);
  }

  lemma {:induction false} InSlot(a: nat, n: nat)
    requires n > 0
    ensures a / n * n <= a < (a / n + 1) * n
  {
    DivAtLeast(a, n, a / n);
    DivAtLeast(a, n, a / n + 1);
  }

  lemma {:induction false} LookupIs(start: nat, q: nat, pos: nat, extcap: nat)
    requires extcap > 0 && start <= q < pos && q / extcap == (pos - 1) / extcap && (q == start || q % extcap == 0)
    ensures LookupOf(start, pos, extcap) == q
  {
    Floored(q, extcap);
    if q % extcap == 0 { assert q == q / extcap * extcap; }
  }

  /** Positions of the same entry find it under the number of any of them. */
  lemma {:induction false} SameFound(d: Disk, f: File, q: nat, p: nat, blksiz: nat, extcap: nat)
    requires Regular(blksiz, extcap, d.extents) && q / extcap == p / extcap
    ensures FindExtent(d, f, 0, q / 16384) == FindExtent(d, f, 0, p / 16384)
  {
    hide FindExtent;
    SameRegion(q, p, extcap, 16384 * d.extents);
    DivDiv(q, 16384, d.extents);
    DivDiv(p, 16384, d.extents);
    FindExtentSame(d, f, 0, q / 16384, p / 16384);
  }

  lemma {:induction false} MeasureKeeps(j: Job, d: Disk, i: nat, x: nat, pos: nat, exact: bool)
    requires Shape(d) && pos > 0 && i < |d.dir| && Tidy(d, j.f, j.blksiz, j.extcap) && Grows(d, Step(d, Measurement(i, x, pos, exact)), j.f)
    ensures var d' := Step(d, Measurement(i, x, pos, exact));
            && Tidy(d', j.f, j.blksiz, j.extcap) && d'.dir[i].pointers == d.dir[i].pointers
  {
    hide FindExtent, Grows, Tidy;
    var d' := Step(d, Measurement(i, x, pos, exact));
    forall n, k {:trigger Pointer(d'.dir[n], k, d.size)} | 0 <= n < |d.dir| && 0 <= k < Slots(d.size) ensures Pointer(d'.dir[n], k, d.size) == Pointer(d.dir[n], k, d.size) {
      if n != i { assert d'.dir[n] == d.dir[n]; }
    }
    forall n | 0 <= n < |d.dir| ensures Matches(d'.dir[n], j.f, d.hi) <==> Matches(d.dir[n], j.f, d.hi) {
      if n != i { assert d'.dir[n] == d.dir[n]; }
    }
    TidySame(d, d', j.f, j.blksiz, j.extcap);
  }

  lemma {:induction false} TidySame(d: Disk, d': Disk, f: File, blksiz: nat, extcap: nat)
    requires |d'.dir| == |d.dir| && d'.size == d.size && d'.hi == d.hi && Tidy(d, f, blksiz, extcap)
    requires forall n :: 0 <= n < |d.dir| ==> (Matches(d'.dir[n], f, d.hi) <==> Matches(d.dir[n], f, d.hi))
    requires forall n, k {:trigger Pointer(d'.dir[n], k, d.size)} :: 0 <= n < |d.dir| && 0 <= k < Slots(d.size) ==>
               Pointer(d'.dir[n], k, d.size) == Pointer(d.dir[n], k, d.size)
    ensures Tidy(d', f, blksiz, extcap)
  {
    hide Pointer, Matches, Slots;
  }

  /** The entry of the block written, once its length has been recorded, has everything up to pos + n. */
  lemma {:induction false} MappedNow(d: Disk, f: File, i: nat, k: nat, q: nat, pos: nat, p: nat, blksiz: nat, extcap: nat)
    requires Regular(blksiz, extcap, d.extents) && FindExtent(d, f, 0, q / 16384) == i && k < Slots(d.size)
    requires i < |d.dir| && Pointer(d.dir[i], k, d.size) != 0 && q / extcap == pos / extcap && k == pos % extcap / blksiz
    requires pos <= p < pos / blksiz * blksiz + blksiz
    ensures Mapped(d, f, blksiz, extcap, p)
  {
    hide FindExtent, Pointer;
    PlaceInBlock(pos, p, blksiz, extcap);
    SameFound(d, f, q, p, blksiz, extcap);
    assert HasBlock(d, i, k, blksiz, p % extcap);
  }

  lemma {:induction false} RecordedNow(j: Job, d: Disk, i: nat, q: nat, pos: nat)
    requires Regular(j.blksiz, j.extcap, d.extents) && j.start <= q < pos && q / j.extcap == (pos - 1) / j.extcap
    requires (q == j.start || q % j.extcap == 0) && i < |d.dir| && FindExtent(d, j.f, 0, q / 16384) == i
    requires d.dir[i].blkcnt > 0 && EndSaid(d.dir[i], j.exact) == q / 16384 * 16384 + (pos - 1) % 16384 + 1
    ensures Recorded(d, j.f, j.exact, pos, LookupOf(j.start, pos, j.extcap))
  {
    hide FindExtent, EndSaid, LookupOf;
    SameFound(d, j.f, q, pos - 1, j.blksiz, j.extcap);
    LookupIs(j.start, q, pos, j.extcap);
  }

  /** n more bytes in the block of slot k, and the length recorded. */
  lemma {:induction false} WrittenMore(j: Job, d: Disk, i: nat, k: nat, q: nat, pos: nat, n: nat)
    requires Progressed(j, d, pos) && n > 0 && pos + n <= pos / j.blksiz * j.blksiz + j.blksiz && pos + n <= 0x2000000
    requires j.start <= q <= pos && q / j.extcap == pos / j.extcap && (q == j.start || q % j.extcap == 0)
    requires FindExtent(d, j.f, 0, q / 16384) == i && k == pos % j.extcap / j.blksiz && k < Slots(d.size) && Pointer(d.dir[i], k, d.size) != 0
    ensures var d' := Step(d, Measurement(i, q / 16384, pos + n, j.exact));
            Progressed(j, d', pos + n) && FindExtent(d', j.f, 0, q / 16384) == i
  {
    hide FindExtent, Kept, Mapped, Recorded, Agrees, Sound, Pointer, SameText, LookupOf, Grows, Tidy, EndSaid, GrowsAt, Measurement;
    var x := q / 16384;
    var op := Measurement(i, x, pos + n, j.exact);
    var d' := Step(d, op);
    MeasureGrows(d, i, x, pos + n, j.f, j.exact);
    MeasureKeeps(j, d, i, x, pos + n, j.exact);
    StepConsistent(d, op);
    KeptMore(j.d0, d, d', j.f);
    OwnKept(d, d', j.f, j.ino);
    SamePointer(d.dir[i], d'.dir[i], k, d.size);
    forall p | j.start <= p < pos + n ensures Mapped(d', j.f, j.blksiz, j.extcap, p) {
      if p < pos { MappedKept(d, d', j.f, j.blksiz, j.extcap, p); } else { MappedNow(d', j.f, i, k, q, pos, p, j.blksiz, j.extcap); }
    }
    PlaceInBlock(pos, pos + n - 1, j.blksiz, j.extcap);
    RecordedNow(j, d', i, q, pos + n);
  }

  lemma {:induction false} OwnKept(d: Disk, d': Disk, f: File, ino: nat)
    requires Grows(d, d', f) && ino < |d.dir| && Owner(d.dir[ino]) == f && Live(d.dir[ino], d.hi)
    ensures Owner(d'.dir[ino]) == f && Live(d'.dir[ino], d'.hi)
  {
    hide FindExtent, ExtentOf, SameText;
    OwnMatches(d.dir[ino], d.hi);
    assert GrowsAt(d, d', f, ino);
  }

  lemma {:induction false} SamePointer(e: Entry, e': Entry, k: nat, size: nat)
    requires k < Slots(size) && e'.pointers == e.pointers
    ensures Pointer(e', k, size) == Pointer(e, k, size)
  {
  }

  // -------------------------------------------------------------- the loop

  /** Position pos is in the stretch of entry i, which was looked up at q and ends at next. */
  ghost predicate Located(j: Job, d: Disk, i: int, x: nat, q: nat, pos: nat, next: nat) {
    && j.extcap > 0 && d.extents > 0 && x == q / 16384 && FindExtent(d, j.f, 0, x) == i && j.start <= q <= pos
    && q / j.extcap == pos / j.extcap && (q == j.start || q % j.extcap == 0) && next == q / j.extcap * j.extcap + j.extcap
  }

  /** An entry is looked up where the write begins, or where an entry does. */
  ghost predicate Fresh(j: Job, pos: nat) { j.extcap > 0 && j.start <= pos && (pos == j.start || pos % j.extcap == 0) }

  lemma {:induction false} ProgressStart(j: Job)
    requires Consistent(j.d0) && Regular(j.blksiz, j.extcap, j.d0.extents) && j.ino < |j.d0.dir| && Owner(j.d0.dir[j.ino]) == j.f
    requires Live(j.d0.dir[j.ino], j.d0.hi) && Tidy(j.d0, j.f, j.blksiz, j.extcap)
    ensures Progressed(j, j.d0, j.start) && Fresh(j, j.start)
  {
    hide Consistent, Tidy, Mapped, Recorded, Pointer, SameText;
  }

  /** The entry for pos is found or made. */
  lemma {:induction false} EntryReached(j: Job, d: Disk, pos: nat, next: nat)
    requires j.extcap > 0 && next == pos / j.extcap * j.extcap + j.extcap
    requires Shape(d) && j.ino < |d.dir| && Progressed(j, d, pos) && Fresh(j, pos) && pos < 0x2000000
    ensures var (d', i) := ReachExtent(d, j.ino, pos / 16384);
            Progressed(j, d', pos) && (i != -1 ==> Located(j, d', i, pos / 16384, pos, pos, next))
  {
    hide Progressed, FindExtent, ReachExtent;
    WrittenReach(j, d, pos / 16384, pos);
    ShapeOf(j, ReachExtent(d, j.ino, pos / 16384).0, pos);
  }

  lemma {:induction false} ProgressConsistent(j: Job, d: Disk, pos: nat)
    requires Progressed(j, d, pos)
    ensures Consistent(d)
  {
    hide Agrees, Sound, Kept, Tidy, Mapped, Recorded;
  }

  lemma {:induction false} ShapeOf(j: Job, d: Disk, pos: nat)
    requires Progressed(j, d, pos)
    ensures Shape(d) && Regular(j.blksiz, j.extcap, d.extents) && j.ino < |d.dir|
  {
  }

  /** The slot for pos is filled, if it can be. */
  lemma {:induction false} SlotFilled(j: Job, d: Disk, i: nat, k: nat, x: nat, q: nat, pos: nat, next: nat)
    requires Shape(d) && j.extcap > 0 && j.blksiz > 0 && i < |d.dir| && k < Slots(d.size)
    requires Progressed(j, d, pos) && Located(j, d, i, x, q, pos, next) && k == pos % j.extcap / j.blksiz
    ensures var d' := ReachBlock(d, i, k);
            && Progressed(j, d', pos) && Located(j, d', i, x, q, pos, next)
            && (Pointer(d.dir[i], k, d.size) != 0 || NextBlock(d) != -1 ==> Pointer(d'.dir[i], k, d.size) != 0)
  {
    hide Progressed, FindExtent, ReachBlock, Pointer, NextBlock;
    InSlot(pos % j.extcap, j.blksiz);
    WrittenFill(j, d, x, i, k, pos);
    ShapeOf(j, ReachBlock(d, i, k), pos);
  }

  /** The last slot in use is one the entry covers, so the extent number stays. */
  lemma {:induction false} NoFurther(j: Job, d: Disk, i: nat, x: nat, q: nat, pos: nat, next: nat, last: int)
    requires j.extcap > 0 && Progressed(j, d, pos) && Located(j, d, i, x, q, pos, next) && i < |d.dir|
    requires last > 0 && last < Slots(d.size) && Pointer(d.dir[i], last, d.size) != 0
    ensures last * j.blksiz / j.extcap == 0
  {
    hide Consistent, Kept, Mapped, Recorded, FindExtent, Pointer, Matches, LookupOf;
    FoundHit(d, j.f, 0, x);
    assert last * j.blksiz < j.extcap;
    SmallQuotient(last * j.blksiz, j.extcap);
  }

  lemma {:induction false} SmallQuotient(a: nat, n: nat)
    requires a < n
    ensures a / n == 0
  {
  }

  /** After n more bytes the entry either ends, or pos is still in it. */
  lemma {:induction false} PartWritten(j: Job, d: Disk, i: nat, k: nat, x: nat, q: nat, pos: nat, next: nat, n: nat)
    requires Shape(d) && j.extcap > 0 && j.blksiz > 0 && i < |d.dir| && k < Slots(d.size) && Pointer(d.dir[i], k, d.size) != 0
    requires Progressed(j, d, pos) && Located(j, d, i, x, q, pos, next) && k == pos % j.extcap / j.blksiz
    requires n > 0 && pos + n <= pos / j.blksiz * j.blksiz + j.blksiz && pos + n <= 0x2000000
    ensures var d' := Step(d, Measurement(i, x, pos + n, j.exact));
            Progressed(j, d', pos + n) && if pos + n == next then Fresh(j, pos + n) else Located(j, d', i, x, q, pos + n, next)
  {
    hide Progressed, FindExtent, Pointer, Measurement, Step;
    ShapeOf(j, d, pos);
    WrittenMore(j, d, i, k, q, pos, n);
    PlaceInBlock(pos, pos + n - 1, j.blksiz, j.extcap);
    AfterPart(q, pos + n, next, j.extcap);
    ShapeKept(d, Measurement(i, x, pos + n, j.exact));
    ShapeOf(j, Step(d, Measurement(i, x, pos + n, j.exact)), pos + n);
  }

  lemma {:induction false} AfterPart(q: nat, pos: nat, next: nat, n: nat)
    requires n > 0 && pos > 0 && (pos - 1) / n == q / n && next == q / n * n + n
    ensures if pos == next then pos % n == 0 else pos / n == q / n
  {
    if pos == next {
      MultipleMod(q / n + 1, n);
      assert next == (q / n + 1) * n;
    } else {
      DivUnique(pos, n, q / n, pos - q / n * n);
    }
  }

  /**
   The file has been written up to pos: no other file is touched and no block
   lost, every position from the start on has a block, and the length recorded
   is pos exactly if no logical extent has begun within the last entry since
   it was looked up.
  */
  ghost predicate Accomplished(j: Job, d: Disk, pos: nat) {
    && j.extcap > 0 && d.extents > 0 && Kept(j.d0, d, j.f)
    && (forall p {:trigger Mapped(d, j.f, j.blksiz, j.extcap, p)} :: j.start <= p < pos ==> Mapped(d, j.f, j.blksiz, j.extcap, p))
    && (pos > j.start ==>
          var i := FindExtent(d, j.f, 0, (pos - 1) / 16384);
          i != -1 && (EndSaid(d.dir[i], j.exact) == pos <==> LookupOf(j.start, pos, j.extcap) / 16384 == (pos - 1) / 16384))
  }

  lemma {:induction false} ProgressMeans(j: Job, d: Disk, pos: nat)
    requires Progressed(j, d, pos)
    ensures j.extcap > 0 && d.extents > 0 && Kept(j.d0, d, j.f)
    ensures forall p {:trigger Mapped(d, j.f, j.blksiz, j.extcap, p)} :: j.start <= p < pos ==> Mapped(d, j.f, j.blksiz, j.extcap, p)
  {
    hide Consistent, Kept, Mapped, Tidy, Recorded;
  }

  /** The length recorded is the position reached exactly if no logical extent has begun since the entry was looked up. */
  lemma {:induction false} LengthRight(j: Job, d: Disk, pos: nat)
    requires Progressed(j, d, pos) && pos > j.start
    ensures j.extcap > 0
    ensures var i := FindExtent(d, j.f, 0, (pos - 1) / 16384);
            i != -1 && (EndSaid(d.dir[i], j.exact) == pos <==> LookupOf(j.start, pos, j.extcap) / 16384 == (pos - 1) / 16384)
  {
    hide Consistent, Kept, Mapped, Tidy, FindExtent, EndSaid, LookupOf;
    ShapeOf(j, d, pos);
    var q := LookupOf(j.start, pos, j.extcap);
    assert pos == (pos - 1) / 16384 * 16384 + (pos - 1) % 16384 + 1;
  }

  lemma {:induction false} JobDone(j: Job, d: Disk, pos: nat)
    requires Progressed(j, d, pos)
    ensures Accomplished(j, d, pos)
  {
    ProgressMeans(j, d, pos);
    hide Progressed, Kept, Mapped, FindExtent, EndSaid, LookupOf;
    if pos > j.start { LengthRight(j, d, pos); }
  }

  /** A finding: 20000 bytes written at once to an entry of two logical extents are recorded as 3616. */
  lemma {:induction false} LengthLost(d: Disk, f: File, exact: bool)
    requires d.extents > 0 && Recorded(d, f, exact, 20000, LookupOf(0, 20000, 32768))
    ensures EndSaid(d.dir[FindExtent(d, f, 0, 1)], exact) == 3616
  {
    hide FindExtent, EndSaid;
    assert LookupOf(0, 20000, 32768) == 0;
  }
}
