/**
 What creating, renaming, deleting and writing files do to the directory and
 the block bitmap.
*/
module CpmFiles {
  import opened Bits
  import opened CpmDirectory

  /** A file is known by user number, name and extension. */
  datatype RawFile = File(user: byte, name: seq<byte>, ext: seq<byte>)
  type File = f: RawFile | |f.name| == 8 && |f.ext| == 3 witness File(0, Repeat<byte>(32, 8), Repeat<byte>(32, 3))

  /** The same characters, whatever their high bits say. */
  predicate SameText(a: seq<byte>, b: seq<byte>) {
    |a| == |b| && forall i :: 0 <= i < |a| ==> a[i] % 128 == b[i] % 128
  }

  method SameChars(a: seq<byte>, b: seq<byte>) returns (same: bool)
    requires |a| == |b|
    ensures same == SameText(a, b)
  {
    var i := 0;
    while i < |a| && a[i] % 128 == b[i] % 128
      invariant 0 <= i <= |a| && forall j :: 0 <= j < i ==> a[j] % 128 == b[j] % 128
    {
      i := i + 1;
    }
    same := i == |a|;
  }

  function Owner(e: Entry): File { File(e.status, e.name, e.ext) }

  predicate Matches(e: Entry, f: File, hi: bool) {
    Live(e, hi) && e.status == f.user && SameText(e.name, f.name) && SameText(e.ext, f.ext)
  }

  function ExtentOf(e: Entry): nat { e.extnol % 32 + e.extnoh % 64 * 32 }

  /** The first entry from start on that belongs to f and, unless extno is -1, to its extent extno. */
  function FindExtent(d: Disk, f: File, start: nat, extno: int): (i: int)
    requires d.extents > 0 && start <= |d.dir|
    ensures i == -1 || (start <= i < |d.dir| && Matches(d.dir[i], f, d.hi))
    ensures extno == -1 ==> forall j :: start <= j < (if i == -1 then |d.dir| else i) ==> !Matches(d.dir[j], f, d.hi)
    decreases |d.dir| - start
  {
    if start == |d.dir| then -1
    else if (extno == -1 || ExtentOf(d.dir[start]) / d.extents == extno / d.extents) && Matches(d.dir[start], f, d.hi) then start
    else FindExtent(d, f, start + 1, extno)
  }

  /** Extent numbers that share an entry find the same entry. */
  lemma {:induction false} FindExtentSame(d: Disk, f: File, start: nat, e: nat, e': nat)
    requires d.extents > 0 && start <= |d.dir| && e / d.extents == e' / d.extents
    ensures FindExtent(d, f, start, e) == FindExtent(d, f, start, e')
    decreases |d.dir| - start
  {
    if start < |d.dir| { FindExtentSame(d, f, start + 1, e, e'); }
  }

  /** The first unused entry. */
  function FindFree(dir: seq<Entry>, start: nat): (i: int)
    requires start <= |dir|
    ensures i == -1 || (start <= i < |dir| && dir[i].status == UNUSED)
    ensures forall j :: start <= j < (if i == -1 then |dir| else i) ==> dir[j].status != UNUSED
    decreases |dir| - start
  {
    if start == |dir| then -1 else if dir[start].status == UNUSED then start else FindFree(dir, start + 1)
  }

  // ------------------------------------------------------------ operations

  function FreshEntry(f: File): Entry { Entry(f.user, f.name, f.ext, 0, 0, 0, 0, NoPointers()) }

  function Created(d: Disk, i: nat, f: File): Disk
    requires i < |d.dir|
  {
    d.(dir := d.dir[i := FreshEntry(f)])
  }

  /** Copy text, leaving the high bits of the destination alone. */
  function Overwrite(dest: seq<byte>, text: seq<byte>): (r: seq<byte>)
    requires |dest| == |text|
    ensures |r| == |dest| && SameText(r, text) && forall i :: 0 <= i < |r| ==> r[i] / 128 == dest[i] / 128
  {
    seq(|dest|, i requires 0 <= i < |dest| => dest[i] / 128 * 128 + text[i] % 128)
  }

  function Renamed(e: Entry, f: File): Entry {
    e.(status := f.user, name := Overwrite(e.name, f.name), ext := Overwrite(e.ext, f.ext))
  }

  function RenameAll(d: Disk, f: File, g: File): Disk {
    d.(dir := seq(|d.dir|, i requires 0 <= i < |d.dir| => if Matches(d.dir[i], f, d.hi) then Renamed(d.dir[i], g) else d.dir[i]))
  }

  function EraseAll(dir: seq<Entry>, f: File, hi: bool): (r: seq<Entry>)
    ensures |r| == |dir|
  {
    seq(|dir|, i requires 0 <= i < |dir| => if Matches(dir[i], f, hi) then dir[i].(status := UNUSED) else dir[i])
  }

  ghost function Unlinked(d: Disk, f: File): Disk {
    var r := d.(dir := EraseAll(d.dir, f, d.hi));
    r.(used := Rebuilt(r))
  }

  /** Entry i becomes a further extent of the file that entry ino belongs to. */
  function NextExtent(d: Disk, i: nat, ino: nat, extno: nat): Disk
    requires i < |d.dir| && ino < |d.dir|
  {
    d.(dir := d.dir[i := d.dir[ino].(pointers := NoPointers(), extnol := extno % 32, extnoh := extno / 32 % 64, blkcnt := 0, lrc := 0)])
  }

  /** Find, or make, extent extno of the file of entry ino; -1 if the directory is full. */
  function ReachExtent(d: Disk, ino: nat, extno: nat): (r: (Disk, int))
    requires Shape(d) && ino < |d.dir|
    ensures Shape(r.0) && |r.0.dir| == |d.dir| && -1 <= r.1 < |d.dir| && r.0.size == d.size
  {
    var i := FindExtent(d, Owner(d.dir[ino]), 0, extno);
    if i != -1 then (d, i) else
    var j := FindFree(d.dir, 0);
    if j == -1 then (d, -1) else (NextExtent(d, j, ino, extno), j)
  }

  /** Allocate a block for slot k of entry i, unless it has one. */
  function ReachBlock(d: Disk, i: nat, k: nat): (r: Disk)
    requires Shape(d) && i < |d.dir| && k < Slots(d.size)
    ensures Shape(r)
  {
    if Pointer(d.dir[i], k, d.size) != 0 || NextBlock(d) == -1 then d else Taken(d, i, k, NextBlock(d))
  }

  /** What writing into block k of extent extno of entry ino's file does to directory and bitmap. */
  function Written(d: Disk, ino: nat, extno: nat, k: nat): (r: Disk)
    requires Shape(d) && ino < |d.dir| && k < Slots(d.size)
    ensures Shape(r)
  {
    var (d', i) := ReachExtent(d, ino, extno);
    if i == -1 then d' else ReachBlock(d', i, k)
  }

  // --------------------------------------------------- whose entries there are

  predicate SameFile(f: File, g: File) { f.user == g.user && SameText(f.name, g.name) && SameText(f.ext, g.ext) }

  lemma {:induction false} NotFound(d: Disk, f: File, i: nat)
    requires d.extents > 0 && FindExtent(d, f, 0, -1) == -1 && i < |d.dir|
    ensures !Matches(d.dir[i], f, d.hi)
  {
  }

  /** Creating gives the file one entry, without blocks, and no other file loses or gets one. */
  lemma {:induction false} CreateMeans(d: Disk, f: File, i: nat)
    requires Shape(d) && f.user <= MaxUser(d.hi) && FindExtent(d, f, 0, -1) == -1 && FindFree(d.dir, 0) != -1 && i < |d.dir|
    ensures var r := Step(d, Creat(f)); |r.dir| == |d.dir| && (Matches(r.dir[i], f, d.hi) <==> i == FindFree(d.dir, 0))
    ensures var e := Step(d, Creat(f)).dir[FindFree(d.dir, 0)]; ExtentOf(e) == 0 && e.pointers == NoPointers() && Owner(e) == f
    ensures forall g :: !SameFile(f, g) ==> (Matches(Step(d, Creat(f)).dir[i], g, d.hi) <==> Matches(d.dir[i], g, d.hi))
  {
    NotFound(d, f, i);
  }

  /** Renaming hands the entries of the file over to the new name, and all else stays as it is. */
  lemma {:induction false} RenameMeans(d: Disk, f: File, g: File, i: nat)
    requires Shape(d) && g.user <= MaxUser(d.hi) && FindExtent(d, f, 0, -1) != -1 && FindExtent(d, g, 0, -1) == -1 && i < |d.dir|
    ensures var r, e := Step(d, Rename(f, g)), d.dir[i];
            && |r.dir| == |d.dir| && (Matches(r.dir[i], g, d.hi) <==> Matches(e, f, d.hi)) && !Matches(r.dir[i], f, d.hi)
            && r.dir[i] == e.(status := r.dir[i].status, name := r.dir[i].name, ext := r.dir[i].ext)
            && (!Matches(e, f, d.hi) ==> r.dir[i] == e)
  {
    NotFound(d, g, i);
  }

  /** Deleting leaves the file no entry, and all other entries as they are. */
  lemma {:induction false} UnlinkMeans(d: Disk, f: File, i: nat)
    requires Shape(d) && i < |d.dir|
    ensures var r, e := Step(d, Unlink(f)), d.dir[i];
            && |r.dir| == |d.dir| && !Matches(r.dir[i], f, d.hi)
            && r.dir[i] == if Matches(e, f, d.hi) then e.(status := 0xE5) else e
  {
    if FindExtent(d, f, 0, -1) == -1 { NotFound(d, f, i); }
  }

  // ------------------------------------------------------- what they keep

  lemma {:induction false} NoPointersHold(d: Disk, i: nat, e: Entry)
    requires i < |d.dir| && !Live(d.dir[i], d.hi) && e.pointers == NoPointers()
    ensures SameHoldings(d, d.(dir := d.dir[i := e]))
  {
    var r := d.(dir := d.dir[i := e]);
    forall i', k, b ensures Holds(r, i', k, b) <==> Holds(d, i', k, b) {}
  }

  /** An unused entry does not belong to any file. */
  lemma {:induction false} CreatedConsistent(d: Disk, i: nat, f: File)
    requires Consistent(d) && i < |d.dir| && d.dir[i].status == UNUSED
    ensures Consistent(Created(d, i, f))
  {
    NoPointersHold(d, i, FreshEntry(f));
    SameStaysConsistent(d, Created(d, i, f));
  }

  lemma {:induction false} RenameConsistent(d: Disk, f: File, g: File)
    requires Consistent(d) && g.user <= MaxUser(d.hi)
    ensures Consistent(RenameAll(d, f, g))
  {
    var r := RenameAll(d, f, g);
    forall i, k, b ensures Holds(r, i, k, b) <==> Holds(d, i, k, b) {}
    SameStaysConsistent(d, r);
  }

  lemma {:induction false} UnlinkedConsistent(d: Disk, f: File)
    requires Consistent(d)
    ensures Consistent(Unlinked(d, f))
  {
    var r := Unlinked(d, f);
    forall i, k, b ensures Holds(r, i, k, b) ==> Holds(d, i, k, b) {}
    forall b | 0 <= b < |r.used| ensures r.used[b] <==> InUse(r, b) {
      SameHoldingsBitmap(d.(dir := EraseAll(d.dir, f, d.hi)), b, r.used);
    }
  }

  /** Which blocks are held does not depend on the bitmap. */
  lemma {:induction false} SameHoldingsBitmap(d: Disk, b: nat, used: seq<bool>)
    ensures InUse(d.(used := used), b) <==> InUse(d, b)
  {
    var r := d.(used := used);
    if Held(d, b) { var i, k :| Holds(d, i, k, b); assert Holds(r, i, k, b); }
    if Held(r, b) { var i, k :| Holds(r, i, k, b); assert Holds(d, i, k, b); }
  }

  /** The entry reached is that of a file exactly if the entry it started from is, and that stays so. */
  lemma {:induction false} ReachedLive(d: Disk, ino: nat, extno: nat)
    requires Shape(d) && ino < |d.dir|
    ensures var (d', i) := ReachExtent(d, ino, extno);
            && (i != -1 ==> (Live(d'.dir[i], d.hi) <==> Live(d.dir[ino], d.hi)))
            && (Live(d'.dir[ino], d.hi) <==> Live(d.dir[ino], d.hi)) && d'.hi == d.hi
  {
  }

  lemma {:induction false} ReachExtentConsistent(d: Disk, ino: nat, extno: nat)
    requires Consistent(d) && ino < |d.dir|
    ensures Consistent(ReachExtent(d, ino, extno).0)
    ensures var (d', i) := ReachExtent(d, ino, extno); i != -1 ==> (Live(d'.dir[i], d.hi) <==> Live(d.dir[ino], d.hi))
    ensures ReachExtent(d, ino, extno).0.used == d.used && ReachExtent(d, ino, extno).0.hi == d.hi
  {
    ReachedLive(d, ino, extno);
    var (d', i) := ReachExtent(d, ino, extno);
    if i != -1 && d' != d {
      NoPointersHold(d, i, d'.dir[i]);
      SameStaysConsistent(d, d');
    }
  }

  /** A full disk, or a full directory that does not have the extent yet: nothing is allocated. */
  predicate NothingToTake(d: Disk, ino: nat, extno: nat)
    requires Shape(d) && ino < |d.dir|
  {
    ReachExtent(d, ino, extno).1 == -1 || NextBlock(d) == -1
  }

  /** Giving an entry a block keeps the disk consistent exactly if the entry is live, or gets none. */
  lemma {:induction false} FilledConsistent(d: Disk, i: nat, k: nat)
    requires Consistent(d) && i < |d.dir| && k < Slots(d.size)
    ensures Consistent(ReachBlock(d, i, k)) <==>
              (Live(d.dir[i], d.hi) || Pointer(d.dir[i], k, d.size) != 0 || NextBlock(d) == -1)
  {
    if Pointer(d.dir[i], k, d.size) == 0 && NextBlock(d) != -1 { TakenConsistent(d, i, k); }
  }

  /**
   Writing keeps the disk consistent exactly if the file is still there, or
   nothing can be allocated: through a file that has been deleted, a write
   takes a block that no file will ever hold.
  */
  lemma {:induction false} WrittenConsistent(d: Disk, ino: nat, extno: nat, k: nat)
    requires Consistent(d) && ino < |d.dir| && k < Slots(d.size)
    ensures Consistent(Written(d, ino, extno, k)) <==> (Live(d.dir[ino], d.hi) || NothingToTake(d, ino, extno))
  {
    ReachExtentConsistent(d, ino, extno);
    var (d', i) := ReachExtent(d, ino, extno);
    if i != -1 {
      assert NextBlock(d') == NextBlock(d);
      FilledConsistent(d', i, k);
    }
  }

  /** The fields of an entry that say how long the file is do not matter for its blocks. */
  lemma {:induction false} MeasuredConsistent(d: Disk, i: nat, e: Entry)
    requires Consistent(d) && i < |d.dir| && e.status == d.dir[i].status && e.pointers == d.dir[i].pointers
    ensures Consistent(d.(dir := d.dir[i := e]))
  {
    var r := d.(dir := d.dir[i := e]);
    forall i', k, b ensures Holds(r, i', k, b) <==> Holds(d, i', k, b) {}
    SameStaysConsistent(d, r);
  }

  // ---------------------------------------------------------------- runs

  datatype Op =
    | Creat(f: File)
    | Rename(f: File, g: File)
    | Unlink(f: File)
    | Reach(ino: nat, extno: nat)
    | Fill(i: nat, k: nat)
    | Measure(ino: nat, extnol: byte, extnoh: byte, blkcnt: byte, lrc: byte)

  /** The directory and bitmap after an operation; an operation that fails changes nothing. */
  ghost function Step(d: Disk, op: Op): Disk
    requires Shape(d)
  {
    match op
    case Creat(f) =>
      if FindExtent(d, f, 0, -1) != -1 || FindFree(d.dir, 0) == -1 then d else Created(d, FindFree(d.dir, 0), f)
    case Rename(f, g) =>
      if FindExtent(d, f, 0, -1) == -1 || FindExtent(d, g, 0, -1) != -1 then d else RenameAll(d, f, g)
    case Unlink(f) => if FindExtent(d, f, 0, -1) == -1 then d else Unlinked(d, f)
    case Reach(ino, extno) => if ino < |d.dir| then ReachExtent(d, ino, extno).0 else d
    case Fill(i, k) => if i < |d.dir| && k < Slots(d.size) then ReachBlock(d, i, k) else d
    case Measure(ino, l, h, c, r) =>
      if ino < |d.dir| then d.(dir := d.dir[ino := d.dir[ino].(extnol := l, extnoh := h, blkcnt := c, lrc := r)]) else d
  }

  /** User numbers are those a file name can have, and blocks go to entries of files that are still there. */
  ghost predicate Proper(d: Disk, op: Op) {
    match op
    case Rename(_, g) => g.user <= MaxUser(d.hi)
    case Fill(i, _) => i < |d.dir| ==> Live(d.dir[i], d.hi)
    case _ => true
  }

  lemma {:induction false} StepConsistent(d: Disk, op: Op)
    requires Consistent(d) && Proper(d, op)
    ensures Consistent(Step(d, op))
  {
    match op
    case Creat(f) => if Step(d, op) != d { CreatedConsistent(d, FindFree(d.dir, 0), f); }
    case Rename(f, g) => RenameConsistent(d, f, g);
    case Unlink(f) => UnlinkedConsistent(d, f);
    case Reach(ino, extno) => if ino < |d.dir| { ReachExtentConsistent(d, ino, extno); }
    case Fill(i, k) => if i < |d.dir| && k < Slots(d.size) { FilledConsistent(d, i, k); }
    case Measure(ino, l, h, c, r) =>
      if ino < |d.dir| { MeasuredConsistent(d, ino, d.dir[ino].(extnol := l, extnoh := h, blkcnt := c, lrc := r)); }
  }

  ghost function Run(d: Disk, ops: seq<Op>): Disk
    requires Shape(d)
    decreases |ops|
  {
    if ops == [] then d else
    ShapeKept(d, ops[0]);
    Run(Step(d, ops[0]), ops[1..])
  }

  lemma {:induction false} ShapeKept(d: Disk, op: Op)
    requires Shape(d)
    ensures Shape(Step(d, op))
  {
  }

  ghost predicate ProperRun(d: Disk, ops: seq<Op>)
    requires Shape(d)
    decreases |ops|
  {
    ops == [] || (Proper(d, ops[0]) && (ShapeKept(d, ops[0]); ProperRun(Step(d, ops[0]), ops[1..])))
  }

  /** Over every run the bitmap is what would be recomputed, and no block is held twice. */
  lemma {:induction false} RunConsistent(d: Disk, ops: seq<Op>)
    requires Consistent(d) && ProperRun(d, ops)
    ensures Consistent(Run(d, ops)) && Run(d, ops).used == Rebuilt(Run(d, ops))
    decreases |ops|
  {
    if ops == [] {
      AgreesIsRebuilt(d);
    } else {
      StepConsistent(d, ops[0]);
      RunConsistent(Step(d, ops[0]), ops[1..]);
    }
  }

  /** A disk without files. */
  ghost predicate Blank(d: Disk) {
    Shape(d) && (forall i :: 0 <= i < |d.dir| ==> d.dir[i].status == UNUSED) && d.used == Rebuilt(d)
  }

  lemma {:induction false} BlankConsistent(d: Disk)
    requires Blank(d)
    ensures Consistent(d)
  {
    AgreesIsRebuilt(d);
  }

  /** Create a file, delete it, and write through what was opened: the bitmap is no longer that of the directory. */
  lemma {:induction false} StaleWrite(d: Disk, f: File)
    requires Blank(d) && |d.dir| > 0 && f.user <= MaxUser(d.hi) && NextBlock(d) != -1
    ensures var ops := [Creat(f), Unlink(f), Reach(0, 0), Fill(0, 0)]; !Consistent(Run(d, ops))
  {
    BlankConsistent(d);
    var d1 := Step(d, Creat(f));
    assert d1 == Created(d, 0, f);
    StepConsistent(d, Creat(f));
    var d2 := Step(d1, Unlink(f));
    assert Matches(d1.dir[0], f, d.hi);
    StepConsistent(d1, Unlink(f));
    assert d2.dir[0].status == UNUSED;
    SameBitmap(d, d2);
    WrittenConsistent(d2, 0, 0, 0);
    var d3 := Step(d2, Reach(0, 0));
    assert ReachExtent(d2, 0, 0).1 == 0;
    assert Step(d3, Fill(0, 0)) == Written(d2, 0, 0, 0);
    RunFour(d, Creat(f), Unlink(f), Reach(0, 0), Fill(0, 0));
  }

  lemma {:induction false} RunFour(d: Disk, a: Op, b: Op, c: Op, e: Op)
    requires Shape(d)
    ensures Shape(Step(d, a)) && Shape(Step(Step(d, a), b)) && Shape(Step(Step(Step(d, a), b), c))
    ensures Run(d, [a, b, c, e]) == Step(Step(Step(Step(d, a), b), c), e)
  {
    hide Step;
    ShapeKept(d, a);
    RunFirst(d, a, [b, c, e]);
    ShapeKept(Step(d, a), b);
    RunFirst(Step(d, a), b, [c, e]);
    ShapeKept(Step(Step(d, a), b), c);
    RunFirst(Step(Step(d, a), b), c, [e]);
    RunFirst(Step(Step(Step(d, a), b), c), e, []);
    ShapeKept(Step(Step(Step(d, a), b), c), e);
  }

  lemma {:induction false} RunFirst(d: Disk, op: Op, ops: seq<Op>)
    requires Shape(d)
    ensures Shape(Step(d, op)) && Run(d, [op] + ops) == Run(Step(d, op), ops)
  {
    hide Step;
    ShapeKept(d, op);
    assert ([op] + ops)[1..] == ops;
  }

  /** One more operation at the end of a run. */
  lemma {:induction false} RunMore(d: Disk, ops: seq<Op>, op: Op)
    requires Shape(d)
    ensures Shape(Run(d, ops)) && Run(d, ops + [op]) == Step(Run(d, ops), op)
    ensures ProperRun(d, ops + [op]) <==> ProperRun(d, ops) && Proper(Run(d, ops), op)
    decreases |ops|
  {
    hide Step, Proper;
    if ops == [] {
      assert [] + [op] == [op] && [op][1..] == [];
      ShapeKept(d, op);
    } else {
      ShapeKept(d, ops[0]);
      assert (ops + [op])[0] == ops[0] && (ops + [op])[1..] == ops[1..] + [op];
      RunMore(Step(d, ops[0]), ops[1..], op);
    }
  }

  lemma {:induction false} SameBitmap(d: Disk, r: Disk)
    requires Blank(d) && Consistent(r) && |r.dir| == |d.dir| && r.size == d.size && r.dirblks == d.dirblks && |r.used| == |d.used|
    requires forall i :: 0 <= i < |r.dir| ==> r.dir[i].status == UNUSED
    ensures r.used == d.used
  {
    forall b | 0 <= b < |r.used| ensures r.used[b] == d.used[b] {
      assert !Held(r, b) && !Held(d, b);
    }
  }
}
