/**
 The directory of a CP/M disk, and which blocks it uses.
*/
module CpmDirectory {
  import opened Bits

  /** A directory entry of 32 bytes. */
  datatype RawEntry = Entry(status: byte, name: seq<byte>, ext: seq<byte>, extnol: byte, lrc: byte, extnoh: byte,
                            blkcnt: byte, pointers: seq<byte>)

  type Entry = e: RawEntry | |e.name| == 8 && |e.ext| == 3 && |e.pointers| == 16
    witness Entry(UNUSED, Repeat<byte>(UNUSED, 8), Repeat<byte>(UNUSED, 3), UNUSED, UNUSED, UNUSED, UNUSED, Repeat<byte>(UNUSED, 16))

  const UNUSED: byte := 0xE5

  /** The highest user number: file systems with high user numbers go up to 31. */
  function MaxUser(hi: bool): byte { if hi then 31 else 15 }

  /** The entry belongs to a file. */
  predicate Live(e: Entry, hi: bool) { e.status <= MaxUser(hi) }

  /** How many block pointers an entry holds: they take two bytes if there are more than 256 blocks. */
  function Slots(size: nat): nat { if size > 256 then 8 else 16 }

  function Pointer(e: Entry, k: nat, size: nat): (b: nat)
    requires k < Slots(size)
  {
    if size > 256 then e.pointers[2 * k] as int + 256 * e.pointers[2 * k + 1] as int else e.pointers[k]
  }

  function SetPointer(e: Entry, k: nat, b: nat, size: nat): (r: Entry)
    requires k < Slots(size) && b < size <= 0x10000
    ensures r == e.(pointers := r.pointers) && Pointer(r, k, size) == b
    ensures forall j {:trigger Pointer(r, j, size)} :: 0 <= j < Slots(size) && j != k ==> Pointer(r, j, size) == Pointer(e, j, size)
  {
    if size > 256 then e.(pointers := e.pointers[2 * k := b % 256][2 * k + 1 := b / 256])
    else e.(pointers := e.pointers[k := b])
  }

  function NoPointers(): seq<byte> { Repeat<byte>(0, 16) }

  /** A disk: geometry, directory, and one bit per block saying whether it is taken. */
  datatype Disk = Disk(dirblks: nat, size: nat, hi: bool, extents: nat, dir: seq<Entry>, used: seq<bool>)

  /** Directory blocks come first; blocks are numbered by at most two bytes; there is a bit for every block. */
  predicate Shape(d: Disk) {
    0 < d.dirblks <= d.size <= |d.used| && d.size <= 0x10000 && d.extents > 0
  }

  /** Slot k of live entry i holds block b. */
  predicate Holds(d: Disk, i: nat, k: nat, b: nat) {
    i < |d.dir| && Live(d.dir[i], d.hi) && k < Slots(d.size) && Pointer(d.dir[i], k, d.size) == b && b > 0
  }

  /** Some live entry holds block b. */
  ghost predicate Held(d: Disk, b: nat) { exists i, k :: Holds(d, i, k, b) }

  ghost predicate InUse(d: Disk, b: nat) {
    b < d.dirblks || (b < d.size && Held(d, b))
  }

  /** The bitmap says exactly which blocks are in use. */
  ghost predicate Agrees(d: Disk) {
    forall b {:trigger d.used[b]} :: 0 <= b < |d.used| ==> (d.used[b] <==> InUse(d, b))
  }

  /** No block is held twice, and all blocks held lie in the data area. */
  ghost predicate Sound(d: Disk) {
    && (forall i, k, b: nat :: Holds(d, i, k, b) ==> d.dirblks <= b < d.size)
    && (forall i, k, i', k', b :: Holds(d, i, k, b) && Holds(d, i', k', b) ==> i == i' && k == k')
  }

  ghost predicate Consistent(d: Disk) { Shape(d) && Agrees(d) && Sound(d) }

  /** The bitmap as it is recomputed from the directory. */
  ghost function Rebuilt(d: Disk): (r: seq<bool>)
    ensures |r| == |d.used| && forall b :: 0 <= b < |r| ==> (r[b] <==> InUse(d, b))
  {
    seq(|d.used|, b requires 0 <= b < |d.used| => InUse(d, b))
  }

  lemma {:induction false} AgreesIsRebuilt(d: Disk)
    ensures Agrees(d) <==> d.used == Rebuilt(d)
  {
    if Agrees(d) { assert d.used == Rebuilt(d); }
  }

  /** Two directories whose live entries hold the same blocks. */
  ghost predicate SameHoldings(d: Disk, r: Disk) {
    && r.dirblks == d.dirblks && r.size == d.size && r.extents == d.extents && |r.used| == |d.used| && r.hi == d.hi
    && forall i, k, b :: Holds(r, i, k, b) <==> Holds(d, i, k, b)
  }

  lemma {:induction false} SameHeld(d: Disk, r: Disk, b: nat)
    requires SameHoldings(d, r)
    ensures Held(r, b) <==> Held(d, b)
  {
    if Held(r, b) { var i, k :| Holds(r, i, k, b); assert Holds(d, i, k, b); }
    if Held(d, b) { var i, k :| Holds(d, i, k, b); assert Holds(r, i, k, b); }
  }

  lemma {:induction false} SameStaysConsistent(d: Disk, r: Disk)
    requires Consistent(d) && SameHoldings(d, r) && r.used == d.used
    ensures Consistent(r)
  {
    forall b | 0 <= b < |r.used| ensures r.used[b] <==> InUse(r, b) { SameHeld(d, r, b); }
  }

  // ----------------------------------------------------------- allocation

  /** The first clear bit from b on. */
  function FirstClear(used: seq<bool>, b: nat): (r: int)
    requires b <= |used|
    ensures r == -1 || (b <= r < |used| && !used[r])
    ensures forall i :: b <= i < (if r == -1 then |used| else r) ==> used[i]
    decreases |used| - b
  {
    if b == |used| then -1 else if !used[b] then b else FirstClear(used, b + 1)
  }

  /** The block an allocation would take; -1 if the disk is full. */
  function NextBlock(d: Disk): (b: int)
    requires Shape(d)
    ensures -1 <= b < d.size
  {
    var b := FirstClear(d.used, 0);
    if b >= d.size then -1 else b
  }

  /** Take block b and put it into slot k of entry i. */
  function Taken(d: Disk, i: nat, k: nat, b: nat): (r: Disk)
    requires Shape(d) && i < |d.dir| && k < Slots(d.size) && b < d.size
    ensures Shape(r)
  {
    d.(dir := d.dir[i := SetPointer(d.dir[i], k, b, d.size)], used := d.used[b := true])
  }

  lemma {:induction false} TakenHolds(d: Disk, i: nat, k: nat, b: nat, i': nat, k': nat, b': nat)
    requires Shape(d) && i < |d.dir| && k < Slots(d.size) && 0 < b < d.size && Pointer(d.dir[i], k, d.size) == 0
    ensures Holds(Taken(d, i, k, b), i', k', b') <==>
            (if i' == i && k' == k then b' == b && Live(d.dir[i], d.hi) else Holds(d, i', k', b'))
  {
    var e := SetPointer(d.dir[i], k, b, d.size);
    if i' == i && k' < Slots(d.size) && k' != k { assert Pointer(e, k', d.size) == Pointer(d.dir[i], k', d.size); }
  }

  lemma {:induction false} TakenHeld(d: Disk, i: nat, k: nat, b: nat, b': nat)
    requires Shape(d) && i < |d.dir| && k < Slots(d.size) && 0 < b < d.size && Pointer(d.dir[i], k, d.size) == 0
    ensures Held(Taken(d, i, k, b), b') <==> (Held(d, b') || (b' == b && Live(d.dir[i], d.hi)))
  {
    var r := Taken(d, i, k, b);
    if Held(r, b') {
      var i', k' :| Holds(r, i', k', b');
      TakenHolds(d, i, k, b, i', k', b');
    }
    if Held(d, b') {
      var i', k' :| Holds(d, i', k', b');
      TakenHolds(d, i, k, b, i', k', b');
    }
    TakenHolds(d, i, k, b, i, k, b);
  }

  lemma {:induction false} NextBlockFree(d: Disk)
    requires Consistent(d) && NextBlock(d) != -1
    ensures d.dirblks <= NextBlock(d) && !d.used[NextBlock(d)] && !Held(d, NextBlock(d))
  {
    assert InUse(d, NextBlock(d)) <==> d.used[NextBlock(d)];
  }

  /** Allocating into an empty slot of an entry keeps the disk consistent exactly if the entry is live. */
  lemma {:induction false} TakenConsistent(d: Disk, i: nat, k: nat)
    requires Consistent(d) && i < |d.dir| && k < Slots(d.size) && Pointer(d.dir[i], k, d.size) == 0 && NextBlock(d) != -1
    ensures Consistent(Taken(d, i, k, NextBlock(d))) <==> Live(d.dir[i], d.hi)
  {
    var b := NextBlock(d);
    var r := Taken(d, i, k, b);
    NextBlockFree(d);
    TakenHeld(d, i, k, b, b);
    if Live(d.dir[i], d.hi) {
      forall b' | 0 <= b' < |r.used| ensures r.used[b'] <==> InUse(r, b') { TakenHeld(d, i, k, b, b'); }
      TakenSound(d, i, k, b);
    } else {
      assert r.used[b] && !InUse(r, b);
    }
  }

  lemma {:induction false} TakenSound(d: Disk, i: nat, k: nat, b: nat)
    requires Shape(d) && Sound(d) && i < |d.dir| && k < Slots(d.size) && Pointer(d.dir[i], k, d.size) == 0
    requires d.dirblks <= b < d.size && !Held(d, b)
    ensures Sound(Taken(d, i, k, b))
  {
    var r := Taken(d, i, k, b);
    forall i', k', b': nat | Holds(r, i', k', b') ensures r.dirblks <= b' < r.size {
      TakenHolds(d, i, k, b, i', k', b');
    }
    forall i', k', i'', k'', b' | Holds(r, i', k', b') && Holds(r, i'', k'', b') ensures i' == i'' && k' == k'' {
      TakenHolds(d, i, k, b, i', k', b');
      TakenHolds(d, i, k, b, i'', k'', b');
    }
  }
}
