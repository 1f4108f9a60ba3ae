/**
 The in-core state of a CP/M disk: the directory, and the block bitmap in words
 of 32 bits, both updated in place.
*/
module CpmDrive {
  import opened Bits
  import opened LowBits
  import opened CpmDirectory
  import opened CpmFiles

  const INTBITS := 32

  /** All bits of the words. */
  function Flags(words: seq<nat>): (r: seq<bool>)
    ensures |r| == INTBITS * |words|
    ensures forall b :: 0 <= b < |r| ==> r[b] == BitOf(words[b / INTBITS], b % INTBITS)
  {
    seq(INTBITS * |words|, b requires 0 <= b < INTBITS * |words| => BitOf(words[b / INTBITS], b % INTBITS))
  }

  lemma {:induction false} FlagsSet(words: seq<nat>, b: nat)
    requires b < INTBITS * |words|
    ensures Flags(words[b / INTBITS := SetBit(words[b / INTBITS], b % INTBITS)]) == Flags(words)[b := true]
  {
    var r := words[b / INTBITS := SetBit(words[b / INTBITS], b % INTBITS)];
    forall i | 0 <= i < INTBITS * |words| ensures Flags(r)[i] == (i == b || Flags(words)[i]) {
      if i / INTBITS == b / INTBITS { SetBitIs(words[b / INTBITS], b % INTBITS, i % INTBITS); }
    }
  }

  lemma {:induction false} FlagsNone(words: seq<nat>)
    requires forall i :: 0 <= i < |words| ==> words[i] == 0
    ensures forall b :: 0 <= b < |Flags(words)| ==> !Flags(words)[b]
  {
    forall b | 0 <= b < |Flags(words)| ensures !Flags(words)[b] { ZeroBits(b % INTBITS); }
  }

  lemma {:induction false} FirstClearIs(used: seq<bool>, start: nat, b: int)
    requires start <= |used| && (b == -1 || start <= b < |used|) && (b != -1 ==> !used[b])
    requires forall i :: start <= i < (if b == -1 then |used| else b) ==> used[i]
    ensures FirstClear(used, start) == b
    decreases |used| - start
  {
    if start < |used| && start != b { FirstClearIs(used, start + 1, b); }
  }

  // ----------------------------------------- marking the blocks of the files

  /** Block b is a directory block, or held in a slot before slot k of entry i. */
  ghost predicate InUseBefore(d: Disk, i: nat, k: nat, b: nat) {
    b < d.dirblks || (b < d.size && exists i', k' :: Before(i', k', i, k) && Holds(d, i', k', b))
  }

  predicate Before(i': nat, k': nat, i: nat, k: nat) { i' < i || (i' == i && k' < k) }

  lemma {:induction false} BeforeSlot(d: Disk, i: nat, k: nat, b: nat)
    ensures InUseBefore(d, i, k + 1, b) <==> (InUseBefore(d, i, k, b) || (b < d.size && Holds(d, i, k, b)))
  {
    if InUseBefore(d, i, k + 1, b) && !(b < d.dirblks) {
      var i', k' :| Before(i', k', i, k + 1) && Holds(d, i', k', b);
      assert Before(i', k', i, k) || (i' == i && k' == k);
    }
    if InUseBefore(d, i, k, b) && !(b < d.dirblks) {
      var i', k' :| Before(i', k', i, k) && Holds(d, i', k', b);
      assert Before(i', k', i, k + 1);
    }
    assert Before(i, k, i, k + 1);
  }

  lemma {:induction false} BeforeEntry(d: Disk, i: nat, k: nat, b: nat)
    requires k >= Slots(d.size) || i >= |d.dir| || !Live(d.dir[i], d.hi)
    ensures InUseBefore(d, i + 1, 0, b) <==> InUseBefore(d, i, k, b)
  {
    if InUseBefore(d, i + 1, 0, b) && !(b < d.dirblks) {
      var i', k' :| Before(i', k', i + 1, 0) && Holds(d, i', k', b);
      assert Before(i', k', i, k);
    }
    if InUseBefore(d, i, k, b) && !(b < d.dirblks) {
      var i', k' :| Before(i', k', i, k) && Holds(d, i', k', b);
      assert Before(i', k', i + 1, 0);
    }
  }

  lemma {:induction false} BeforeAll(d: Disk, b: nat)
    ensures InUseBefore(d, |d.dir|, 0, b) <==> InUse(d, b)
  {
    if b < d.size && Held(d, b) {
      var i, k :| Holds(d, i, k, b);
      assert Before(i, k, |d.dir|, 0);
    }
  }

  lemma {:induction false} BeforeNone(d: Disk, b: nat)
    ensures InUseBefore(d, 0, 0, b) <==> b < d.dirblks
  {
  }

  /** The flags set so far are those of the blocks in use before slot k of entry i. */
  ghost predicate MarkedTo(d: Disk, flags: seq<bool>, i: nat, k: nat) {
    |flags| == |d.used| && forall b {:trigger flags[b]} :: 0 <= b < |flags| ==> (flags[b] <==> InUseBefore(d, i, k, b))
  }

  lemma {:induction false} MarkedSlot(d: Disk, flags: seq<bool>, i: nat, k: nat)
    requires Shape(d) && MarkedTo(d, flags, i, k) && i < |d.dir| && Live(d.dir[i], d.hi) && k < Slots(d.size)
    ensures var b := Pointer(d.dir[i], k, d.size);
            MarkedTo(d, if b > 0 && b < d.size then flags[b := true] else flags, i, k + 1)
  {
    var p := Pointer(d.dir[i], k, d.size);
    var r := if p > 0 && p < d.size then flags[p := true] else flags;
    forall b | 0 <= b < |r| ensures r[b] <==> InUseBefore(d, i, k + 1, b) { BeforeSlot(d, i, k, b); }
  }

  lemma {:induction false} MarkedEntry(d: Disk, flags: seq<bool>, i: nat, k: nat)
    requires MarkedTo(d, flags, i, k) && (k >= Slots(d.size) || i >= |d.dir| || !Live(d.dir[i], d.hi))
    ensures MarkedTo(d, flags, i + 1, 0)
  {
    forall b | 0 <= b < |flags| ensures flags[b] <==> InUseBefore(d, i + 1, 0, b) { BeforeEntry(d, i, k, b); }
  }

  lemma {:induction false} MarkedAll(d: Disk, flags: seq<bool>)
    requires MarkedTo(d, flags, |d.dir|, 0)
    ensures flags == Rebuilt(d)
  {
    forall b | 0 <= b < |flags| ensures flags[b] == Rebuilt(d)[b] { BeforeAll(d, b); }
  }

  class Drive {
    const dirblks: nat
    const size: nat
    const hi: bool
    const extents: nat
    const dir: array<Entry>
    const alv: array<nat>

    ghost predicate Wired() {
      0 < dirblks <= size <= 0x10000 && size <= INTBITS * alv.Length && extents > 0
    }

    ghost function Now(): (d: Disk)
      requires Wired()
      reads dir, alv
      ensures Shape(d)
    {
      Disk(dirblks, size, hi, extents, dir[..], Flags(alv[..]))
    }

    // -------------------------------------------------------- the bitmap

    method Mark(block: nat)
      requires block < INTBITS * alv.Length
      modifies alv
      ensures Flags(alv[..]) == old(Flags(alv[..]))[block := true]
    {
      var offset := block / INTBITS;
      FlagsSet(alv[..], block);
      ghost var words := alv[..];
      alv[offset] := SetBit(alv[offset], block % INTBITS);
      assert alv[..] == words[offset := SetBit(words[offset], block % INTBITS)];
    }

    method ClearBitmap()
      modifies alv
      ensures forall b :: 0 <= b < |Flags(alv[..])| ==> !Flags(alv[..])[b]
    {
      var i := 0;
      while i < alv.Length
        invariant i <= alv.Length && forall j :: 0 <= j < i ==> alv[j] == 0
      {
        alv[i] := 0;
        i := i + 1;
      }
      FlagsNone(alv[..]);
    }

    /** d is this drive, whatever the bitmap says. */
    ghost predicate Describes(d: Disk)
      reads dir
    {
      && Wired() && d.dirblks == dirblks && d.size == size && d.hi == hi && d.extents == extents
      && d.dir == dir[..] && |d.used| == INTBITS * alv.Length
    }

    method MarkDirectory(ghost d: Disk)
      requires Describes(d) && forall b :: 0 <= b < |Flags(alv[..])| ==> !Flags(alv[..])[b]
      modifies alv
      ensures MarkedTo(d, Flags(alv[..]), 0, 0)
    {
      var block := 0;
      while block < dirblks
        invariant block <= dirblks
        invariant forall b :: 0 <= b < |d.used| ==> (Flags(alv[..])[b] <==> b < block)
      {
        Mark(block);
        block := block + 1;
      }
      forall b | 0 <= b < |d.used| ensures InUseBefore(d, 0, 0, b) <==> b < dirblks { BeforeNone(d, b); }
    }

    /** Mark the blocks of entry i. */
    method MarkEntry(i: nat, ghost d: Disk)
      requires Describes(d) && i < dir.Length && Live(dir[i], hi) && MarkedTo(d, Flags(alv[..]), i, 0)
      modifies alv
      ensures MarkedTo(d, Flags(alv[..]), i + 1, 0)
    {
      var j, k := 0, 0;
      hide MarkedTo, Flags;
      while j < 16
        invariant 0 <= k <= Slots(size) && j == (if size > 256 then 2 * k else k)
        invariant MarkedTo(d, Flags(alv[..]), i, k)
        decreases 16 - j
      {
        MarkedSlot(d, Flags(alv[..]), i, k);
        var block: nat := dir[i].pointers[j];
        if size > 256 {
          j := j + 1;
          block := block + 256 * dir[i].pointers[j] as int;
        }
        if block != 0 && block < size { Mark(block); }
        j := j + 1;
        k := k + 1;
      }
      MarkedEntry(d, Flags(alv[..]), i, k);
    }

    /** Recompute the bitmap from the directory. */
    method AlvInit()
      requires Wired()
      modifies alv
      ensures Now() == old(Now()).(used := Rebuilt(old(Now())))
    {
      ghost var d := Now();
      ClearBitmap();
      MarkDirectory(d);
      hide MarkedTo, Flags, Rebuilt;
      var i := 0;
      while i < dir.Length
        invariant i <= dir.Length && MarkedTo(d, Flags(alv[..]), i, 0)
      {
        if dir[i].status <= (if hi then 31 else 15) {
          MarkEntry(i, d);
        } else {
          MarkedEntry(d, Flags(alv[..]), i, 0);
        }
        i := i + 1;
      }
      MarkedAll(d, Flags(alv[..]));
    }

    /** The first clear bit of word i from bit start on; -1 if there is none. */
    method ClearBit(i: nat) returns (j: int)
      requires i < alv.Length
      ensures j == -1 || (0 <= j < INTBITS && !BitOf(alv[i], j))
      ensures forall k :: 0 <= k < (if j == -1 then INTBITS else j) ==> BitOf(alv[i], k)
    {
      j := 0;
      var bits := alv[i];
      while j < INTBITS
        invariant 0 <= j <= INTBITS && bits == Shr(alv[i], j) && forall k :: 0 <= k < j ==> BitOf(alv[i], k)
      {
        BitOfShr(alv[i], j);
        if bits % 2 == 0 { return; }
        ShrMore(alv[i], j);
        bits := bits / 2;
        j := j + 1;
      }
      j := -1;
    }

    /** Take the first free block. */
    method AllocBlock() returns (block: int)
      requires Wired()
      modifies alv
      ensures block == NextBlock(old(Now()))
      ensures Now() == if block == -1 then old(Now()) else old(Now()).(used := old(Now()).used[block := true])
    {
      ghost var used := Flags(alv[..]);
      var i := 0;
      while i < alv.Length
        invariant i <= alv.Length && Flags(alv[..]) == used && forall b :: 0 <= b < INTBITS * i ==> used[b]
      {
        var j := ClearBit(i);
        AllSetBefore(alv[..], i, if j == -1 then INTBITS else j);
        if j != -1 {
          block := i * INTBITS + j;
          assert block / INTBITS == i && block % INTBITS == j;
          FirstClearIs(used, 0, block);
          if block >= size { return -1; }
          Mark(block);
          return;
        }
        i := i + 1;
      }
      FirstClearIs(used, 0, -1);
      block := -1;
    }

    // ------------------------------------------------------ the directory

    /** Does an entry belong to a file? */
    method IsMatching(e: Entry, f: File) returns (matching: bool)
      ensures matching == Matches(e, f, hi)
    {
      matching := false;
      if e.status <= (if hi then 31 else 15) && e.status == f.user {
        matching := SameChars(e.name, f.name);
        if matching { matching := SameChars(e.ext, f.ext); }
      }
    }

    method FindFileExtent(f: File, first: nat, extno: int) returns (i: int)
      requires extents > 0 && first <= dir.Length && Wired()
      ensures i == FindExtent(Now(), f, first, extno)
    {
      var start := first;
      while start < dir.Length
        invariant first <= start <= dir.Length
        invariant FindExtent(Now(), f, first, extno) == FindExtent(Now(), f, start, extno)
      {
        var e := dir[start];
        if extno == -1 || (e.extnol % 32 + e.extnoh % 64 * 32) / extents == extno / extents {
          var matching := IsMatching(e, f);
          if matching { return start; }
        }
        start := start + 1;
      }
      i := -1;
    }

    method FindFreeExtent() returns (i: int)
      ensures i == FindFree(dir[..], 0)
    {
      i := 0;
      while i < dir.Length
        invariant 0 <= i <= dir.Length && FindFree(dir[..], 0) == FindFree(dir[..], i)
      {
        if dir[i].status == UNUSED { return; }
        i := i + 1;
      }
      i := -1;
    }

    method CpmCreat(f: File) returns (ino: int)
      requires Wired()
      modifies dir
      ensures Now() == Step(old(Now()), Creat(f))
      ensures ino == -1 || (0 <= ino < dir.Length && Owner(dir[ino]) == f)
    {
      var extent := FindFileExtent(f, 0, -1);
      if extent != -1 { return -1; }
      extent := FindFreeExtent();
      if extent == -1 { return -1; }
      ghost var d := Now();
      dir[extent] := Entry(f.user, f.name, f.ext, 0, 0, 0, 0, NoPointers());
      assert dir[..] == Created(d, extent, f).dir;
      ino := extent;
    }

    /** Erase entries from the first match on; those before it have been dealt with. */
    method EraseFrom(f: File, first: nat)
      requires Wired() && first < dir.Length && Matches(dir[first], f, hi)
      modifies dir
      ensures dir[..] == old(dir[..first]) + EraseAll(old(dir[first..]), f, hi)
    {
      ghost var was := dir[..];
      var extent: int := first;
      while extent != -1
        invariant extent == -1 || (first <= extent < dir.Length && Matches(dir[extent], f, hi))
        invariant ErasedTo(was, dir[..], f, hi, first, if extent == -1 then dir.Length else extent)
        decreases if extent == -1 then 0 else dir.Length - extent
      {
        ghost var before := dir[..];
        dir[extent] := dir[extent].(status := UNUSED);
        ghost var at := extent;
        extent := FindFileExtent(f, extent + 1, -1);
      }
    }

    method CpmUnlink(f: File) returns (ok: bool)
      requires Wired()
      modifies dir, alv
      ensures Now() == Step(old(Now()), Unlink(f)) && ok == (FindExtent(old(Now()), f, 0, -1) != -1)
    {
      ghost var d := Now();
      var extent := FindFileExtent(f, 0, -1);
      if extent == -1 { return false; }
      EraseFrom(f, extent);
      assert dir[..] == EraseAll(d.dir, f, hi);
      AlvInit();
      assert d.(dir := dir[..]).used == d.used;
      ok := true;
    }

    /** Copy text, leaving the high bits of the destination alone. */
    method CopyText(dest: seq<byte>, text: seq<byte>) returns (r: seq<byte>)
      requires |dest| == |text|
      ensures r == Overwrite(dest, text)
    {
      r := dest;
      var i := 0;
      while i < |dest|
        invariant 0 <= i <= |dest| == |r|
        invariant forall k :: 0 <= k < |r| ==> r[k] == if k < i then dest[k] / 128 * 128 + text[k] % 128 else dest[k]
      {
        r := r[i := r[i] / 128 * 128 + text[i] % 128];
        i := i + 1;
      }
    }

    method CpmRename(f: File, g: File) returns (ok: bool)
      requires Wired() && g.user <= MaxUser(hi)
      modifies dir
      ensures Now() == Step(old(Now()), Rename(f, g))
      ensures ok == (FindExtent(old(Now()), f, 0, -1) != -1 && FindExtent(old(Now()), g, 0, -1) == -1)
    {
      ghost var was := dir[..];
      var extent := FindFileExtent(f, 0, -1);
      if extent == -1 { return false; }
      var other := FindFileExtent(g, 0, -1);
      if other != -1 { return false; }
      while extent != -1
        invariant extent == -1 || (0 <= extent < dir.Length && Matches(dir[extent], f, hi))
        invariant RenamedTo(was, dir[..], f, g, hi, if extent == -1 then dir.Length else extent)
        decreases if extent == -1 then 0 else dir.Length - extent
      {
        var name := CopyText(dir[extent].name, g.name);
        var ext := CopyText(dir[extent].ext, g.ext);
        dir[extent] := dir[extent].(status := g.user, name := name, ext := ext);
        extent := FindFileExtent(f, extent + 1, -1);
      }
      ok := true;
    }

    // --------------------------------------------------------- writing

    /** Find the extent, or make it: a copy of the file's entry without blocks. */
    method GetExtent(ino: nat, extno: nat) returns (extent: int)
      requires Wired() && ino < dir.Length
      modifies dir
      ensures (Now(), extent) == ReachExtent(old(Now()), ino, extno)
    {
      ghost var d := Now();
      extent := FindFileExtent(File(dir[ino].status, dir[ino].name, dir[ino].ext), 0, extno);
      if extent == -1 {
        extent := FindFreeExtent();
        if extent == -1 { return; }
        dir[extent] := dir[ino];
        dir[extent] := dir[extent].(pointers := NoPointers());
        dir[extent] := dir[extent].(extnol := extno % 32, extnoh := extno / 32 % 64);
        dir[extent] := dir[extent].(blkcnt := 0);
        dir[extent] := dir[extent].(lrc := 0);
        assert dir[..] == NextExtent(d, extent, ino, extno).dir;
      }
    }

    /** Find the block of slot k, or allocate one. */
    method GetBlock(extent: nat, k: nat) returns (block: int, isNew: bool)
      requires Wired() && extent < dir.Length && k < Slots(size)
      modifies dir, alv
      ensures Now() == ReachBlock(old(Now()), extent, k)
      ensures isNew == (old(Pointer(dir[extent], k, size)) == 0)
      ensures block == if isNew then NextBlock(old(Now())) else old(Pointer(dir[extent], k, size))
    {
      hide Flags, Shape, FirstClear, NextBlock;
      ghost var d := Now();
      var ptr := if size > 256 then 2 * k else k;
      block := dir[extent].pointers[ptr];
      if size > 256 { block := block + 256 * dir[extent].pointers[ptr + 1] as int; }
      isNew := block == 0;
      if isNew {
        block := AllocBlock();
        if block == -1 { return; }
        dir[extent] := dir[extent].(pointers := dir[extent].pointers[ptr := block % 256]);
        if size > 256 { dir[extent] := dir[extent].(pointers := dir[extent].pointers[ptr + 1 := block / 256 % 256]); }
        assert dir[..] == Taken(d, extent, k, block).dir;
      }
    }
  }

  lemma {:induction false} AllSetBefore(words: seq<nat>, i: nat, j: nat)
    requires i < |words| && j <= INTBITS && (forall k :: 0 <= k < j ==> BitOf(words[i], k))
    requires forall b :: 0 <= b < INTBITS * i ==> Flags(words)[b]
    ensures forall b :: 0 <= b < INTBITS * i + j ==> Flags(words)[b]
  {
    forall b | INTBITS * i <= b < INTBITS * i + j ensures Flags(words)[b] {
      assert b / INTBITS == i && 0 <= b % INTBITS < j;
    }
  }

  /** Entries before p have been erased where they matched; those from p on are as they were. */
  ghost predicate ErasedTo(was: seq<Entry>, now: seq<Entry>, f: File, hi: bool, first: nat, p: nat) {
    && |now| == |was| && first <= p <= |was|
    && forall i :: 0 <= i < |was| ==>
         now[i] == if first <= i < p && Matches(was[i], f, hi) then was[i].(status := UNUSED) else was[i]
  }

  ghost predicate RenamedTo(was: seq<Entry>, now: seq<Entry>, f: File, g: File, hi: bool, p: nat) {
    && |now| == |was| && p <= |was|
    && forall i :: 0 <= i < |was| ==> now[i] == if i < p && Matches(was[i], f, hi) then Renamed(was[i], g) else was[i]
  }
}
