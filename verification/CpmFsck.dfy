/** What the file system checker accepts, and what its verdict means. */
module CpmFsck {
  import opened Bits
  import opened CpmDirectory
  import opened CpmFiles
  import opened Division

  /** Type flags: bit 0 is for high user numbers; the checker compares whole types. */
  const DR22 := 1
  const P2DOS := 3
  const DR3 := 7

  /** Type, directory blocks, blocks in all, block size, and logical extents in an entry. */
  datatype Format = Format(typ: nat, dirblks: nat, size: nat, blksiz: nat, extents: nat)

  /** An entry's pointers divide evenly among its logical extents. */
  predicate FormatOk(f: Format) { f.blksiz > 0 && 0 < f.extents <= 16 && (f.size > 256 ==> 8 % f.extents == 0) }

  const DISCLABEL := 32
  const DATESTAMP := 33

  /** The checker takes an entry for that of a file. */
  predicate Checked(e: Entry, typ: nat) { e.status <= if typ == P2DOS then 31 else 15 }

  predicate FileChar(notFirst: bool, c: nat) {
    && (notFirst || c != 32) && 32 <= c < 128
    && c != 60 && c != 62 && c != 46 && c != 44 && c != 59 && c != 58 && c != 61 && c != 63 && c != 42 && c != 91 && c != 93
  }

  predicate LowerCase(c: nat) { 97 <= c <= 122 }

  predicate NameChar(notFirst: bool, c: byte) { FileChar(notFirst, c % 128) && !LowerCase(c % 128) }

  /** The characters a name may have: printable ones that are no lower case letters and mean nothing on a command line. */
  lemma {:induction false} NameCharIs(notFirst: bool, c: byte)
    ensures NameChar(notFirst, c) <==>
              (32 <= c % 128 <= 96 || 123 <= c % 128) && ((c % 128) as char) !in "<>.,;:=?*[]" && (notFirst || c % 128 != ' ' as int)
  {
  }

  predicate GoodName(e: Entry) {
    && (forall i :: 0 <= i < 8 ==> NameChar(i > 0, e.name[i]))
    && (forall i :: 0 <= i < 3 ==> NameChar(true, e.ext[i]))
  }

  predicate GoodPointers(e: Entry, f: Format) {
    forall k :: 0 <= k < Slots(f.size) ==> Pointer(e, k, f.size) == 0 || f.dirblks <= Pointer(e, k, f.size) < f.size
  }

  // ------------------------------------------------------------- record count

  /** The first slot of the r-th logical extent of an entry. */
  function PartStart(f: Format, r: nat): (k: nat)
    requires FormatOk(f) && r <= f.extents
    ensures k <= Slots(f.size)
  {
    PartsFit(r, f.extents);
    if f.size > 256 then r * 16 / f.extents / 2 else r * 16 / f.extents
  }

  lemma {:induction false} PartsFit(r: nat, n: nat)
    requires r <= n && n > 0
    ensures r * 16 / n <= 16
  {
    DivMono(r * 16, n * 16, n);
    DivUnique(n * 16, n, 16, 0);
  }

  /** How many of the slots from lo to hi hold a block. */
  function UsedSlots(e: Entry, lo: nat, hi: nat, size: nat): nat
    requires lo <= hi <= Slots(size)
  {
    if lo == hi then 0 else UsedSlots(e, lo, hi - 1, size) + if Pointer(e, hi - 1, size) != 0 then 1 else 0
  }

  /** The blocks that the records of the last logical extent take. */
  function RecordBlocks(e: Entry, f: Format): nat
    requires f.blksiz > 0
  {
    (e.blkcnt * 128 + f.blksiz - 1) / f.blksiz
  }

  lemma {:induction false} PartsOrdered(f: Format, r: nat)
    requires FormatOk(f) && r < f.extents
    ensures PartStart(f, r) <= PartStart(f, r + 1)
  {
    DivMono(r * 16, (r + 1) * 16, f.extents);
  }

  /** As many slots of the logical extent are used as its records need. */
  predicate GoodRecords(e: Entry, f: Format)
    requires FormatOk(f)
  {
    var r := e.extnol % f.extents;
    PartsOrdered(f, r);
    RecordBlocks(e, f) == UsedSlots(e, PartStart(f, r), PartStart(f, r + 1), f.size)
  }

  predicate GoodExtent(e: Entry) { e.extnol <= 0x1F && e.extnoh <= 0x3F }

  predicate GoodFile(e: Entry, f: Format)
    requires FormatOk(f)
  {
    GoodName(e) && GoodExtent(e) && e.lrc <= 128 && GoodPointers(e, f) && GoodRecords(e, f)
  }

  function Xor(a: byte, b: byte): byte { ((a as bv8) ^ (b as bv8)) as int }

  /** Character i of the password, which is stored backwards and masked. */
  function PasswordChar(e: Entry, i: nat): byte
    requires i < 8
  {
    Xor(e.pointers[7 - i], e.lrc)
  }

  /** The password hidden in the pointers is printable. */
  predicate GoodPassword(e: Entry) {
    forall i {:trigger PasswordChar(e, i)} :: 0 <= i < 8 ==> 32 <= PasswordChar(e, i) < 128
  }

  predicate GoodLabel(e: Entry) {
    !(e.extnol / 64 % 2 == 1 && e.extnol / 16 % 2 == 1) && (e.extnol / 128 == 1 ==> GoodPassword(e))
  }

  predicate GoodPasswordEntry(e: Entry) { GoodName(e) && (e.extnol / 32 != 0 ==> GoodPassword(e)) }

  /** What the first phase accepts. */
  predicate GoodEntry(e: Entry, f: Format)
    requires FormatOk(f)
  {
    if Checked(e, f.typ) then GoodFile(e, f)
    else if (f.typ == P2DOS || f.typ == DR3) && e.status == DATESTAMP then true
    else if f.typ == DR3 && e.status == DISCLABEL then GoodLabel(e)
    else if f.typ == DR3 && PasswordEntry(e) then GoodPasswordEntry(e)
    else e.status == UNUSED
  }

  predicate PasswordEntry(e: Entry) { 16 <= e.status <= 31 }

  /** Slot k of entry i and slot k' of entry i' hold the same block. */
  predicate Clash(dir: seq<Entry>, f: Format, i: nat, k: nat, i': nat, k': nat)
    requires i < |dir| && i' < |dir| && k < Slots(f.size) && k' < Slots(f.size)
  {
    && Checked(dir[i], f.typ) && Checked(dir[i'], f.typ)
    && Pointer(dir[i], k, f.size) != 0 && Pointer(dir[i], k, f.size) == Pointer(dir[i'], k', f.size) && !(i == i' && k == k')
  }

  /** Two entries are for the same extent of the same file. */
  predicate SameExtent(e: Entry, e': Entry) {
    && ExtentOf(e) == ExtentOf(e') && e.status == e'.status
    && SameText(e.name, e'.name) && SameText(e.ext, e'.ext)
  }

  predicate Duplicate(dir: seq<Entry>, typ: nat, i: nat, i': nat)
    requires i < |dir| && i' < |dir|
  {
    Checked(dir[i], typ) && Checked(dir[i'], typ) && i != i' && SameExtent(dir[i], dir[i'])
  }

  ghost predicate GoodEntries(dir: seq<Entry>, f: Format)
    requires FormatOk(f)
  {
    forall i :: 0 <= i < |dir| ==> GoodEntry(dir[i], f)
  }

  ghost predicate Clean(dir: seq<Entry>, f: Format)
    requires FormatOk(f)
  {
    && GoodEntries(dir, f)
    && (forall i, k, i', k' :: 0 <= i < |dir| && 0 <= i' < |dir| && 0 <= k < Slots(f.size) && 0 <= k' < Slots(f.size) ==>
          !Clash(dir, f, i, k, i', k'))
    && (forall i, i' :: 0 <= i < |dir| && 0 <= i' < |dir| ==> !Duplicate(dir, f.typ, i, i'))
  }

  // ------------------------------------------------------- what the verdict means

  predicate HighUsers(typ: nat) { typ % 2 == 1 }

  /** The disk is of this format. */
  predicate Of(d: Disk, f: Format) {
    d.dirblks == f.dirblks && d.size == f.size && d.extents == f.extents && d.hi == HighUsers(f.typ)
  }

  /** No two live entries are for the same extent of the same file. */
  ghost predicate ExtentsDistinct(d: Disk) {
    forall i, i' :: 0 <= i < |d.dir| && 0 <= i' < |d.dir| && i != i' && Live(d.dir[i], d.hi) && Live(d.dir[i'], d.hi) ==>
      !SameExtent(d.dir[i], d.dir[i'])
  }

  /** The disk passes the check. */
  ghost predicate Passes(d: Disk, f: Format) { FormatOk(f) && Of(d, f) && Shape(d) && Clean(d.dir, f) }

  /** A live entry of a disk that passes has been checked as a file, or is a password entry of type DR3. */
  lemma {:induction false} LiveIsChecked(d: Disk, f: Format, i: nat)
    requires Passes(d, f) && i < |d.dir| && Live(d.dir[i], d.hi)
    ensures Checked(d.dir[i], f.typ) || (f.typ == DR3 && PasswordEntry(d.dir[i]))
  {
    assert GoodEntry(d.dir[i], f);
  }

  /** Password entries hold blocks in range, and share none with any entry. */
  ghost predicate PasswordsSound(d: Disk) {
    && (forall i: nat, k: nat, b: nat :: Holds(d, i, k, b) && PasswordEntry(d.dir[i]) ==> d.dirblks <= b < d.size)
    && (forall i: nat, k: nat, i': nat, k': nat, b: nat :: Holds(d, i, k, b) && PasswordEntry(d.dir[i]) && Holds(d, i', k', b) ==>
          i == i' && k == k')
  }

  /** No two password entries are for the same extent of the same name. */
  ghost predicate PasswordsDistinct(d: Disk) {
    forall i, i' :: 0 <= i < |d.dir| && 0 <= i' < |d.dir| && i != i' && PasswordEntry(d.dir[i]) && PasswordEntry(d.dir[i']) ==>
      !SameExtent(d.dir[i], d.dir[i'])
  }

  /** For type DR3 a disk that passes is consistent exactly if its password entries, which go unchecked, are. */
  lemma {:induction false} PasswordsDecide(d: Disk, f: Format)
    requires Passes(d, f) && f.typ == DR3
    ensures Sound(d) <==> PasswordsSound(d)
    ensures ExtentsDistinct(d) <==> PasswordsDistinct(d)
  {
    if PasswordsSound(d) { SoundBut(d, f); }
    if PasswordsDistinct(d) {
      forall i, i' | 0 <= i < |d.dir| && 0 <= i' < |d.dir| && i != i' && Live(d.dir[i], d.hi) && Live(d.dir[i'], d.hi)
        ensures !SameExtent(d.dir[i], d.dir[i'])
      {
        DistinctBut(d, f, i, i');
      }
    }
  }

  /** Whatever else there is, two entries that have been checked, or differ in status, are for different extents. */
  lemma {:induction false} DistinctBut(d: Disk, f: Format, i: nat, i': nat)
    requires Passes(d, f) && i < |d.dir| && i' < |d.dir| && i != i' && Live(d.dir[i], d.hi) && Live(d.dir[i'], d.hi)
    ensures SameExtent(d.dir[i], d.dir[i']) ==> f.typ == DR3 && PasswordEntry(d.dir[i]) && PasswordEntry(d.dir[i'])
  {
    LiveIsChecked(d, f, i);
    LiveIsChecked(d, f, i');
    assert !Duplicate(d.dir, f.typ, i, i');
  }

  lemma {:induction false} SoundBut(d: Disk, f: Format)
    requires Passes(d, f) && (f.typ == DR3 ==> PasswordsSound(d))
    ensures Sound(d)
  {
    forall i: nat, k: nat, b: nat | Holds(d, i, k, b) ensures d.dirblks <= b < d.size {
      LiveIsChecked(d, f, i);
      assert GoodEntry(d.dir[i], f);
    }
    forall i, k, i', k', b | Holds(d, i, k, b) && Holds(d, i', k', b) ensures i == i' && k == k' {
      LiveIsChecked(d, f, i);
      LiveIsChecked(d, f, i');
      assert !Clash(d.dir, f, i, k, i', k');
    }
  }

  /** Blocks in range, none used twice, no extent twice. */
  lemma {:induction false} CleanIsSound(d: Disk, f: Format)
    requires Passes(d, f) && f.typ != DR3
    ensures Sound(d) && ExtentsDistinct(d)
  {
    SoundBut(d, f);
    forall i, i' | 0 <= i < |d.dir| && 0 <= i' < |d.dir| && i != i' && Live(d.dir[i], d.hi) && Live(d.dir[i'], d.hi)
      ensures !SameExtent(d.dir[i], d.dir[i'])
    {
      DistinctBut(d, f, i, i');
    }
  }

  /** A verdict of OK means consistency for every type of file system but DR3. */
  lemma {:induction false} VerdictMeans(typ: nat)
    ensures (forall d: Disk, f: Format :: f.typ == typ && Passes(d, f) ==> Sound(d) && ExtentsDistinct(d)) <==> typ != DR3
  {
    if typ == DR3 {
      var d, f := PasswordGap();
      assert f.typ == typ && Passes(d, f);
    } else {
      forall d: Disk, f: Format | f.typ == typ && Passes(d, f) ensures Sound(d) && ExtentsDistinct(d) { CleanIsSound(d, f); }
    }
  }

  /** A disk that passes, with its bitmap recomputed, is one that the file system keeps consistent. */
  lemma {:induction false} CleanIsConsistent(d: Disk, f: Format)
    requires Passes(d, f) && f.typ != DR3
    ensures Consistent(d.(used := Rebuilt(d)))
  {
    CleanIsSound(d, f);
    var r := d.(used := Rebuilt(d));
    forall b | 0 <= b < |r.used| ensures r.used[b] <==> InUse(r, b) { SameHoldingsBitmap(d, b, r.used); }
    forall i, k, b ensures Holds(r, i, k, b) <==> Holds(d, i, k, b) {}
  }

  /** The gap: passwords of type DR3 are live for the file system, but their blocks go unchecked. */
  lemma {:induction false} PasswordGap() returns (d: Disk, f: Format)
    ensures f.typ == DR3 && Passes(d, f) && !Sound(d)
  {
    var e: Entry := Entry(16, Repeat<byte>(65, 8), Repeat<byte>(65, 3), 0, 0, 0, 0, Repeat<byte>(2, 16));
    f := Format(DR3, 1, 32, 1024, 1);
    d := Disk(1, 32, true, 1, [e], Repeat<bool>(true, 32));
    assert Holds(d, 0, 0, 2) && Holds(d, 0, 1, 2);
    assert GoodEntry(e, f);
  }
}
