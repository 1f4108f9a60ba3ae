/**
 The file system checker at work: every defect found may be repaired if the
 user says so, and is reported as broken otherwise.
*/
module CpmChecker {
  import opened Bits
  import opened Division
  import opened CpmDirectory
  import opened CpmFiles
  import opened CpmFsck

  /** What the checker returns: OK if nothing is set. */
  datatype Verdict = Verdict(modified: bool, broken: bool)
  {
    predicate Fine() { !modified && !broken }

    function Or(v: Verdict): Verdict { Verdict(modified || v.modified, broken || v.broken) }
  }

  const OK := Verdict(false, false)
  const MODIFIED := Verdict(true, false)
  const BROKEN := Verdict(false, true)

  /** The password that is put in place of one that cannot be printed, and how it is stored. */
  const SECRET: seq<byte> := [71, 69, 72, 69, 73, 77, 32, 32]
  const MASK: byte := 239
  const MASKED: seq<byte> := [207, 207, 162, 166, 170, 167, 170, 168]

  function WithSecret(e: Entry): Entry { e.(pointers := MASKED + e.pointers[8..], lrc := MASK) }

  lemma {:induction false} SecretIsGood(e: Entry)
    ensures GoodPassword(WithSecret(e))
    ensures forall i :: 0 <= i < 8 ==> PasswordChar(WithSecret(e), i) == SECRET[i]
  {
    var r := WithSecret(e);
    assert forall i :: 0 <= i < 8 ==> r.pointers[i] == MASKED[i];
    assert PasswordChar(r, 0) == 71 && PasswordChar(r, 1) == 69 && PasswordChar(r, 2) == 72 && PasswordChar(r, 3) == 69;
    assert PasswordChar(r, 4) == 73 && PasswordChar(r, 5) == 77 && PasswordChar(r, 6) == 32 && PasswordChar(r, 7) == 32;
  }

  /** A test of an entry: fine exactly if the entry is good; what is modified is modified to r. */
  ghost predicate Tested(good: bool, e: Entry, e': Entry, r: Entry, v: Verdict) {
    (v.Fine() <==> good) && e' == if v.modified then r else e
  }

  function Removed(e: Entry): Entry { e.(status := UNUSED) }

  /** What an entry may have become: removed, with its last record cleared, a label with one of two flags cleared, or with a new password. */
  ghost predicate Repairs(e: Entry, r: Entry) {
    || RemovedOr(e, r)
    || (e.lrc > 128 && RemovedOr(e.(lrc := 0), r))
    || (e.status == 32 && e.extnol / 64 % 2 == 1 && e.extnol / 16 % 2 == 1
        && (PasswordOr(e.(extnol := e.extnol - 0x40), r) || PasswordOr(e.(extnol := e.extnol - 0x10), r)))
    || (16 <= e.status <= 32 && PasswordOr(e, r))
  }

  ghost predicate RemovedOr(e: Entry, r: Entry) { r == e || r == e.(status := 0xE5) }

  /** Either as it was, or with GEHEIM as the password and nothing else changed. */
  ghost predicate PasswordOr(e: Entry, r: Entry) {
    r == e || (!GoodPassword(e) && r == e.(lrc := r.lrc, pointers := r.pointers[..8] + e.pointers[8..])
               && forall i :: 0 <= i < 8 ==> PasswordChar(r, i) == "GEHEIM  "[i] as int)
  }

  lemma {:induction false} NewPassword(e: Entry)
    requires !GoodPassword(e)
    ensures PasswordOr(e, WithSecret(e))
  {
    SecretIsGood(e);
    hide GoodPassword, PasswordChar;
    assert WithSecret(e).pointers == WithSecret(e).pointers[..8] + e.pointers[8..];
    assert "GEHEIM  " == ['G', 'E', 'H', 'E', 'I', 'M', ' ', ' '];
  }

  class Checker {
    const f: Format
    const norepair: bool
    const dir: array<Entry>
    /** What the user answers, and how often he has been asked. */
    const answers: nat -> bool
    var asked: nat

    constructor (f: Format, norepair: bool, dir: array<Entry>, answers: nat -> bool)
      ensures this.f == f && this.norepair == norepair && this.dir == dir && this.answers == answers
    {
      this.f, this.norepair, this.dir, this.answers, asked := f, norepair, dir, answers, 0;
    }

    /** The user may repair, and always says yes; or nothing is ever repaired. */
    ghost predicate AlwaysYes() { !norepair && forall n :: answers(n) }

    ghost predicate NeverYes() { norepair || forall n :: !answers(n) }

    method Ask() returns (yes: bool)
      modifies `asked
      ensures yes == (!norepair && answers(old(asked))) && asked == old(asked) + if norepair then 0 else 1
    {
      if norepair { return false; }
      yes := answers(asked);
      asked := asked + 1;
    }

    /** Repair an entry to r, or report it. */
    method Repair(e: Entry, r: Entry) returns (v: Verdict, e': Entry)
      modifies `asked
      ensures Tested(false, e, e', r, v) && (NeverYes() ==> !v.modified) && (AlwaysYes() ==> !v.broken) && !(v.modified && v.broken)
    {
      var yes := Ask();
      if yes { return MODIFIED, r; }
      return BROKEN, e;
    }

    // ------------------------------------------------------ phase 1: entries

    method CheckName(e: Entry) returns (v: Verdict, e': Entry)
      modifies `asked
      ensures Tested(GoodName(e), e, e', Removed(e), v) && (NeverYes() ==> !v.modified) && (AlwaysYes() ==> !v.broken)
    {
      v, e' := OK, e;
      var i := 0;
      while i < 8
        invariant 0 <= i <= 8 && !v.modified && (AlwaysYes() ==> !v.broken) && e' == e && (v.Fine() <==> forall j :: 0 <= j < i ==> NameChar(j > 0, e.name[j]))
      {
        if !NameChar(i > 0, e.name[i]) {
          var w;
          w, e' := Repair(e', Removed(e'));
          v := v.Or(w);
          if w.modified { return; }
        }
        i := i + 1;
      }
      i := 0;
      ghost var first := v;
      while i < 3
        invariant 0 <= i <= 3 && !v.modified && (AlwaysYes() ==> !v.broken) && e' == e
        invariant v.Fine() <==> first.Fine() && forall j :: 0 <= j < i ==> NameChar(true, e.ext[j])
      {
        if !NameChar(true, e.ext[i]) {
          var w;
          w, e' := Repair(e', Removed(e'));
          v := v.Or(w);
          if w.modified { return; }
        }
        i := i + 1;
      }
    }

    method CheckExtent(e: Entry) returns (v: Verdict, e': Entry)
      modifies `asked
      ensures Tested(GoodExtent(e), e, e', Removed(e), v) && (NeverYes() ==> !v.modified) && (AlwaysYes() ==> !v.broken)
    {
      v, e' := OK, e;
      if e.extnol > 0x1F { v, e' := Repair(e, Removed(e)); }
      if v.modified { return; }
      if e.extnoh > 0x3F {
        var w;
        w, e' := Repair(e, Removed(e));
        v := v.Or(w);
      }
    }

    method CheckPointers(e: Entry) returns (v: Verdict, e': Entry)
      modifies `asked
      ensures Tested(GoodPointers(e, f), e, e', Removed(e), v) && (NeverYes() ==> !v.modified) && (AlwaysYes() ==> !v.broken)
    {
      v, e' := OK, e;
      var i: nat, k: nat := 0, 0;
      while i < 16
        invariant k <= Slots(f.size) && i == (if f.size > 256 then 2 * k else k) && !v.modified && (AlwaysYes() ==> !v.broken) && e' == e
        invariant v.Fine() <==> forall j :: 0 <= j < k ==> Pointer(e, j, f.size) == 0 || f.dirblks <= Pointer(e, j, f.size) < f.size
        decreases 16 - i
      {
        var block: nat := e.pointers[i];
        if f.size > 256 {
          i := i + 1;
          block := block + 256 * e.pointers[i] as int;
        }
        assert block == Pointer(e, k, f.size);
        if block > 0 && (block < f.dirblks || block >= f.size) {
          var w;
          w, e' := Repair(e, Removed(e));
          v := v.Or(w);
          if w.modified { return; }
        }
        i := i + 1;
        k := k + 1;
      }
    }

    method CheckRecords(e: Entry) returns (v: Verdict, e': Entry)
      requires FormatOk(f)
      modifies `asked
      ensures Tested(GoodRecords(e, f), e, e', Removed(e), v) && (NeverYes() ==> !v.modified) && (AlwaysYes() ==> !v.broken)
    {
      v, e' := OK, e;
      var r := e.extnol % f.extents;
      var min, max := r * 16 / f.extents, (r + 1) * 16 / f.extents;
      Spans(f, r);
      var used := CountUsed(e, min, max, PartStart(f, r), PartStart(f, r + 1));
      if (e.blkcnt * 128 + f.blksiz - 1) / f.blksiz != used { v, e' := Repair(e, Removed(e)); }
    }

    /** Count the used pointers, byte by byte or in pairs. */
    method CountUsed(e: Entry, min: nat, max: nat, ghost lo: nat, ghost hi: nat) returns (used: nat)
      requires lo <= hi <= Slots(f.size) && min == Width(f.size) * lo && max == Width(f.size) * hi
      ensures used == UsedSlots(e, lo, hi, f.size)
    {
      hide UsedSlots, Slots, Pointer;
      used := 0;
      var i := min;
      NoneUsed(e, lo, f.size);
      ghost var k := lo;
      while i < max
        invariant lo <= k <= hi && i == Width(f.size) * k && used == UsedSlots(e, lo, k, f.size)
        decreases max - i
      {
        OneMoreUsed(e, lo, k, f.size);
        if e.pointers[i] != 0 || (f.size > 256 && e.pointers[i + 1] != 0) { used := used + 1; }
        if f.size > 256 { i := i + 1; }
        i := i + 1;
        k := k + 1;
      }
    }

    method CheckFile(e: Entry) returns (v: Verdict, e': Entry)
      requires FormatOk(f) && e.status != UNUSED
      modifies `asked
      ensures (v.Fine() <==> GoodFile(e, f)) && (!v.modified ==> e' == e) && (NeverYes() ==> !v.modified) && (AlwaysYes() ==> !v.broken)
      ensures RemovedOr(e, e') || (e.lrc > 128 && RemovedOr(e.(lrc := 0), e'))
      ensures !v.broken && e'.status == e.status ==> GoodFile(e', f)
    {
      var w;
      v, e' := CheckName(e);
      if v.modified { return; }
      w, e' := CheckExtent(e);
      v := v.Or(w);
      if v.modified { return; }
      if e.lrc > 128 {
        w, e' := Repair(e, e.(lrc := 0));
        v := v.Or(w);
      }
      ghost var e1 := e';
      w, e' := CheckPointers(e');
      v := v.Or(w);
      if w.modified { return; }
      w, e' := CheckRecords(e');
      v := v.Or(w);
      LastByteApart(e, e1, f);
    }

    method CheckPassword(e: Entry) returns (good: bool)
      ensures good == GoodPassword(e)
    {
      var i := 0;
      while i < 8
        invariant 0 <= i <= 8 && forall j {:trigger PasswordChar(e, j)} :: 0 <= j < i ==> 32 <= PasswordChar(e, j) < 128
      {
        var c := Xor(e.pointers[7 - i], e.lrc);
        assert c == PasswordChar(e, i);
        if c < 32 || c >= 128 { return false; }
        i := i + 1;
      }
      good := true;
    }

    method CheckLabel(e: Entry) returns (v: Verdict, e': Entry)
      modifies `asked
      ensures (v.Fine() <==> GoodLabel(e)) && (!v.modified ==> e' == e) && (NeverYes() ==> !v.modified) && (AlwaysYes() ==> !v.broken)
      ensures e'.status == e.status && (!v.broken ==> GoodLabel(e'))
      ensures PasswordOr(e, e') || (e.extnol / 64 % 2 == 1 && e.extnol / 16 % 2 == 1
                && (PasswordOr(e.(extnol := e.extnol - 0x40), e') || PasswordOr(e.(extnol := e.extnol - 0x10), e')))
    {
      v, e' := OK, e;
      if e.extnol / 64 % 2 == 1 && e.extnol / 16 % 2 == 1 {
        OneBitLess(e.extnol);
        var yes := Ask();
        if yes {
          v, e' := MODIFIED, e.(extnol := e.extnol - 0x40);
        } else {
          v, e' := Repair(e, e.(extnol := e.extnol - 0x10));
        }
      }
      if e'.extnol / 128 == 1 {
        var good := CheckPassword(e');
        if !good {
          var w;
          SecretIsGood(e');
          NewPassword(e');
          w, e' := Repair(e', WithSecret(e'));
          v := v.Or(w);
        }
      }
    }

    method CheckPasswordEntry(e: Entry) returns (v: Verdict, e': Entry)
      requires e.status != UNUSED
      modifies `asked
      ensures (v.Fine() <==> GoodPasswordEntry(e)) && (!v.modified ==> e' == e) && (NeverYes() ==> !v.modified) && (AlwaysYes() ==> !v.broken)
      ensures RemovedOr(e, e') || PasswordOr(e, e')
      ensures !v.broken && e'.status == e.status ==> GoodPasswordEntry(e')
    {
      v, e' := CheckName(e);
      if v.modified { return; }
      if e.extnol / 32 != 0 {
        var good := CheckPassword(e);
        if !good {
          var w;
          SecretIsGood(e);
          NewPassword(e);
          w, e' := Repair(e, WithSecret(e));
          v := v.Or(w);
        }
      }
    }

    method CheckEntry(e: Entry) returns (v: Verdict, e': Entry)
      requires FormatOk(f)
      modifies `asked
      ensures (v.Fine() <==> GoodEntry(e, f)) && (!v.modified ==> e' == e) && (NeverYes() ==> !v.modified) && (AlwaysYes() ==> !v.broken)
      ensures !v.broken ==> GoodEntry(e', f)
      ensures Repairs(e, e')
    {
      if e.status <= (if f.typ == P2DOS then 31 else 15) {
        v, e' := CheckFile(e);
      } else if (f.typ == P2DOS || f.typ == DR3) && e.status == DATESTAMP {
        v, e' := OK, e;
      } else if f.typ == DR3 && e.status == DISCLABEL {
        v, e' := CheckLabel(e);
      } else if f.typ == DR3 && 16 <= e.status <= 31 {
        v, e' := CheckPasswordEntry(e);
      } else if e.status != UNUSED {
        v, e' := Repair(e, Removed(e));
      } else {
        v, e' := OK, e;
      }
    }

    method CheckEntries() returns (v: Verdict)
      requires FormatOk(f)
      modifies `asked, dir
      ensures (v.Fine() <==> GoodEntries(old(dir[..]), f)) && (!v.modified ==> dir[..] == old(dir[..])) && (NeverYes() ==> !v.modified) && (AlwaysYes() ==> !v.broken)
      ensures !v.broken ==> GoodEntries(dir[..], f)
      ensures forall i :: 0 <= i < dir.Length ==> Repairs(old(dir[i]), dir[i])
    {
      v := OK;
      var extent := 0;
      while extent < dir.Length
        invariant 0 <= extent <= dir.Length && (NeverYes() ==> !v.modified) && (AlwaysYes() ==> !v.broken)
        invariant v.Fine() <==> forall i :: 0 <= i < extent ==> GoodEntry(old(dir[i]), f)
        invariant !v.broken ==> forall i :: 0 <= i < extent ==> GoodEntry(dir[i], f)
        invariant forall i :: 0 <= i < extent ==> Repairs(old(dir[i]), dir[i])
        invariant !v.modified ==> dir[..] == old(dir[..])
        invariant forall i :: extent <= i < dir.Length ==> dir[i] == old(dir[i])
      {
        var w, e := CheckEntry(dir[extent]);
        v := v.Or(w);
        dir[extent] := e;
        extent := extent + 1;
      }
    }

    // -------------------------------------------------- phase 2: connectivity

    /** Does some slot of entry e2 hold the block of slot k of entry i? */
    method PairClashes(i: nat, k: nat, e2: nat) returns (found: bool)
      requires i < dir.Length && e2 < dir.Length && k < Slots(f.size) && Checked(dir[i], f.typ) && Checked(dir[e2], f.typ)
      ensures found == PairClash(dir[..], f, i, k, e2, Slots(f.size))
    {
      found := false;
      var block := Pointer(dir[i], k, f.size);
      var j := 0;
      while j < Slots(f.size)
        invariant 0 <= j <= Slots(f.size)
        invariant found == PairClash(dir[..], f, i, k, e2, j)
      {
        var block2 := Pointer(dir[e2], j, f.size);
        if block != 0 && block2 != 0 && block == block2 && !(i == e2 && k == j) {
          assert Clash(dir[..], f, i, k, e2, j);
          found := true;
        }
        j := j + 1;
      }
    }

    /** Phase 2, one slot: does another slot hold the same block? */
    method SlotClashes(i: nat, k: nat) returns (found: bool)
      requires i < dir.Length && k < Slots(f.size) && Checked(dir[i], f.typ)
      ensures found == SlotClash(dir[..], f, i, k, dir.Length)
    {
      found := false;
      var e2 := 0;
      while e2 < dir.Length
        invariant 0 <= e2 <= dir.Length
        invariant found == SlotClash(dir[..], f, i, k, e2)
      {
        if dir[e2].status <= (if f.typ == P2DOS then 31 else 15) {
          var hit := PairClashes(i, k, e2);
          if hit { found := true; }
        } else {
          Unchecked(dir[..], f, e2);
        }
        e2 := e2 + 1;
      }
    }

    method EntryClashes(i: nat) returns (found: bool)
      requires i < dir.Length && Checked(dir[i], f.typ)
      ensures found == EntryClash(dir[..], f, i, Slots(f.size))
    {
      found := false;
      var k := 0;
      while k < Slots(f.size)
        invariant 0 <= k <= Slots(f.size)
        invariant found == EntryClash(dir[..], f, i, k)
      {
        var hit := SlotClashes(i, k);
        if hit { found := true; }
        k := k + 1;
      }
    }

    method EntryDuplicated(i: nat) returns (found: bool)
      requires i < dir.Length && Checked(dir[i], f.typ)
      ensures found == EntryDuplicate(dir[..], f.typ, i, dir.Length)
    {
      found := false;
      var e2 := 0;
      while e2 < dir.Length
        invariant 0 <= e2 <= dir.Length
        invariant found == EntryDuplicate(dir[..], f.typ, i, e2)
      {
        if dir[e2].status <= (if f.typ == P2DOS then 31 else 15) {
          if i != e2 && ExtentOf(dir[i]) == ExtentOf(dir[e2]) && dir[i].status == dir[e2].status {
            var same := SameChars(dir[i].name, dir[e2].name);
            if same { same := SameChars(dir[i].ext, dir[e2].ext); }
            if same {
              assert Duplicate(dir[..], f.typ, i, e2);
              found := true;
            }
          }
        }
        e2 := e2 + 1;
      }
    }

    method AnyClash() returns (found: bool)
      ensures found == SomeClash(dir[..], f, dir.Length)
    {
      found := false;
      var extent := 0;
      while extent < dir.Length
        invariant 0 <= extent <= dir.Length
        invariant found == SomeClash(dir[..], f, extent)
      {
        if dir[extent].status <= (if f.typ == P2DOS then 31 else 15) {
          var hit := EntryClashes(extent);
          if hit { found := true; }
        } else {
          Unchecked(dir[..], f, extent);
        }
        extent := extent + 1;
      }
    }

    method AnyDuplicate() returns (found: bool)
      ensures found == SomeDuplicate(dir[..], f.typ, dir.Length)
    {
      found := false;
      var extent := 0;
      while extent < dir.Length
        invariant 0 <= extent <= dir.Length
        invariant found == SomeDuplicate(dir[..], f.typ, extent)
      {
        if dir[extent].status <= (if f.typ == P2DOS then 31 else 15) {
          var hit := EntryDuplicated(extent);
          if hit { found := true; }
        } else {
          Unchecked(dir[..], f, extent);
        }
        extent := extent + 1;
      }
    }

    /**
     The whole check. It is fine exactly if the directory is clean; whatever
     the user answers, a directory not reported as broken is clean in the end,
     and without repairs nothing is changed.
    */
    method Fsck() returns (v: Verdict)
      requires FormatOk(f)
      modifies `asked, dir
      ensures v.Fine() <==> Clean(old(dir[..]), f)
      ensures !v.broken ==> Clean(dir[..], f)
      ensures !v.modified ==> dir[..] == old(dir[..])
      ensures NeverYes() ==> !v.modified
      ensures AlwaysYes() ==> GoodEntries(dir[..], f)
      ensures forall i :: 0 <= i < dir.Length ==> Repairs(old(dir[i]), dir[i])
    {
      v := CheckEntries();
      CleanIs(dir[..], f);
      CleanIs(old(dir[..]), f);
      var clashes := AnyClash();
      if clashes { v := v.Or(BROKEN); }
      var duplicates := AnyDuplicate();
      if duplicates { v := v.Or(BROKEN); }
    }
  }

  // -------------------------------------------------------------------- helpers

  function Width(size: nat): nat { if size > 256 then 2 else 1 }

  lemma {:induction false} NoneUsed(e: Entry, lo: nat, size: nat)
    requires lo <= Slots(size)
    ensures UsedSlots(e, lo, lo, size) == 0
  {
  }

  lemma {:induction false} OneMoreUsed(e: Entry, lo: nat, k: nat, size: nat)
    requires lo <= k < Slots(size)
    ensures Width(size) * k + Width(size) <= 16
    ensures var i := Width(size) * k; var used := e.pointers[i] != 0 || (size > 256 && e.pointers[i + 1] != 0);
            UsedSlots(e, lo, k + 1, size) == UsedSlots(e, lo, k, size) + if used then 1 else 0
  {
  }

  /** The bytes of a logical extent are those of its slots. */
  lemma {:induction false} Spans(f: Format, r: nat)
    requires FormatOk(f) && r < f.extents
    ensures PartStart(f, r) <= PartStart(f, r + 1)
    ensures r * 16 / f.extents == Width(f.size) * PartStart(f, r)
    ensures (r + 1) * 16 / f.extents == Width(f.size) * PartStart(f, r + 1)
  {
    PartsOrdered(f, r);
    if f.size > 256 { assert f.extents == 1 || f.extents == 2 || f.extents == 4 || f.extents == 8; }
  }

  /** The record byte count does not matter for the other tests. */
  lemma {:induction false} LastByteApart(e: Entry, e': Entry, f: Format)
    requires FormatOk(f) && e' == e.(lrc := e'.lrc)
    ensures GoodName(e') <==> GoodName(e)
    ensures GoodExtent(e') <==> GoodExtent(e)
    ensures GoodPointers(e', f) <==> GoodPointers(e, f)
    ensures GoodRecords(e', f) <==> GoodRecords(e, f)
  {
    var r := e.extnol % f.extents;
    PartsOrdered(f, r);
    UsedApart(e, e', PartStart(f, r), PartStart(f, r + 1), f.size);
    assert forall k :: 0 <= k < Slots(f.size) ==> Pointer(e', k, f.size) == Pointer(e, k, f.size);
  }

  lemma {:induction false} UsedApart(e: Entry, e': Entry, lo: nat, hi: nat, size: nat)
    requires lo <= hi <= Slots(size) && e'.pointers == e.pointers
    ensures UsedSlots(e', lo, hi, size) == UsedSlots(e, lo, hi, size)
  {
    if lo < hi { UsedApart(e, e', lo, hi - 1, size); }
  }

  lemma {:induction false} OneBitLess(x: byte)
    requires x / 64 % 2 == 1 && x / 16 % 2 == 1
    ensures x >= 0x40 && (x - 0x40) / 64 % 2 == 0 && (x - 0x10) / 16 % 2 == 0
    ensures (x - 0x40) / 128 == x / 128 && (x - 0x10) / 128 == x / 128
  {
  }

  /** One of the first n slots of entry i' holds the block of slot k of entry i; and so on outwards, loop by loop. */
  ghost predicate PairClash(d: seq<Entry>, f: Format, i: nat, k: nat, i': nat, n: nat)
    requires i < |d| && i' < |d| && k < Slots(f.size) && n <= Slots(f.size)
  {
    exists k' :: 0 <= k' < n && Clash(d, f, i, k, i', k')
  }

  ghost predicate SlotClash(d: seq<Entry>, f: Format, i: nat, k: nat, n: nat)
    requires i < |d| && n <= |d| && k < Slots(f.size)
  {
    exists i' :: 0 <= i' < n && PairClash(d, f, i, k, i', Slots(f.size))
  }

  ghost predicate EntryClash(d: seq<Entry>, f: Format, i: nat, n: nat)
    requires i < |d| && n <= Slots(f.size)
  {
    exists k :: 0 <= k < n && SlotClash(d, f, i, k, |d|)
  }

  ghost predicate SomeClash(d: seq<Entry>, f: Format, n: nat)
    requires n <= |d|
  {
    exists i :: 0 <= i < n && EntryClash(d, f, i, Slots(f.size))
  }

  ghost predicate EntryDuplicate(d: seq<Entry>, typ: nat, i: nat, n: nat)
    requires i < |d| && n <= |d|
  {
    exists i' :: 0 <= i' < n && Duplicate(d, typ, i, i')
  }

  ghost predicate SomeDuplicate(d: seq<Entry>, typ: nat, n: nat)
    requires n <= |d|
  {
    exists i :: 0 <= i < n && EntryDuplicate(d, typ, i, |d|)
  }

  lemma {:induction false} Unchecked(d: seq<Entry>, f: Format, i: nat)
    requires i < |d| && !Checked(d[i], f.typ)
    ensures !EntryClash(d, f, i, Slots(f.size)) && !EntryDuplicate(d, f.typ, i, |d|)
    ensures forall j, k :: 0 <= j < |d| && 0 <= k < Slots(f.size) ==> !PairClash(d, f, j, k, i, Slots(f.size))
  {
  }

  lemma {:induction false} CleanIs(d: seq<Entry>, f: Format)
    requires FormatOk(f)
    ensures Clean(d, f) <==> GoodEntries(d, f) && !SomeClash(d, f, |d|) && !SomeDuplicate(d, f.typ, |d|)
  {
    if SomeClash(d, f, |d|) {
      var i :| 0 <= i < |d| && EntryClash(d, f, i, Slots(f.size));
      var k :| 0 <= k < Slots(f.size) && SlotClash(d, f, i, k, |d|);
      var i' :| 0 <= i' < |d| && PairClash(d, f, i, k, i', Slots(f.size));
      var k' :| 0 <= k' < Slots(f.size) && Clash(d, f, i, k, i', k');
      assert !Clean(d, f);
    } else {
      forall i, k, i', k' | 0 <= i < |d| && 0 <= i' < |d| && 0 <= k < Slots(f.size) && 0 <= k' < Slots(f.size)
        ensures !Clash(d, f, i, k, i', k')
      {
        assert !EntryClash(d, f, i, Slots(f.size));
        assert !SlotClash(d, f, i, k, |d|);
        assert !PairClash(d, f, i, k, i', Slots(f.size));
      }
    }
    if SomeDuplicate(d, f.typ, |d|) {
      var i :| 0 <= i < |d| && EntryDuplicate(d, f.typ, i, |d|);
    } else {
      forall i, i' | 0 <= i < |d| && 0 <= i' < |d| ensures !Duplicate(d, f.typ, i, i') {
        assert !EntryDuplicate(d, f.typ, i, |d|);
      }
    }
  }
}
