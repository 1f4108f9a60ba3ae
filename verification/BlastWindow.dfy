/** The 4096-byte window that stands in for an unbounded history. */
module BlastWindow {
  import opened Bits
  import opened BlastText

  /** Where the byte at place p of the text is kept, when the first base bytes have been written out. */
  function Slot(base: nat, p: nat): int { if p >= base then p - base else p - base + MAXWIN }

  ghost predicate Kept(o: seq<byte>, t: seq<byte>, base: nat, p: nat) {
    p < |t| && 0 <= Slot(base, p) < |o| && o[Slot(base, p)] == t[p]
  }

  /** The window o holds the last bytes of the text t, of which base bytes have been written out. */
  ghost predicate Holds(o: seq<byte>, t: seq<byte>, base: nat) {
    && |o| == MAXWIN && base <= |t| <= base + MAXWIN && (base == 0 || base >= MAXWIN)
    && forall p {:trigger Kept(o, t, base, p)} :: 0 <= p < |t| && |t| - MAXWIN <= p ==> Kept(o, t, base, p)
  }

  lemma {:induction false} HoldsNothing(o: seq<byte>)
    requires |o| == MAXWIN
    ensures Holds(o, [], 0)
  {
  }

  /** One more byte goes into the next slot. */
  lemma {:induction false} HoldsPut(o: seq<byte>, t: seq<byte>, base: nat, b: byte)
    requires Holds(o, t, base) && |t| < base + MAXWIN
    ensures Holds(o[|t| - base := b], t + [b], base)
  {
    var o', t' := o[|t| - base := b], t + [b];
    forall p | 0 <= p < |t'| && |t'| - MAXWIN <= p ensures Kept(o', t', base, p) {
      if p < |t| { assert Kept(o, t, base, p); }
    }
  }

  /** A full window is written out and starts again. */
  lemma {:induction false} HoldsFlush(o: seq<byte>, t: seq<byte>, base: nat)
    requires Holds(o, t, base) && |t| == base + MAXWIN
    ensures Holds(o, t, base + MAXWIN)
  {
    var base' := base + MAXWIN;
    forall p | 0 <= p < |t| && |t| - MAXWIN <= p ensures Kept(o, t, base', p) {
      assert Kept(o, t, base, p);
    }
  }

  /** The part of the text not yet written out is at the front of the window. */
  lemma {:induction false} HoldsFront(o: seq<byte>, t: seq<byte>, base: nat)
    requires Holds(o, t, base)
    ensures o[..|t| - base] == t[base..]
  {
    forall i | 0 <= i < |t| - base ensures o[i] == t[base + i] {
      assert Kept(o, t, base, base + i);
    }
  }

  /** The byte d places back. */
  lemma {:induction false} HoldsBack(o: seq<byte>, t: seq<byte>, base: nat, d: nat)
    requires Holds(o, t, base) && 0 < d <= MAXWIN && d <= |t|
    ensures var k := if |t| - base >= d then |t| - base - d else |t| - base - d + MAXWIN;
            0 <= k < MAXWIN && o[k] == t[|t| - d]
  {
    assert Kept(o, t, base, |t| - d);
  }
}
