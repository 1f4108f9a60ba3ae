/**
 Canonical Huffman codes as the PKWare decoder uses them: symbols sorted by
 code length, codes of one length consecutive, bits inverted in the stream.
*/
module BlastCode {
  import opened Bits

  const MAXBITS := 13

  type Length = l: int | 0 <= l <= MAXBITS

  // ------------------------------------------------------------ the lengths

  /** How many symbols have codes of length l. */
  function CountOf(lengths: seq<Length>, l: int): nat {
    if lengths == [] then 0 else
    CountOf(lengths[..|lengths| - 1], l) + if lengths[|lengths| - 1] == l then 1 else 0
  }

  /** How many symbols before s have codes as long as that of s. */
  function Rank(lengths: seq<Length>, s: nat): nat
    requires s < |lengths|
  {
    CountOf(lengths[..s], lengths[s])
  }

  /** How many symbols have codes shorter than l. */
  function Index(lengths: seq<Length>, l: nat): nat {
    if l <= 1 then 0 else Index(lengths, l - 1) + CountOf(lengths, l - 1)
  }

  /** The first code of length l. */
  function First(lengths: seq<Length>, l: nat): nat {
    if l <= 1 then 0 else 2 * (First(lengths, l - 1) + CountOf(lengths, l - 1))
  }

  /** How many codes of length l are still free once all shorter and equally long ones are taken. */
  function Left(lengths: seq<Length>, l: nat): int {
    if l == 0 then 1 else 2 * Left(lengths, l - 1) - CountOf(lengths, l)
  }

  /** The share of all codes of length l that is taken by codes of length up to l. */
  function Kraft(lengths: seq<Length>, l: nat): nat {
    if lengths == [] then 0 else
    var k := lengths[|lengths| - 1];
    Kraft(lengths[..|lengths| - 1], l) + if 0 < k <= l then Pow2(l - k) else 0
  }

  lemma {:induction false} KraftStep(lengths: seq<Length>, l: nat)
    requires l > 0
    ensures Kraft(lengths, l) == 2 * Kraft(lengths, l - 1) + CountOf(lengths, l)
  {
    if lengths != [] {
      KraftStep(lengths[..|lengths| - 1], l);
      var k := lengths[|lengths| - 1];
      if 0 < k < l { assert Pow2(l - k) == 2 * Pow2(l - 1 - k); }
    }
  }

  lemma {:induction false} KraftNone(lengths: seq<Length>)
    ensures Kraft(lengths, 0) == 0
  {
    if lengths != [] { KraftNone(lengths[..|lengths| - 1]); }
  }

  /** Left is the scaled remainder of Kraft's sum. */
  lemma {:induction false} KraftRemainder(lengths: seq<Length>, l: nat)
    ensures Left(lengths, l) == Pow2(l) - Kraft(lengths, l)
  {
    if l == 0 {
      KraftNone(lengths);
    } else {
      KraftRemainder(lengths, l - 1);
      KraftStep(lengths, l);
    }
  }

  /** The first free code after those of length l, and what is left of length l, make up everything. */
  lemma {:induction false} FirstIs(lengths: seq<Length>, l: nat)
    requires l > 0
    ensures First(lengths, l) + CountOf(lengths, l) == Pow2(l) - Left(lengths, l)
  {
    if l == 1 {
      assert Pow2(1) == 2 * Pow2(0);
      assert Left(lengths, 1) == 2 * Left(lengths, 0) - CountOf(lengths, 1);
    } else {
      FirstIs(lengths, l - 1);
    }
  }

  /** No length has more codes than there is room for. */
  ghost predicate Fits(lengths: seq<Length>) {
    forall l :: 0 <= l <= MAXBITS ==> Left(lengths, l) >= 0
  }

  lemma {:induction false} LeftFalls(lengths: seq<Length>, l: nat, m: nat)
    requires l <= m && Left(lengths, l) < 0
    ensures Left(lengths, m) < 0
    decreases m
  {
    if l < m { LeftFalls(lengths, l, m - 1); }
  }

  lemma {:induction false} CompleteFits(lengths: seq<Length>)
    requires Left(lengths, MAXBITS) >= 0
    ensures Fits(lengths)
  {
    forall l | 0 <= l <= MAXBITS ensures Left(lengths, l) >= 0 {
      if Left(lengths, l) < 0 { LeftFalls(lengths, l, MAXBITS); }
    }
  }

  // ------------------------------------------------------------- the tables

  datatype Table = Table(count: seq<nat>, symbol: seq<nat>)

  /** Every symbol has a code. */
  predicate AllCoded(lengths: seq<Length>) { forall i :: 0 <= i < |lengths| ==> lengths[i] > 0 }

  /** The table holds the counts of the lengths, and their symbols sorted by length, stably. */
  ghost predicate Sorted(t: Table, lengths: seq<Length>) {
    && |t.count| == MAXBITS + 1
    && (forall l :: 0 < l <= MAXBITS ==> t.count[l] == CountOf(lengths, l))
    && (forall s {:trigger SymbolAt(t, lengths, s)} :: 0 <= s < |lengths| && lengths[s] > 0 ==> SymbolAt(t, lengths, s))
  }

  ghost predicate SymbolAt(t: Table, lengths: seq<Length>, s: nat)
    requires s < |lengths|
  {
    var k := Index(lengths, lengths[s]) + Rank(lengths, s);
    k < |t.symbol| && t.symbol[k] == s
  }

  /** The code of symbol s as a number. */
  function CodeOf(lengths: seq<Length>, s: nat): nat
    requires s < |lengths|
  {
    First(lengths, lengths[s]) + Rank(lengths, s)
  }

  function Invert(s: seq<bool>): (r: seq<bool>)
    ensures |r| == |s| && forall i :: 0 <= i < |s| ==> r[i] == !s[i]
  {
    seq(|s|, i requires 0 <= i < |s| => !s[i])
  }

  /** The bits that stand for the l-bit code v in the stream. */
  function Word(v: nat, l: nat): (r: seq<bool>)
    ensures |r| == l
  {
    Invert(ToBits(v, l))
  }

  lemma {:induction false} WordMore(v: nat, l: nat, b: bool)
    ensures Word(2 * v + if b then 0 else 1, l + 1) == Word(v, l) + [b]
  {
    var w := 2 * v + if b then 0 else 1;
    assert w / 2 == v && (w % 2 == 1) == !b;
  }

  // --------------------------------------------------------------- decoding

  datatype Lookup = Symbol(s: nat, rest: seq<bool>) | NoCode | Starved

  /** Walk through the code lengths from l on, with the code, first and index of that length. */
  function LookFrom(t: Table, l: nat, code: nat, first: nat, index: nat, bits: seq<bool>): (r: Lookup)
    requires |t.count| == MAXBITS + 1 && first <= code && 0 < l
    ensures r.Symbol? ==> |r.rest| < |bits|
    decreases |bits|
  {
    if l > MAXBITS then NoCode
    else if bits == [] then Starved
    else
      var code' := if bits[0] then code else code + 1;
      var count := t.count[l];
      if code' < first + count then
        var k := index + (code' - first);
        if k < |t.symbol| then Symbol(t.symbol[k], bits[1..]) else NoCode
      else LookFrom(t, l + 1, 2 * code', 2 * (first + count), index + count, bits[1..])
  }

  function Decode(t: Table, bits: seq<bool>): Lookup
    requires |t.count| == MAXBITS + 1
  {
    LookFrom(t, 1, 0, 0, 0, bits)
  }

  /** v is beyond all codes of lengths up to l. */
  ghost predicate Beyond(lengths: seq<Length>, v: nat, l: nat) {
    l <= MAXBITS && (if l == 0 then v == 0 else v >= First(lengths, l) + CountOf(lengths, l))
  }

  /** One bit of decoding. */
  lemma {:induction false} LookOne(t: Table, l: nat, code: nat, first: nat, index: nat, b: bool, rest: seq<bool>)
    requires |t.count| == MAXBITS + 1 && first <= code && 0 < l <= MAXBITS
    ensures var code' := if b then code else code + 1; var k := index + (code' - first);
            LookFrom(t, l, code, first, index, [b] + rest)
            == if code' >= first + t.count[l] then LookFrom(t, l + 1, 2 * code', 2 * (first + t.count[l]), index + t.count[l], rest)
               else if k < |t.symbol| then Symbol(t.symbol[k], rest) else NoCode
  {
    assert ([b] + rest)[1..] == rest;
  }

  /** Splitting off the last bit of a code. */
  lemma {:induction false} LastBit(v: nat, l: nat, rest: seq<bool>)
    requires l > 0
    ensures Word(v, l) + rest == Word(v / 2, l - 1) + ([v % 2 == 0] + rest)
  {
    WordMore(v / 2, l - 1, v % 2 == 0);
  }

  lemma {:induction false} BeyondHalf(lengths: seq<Length>, v: nat, l: nat)
    requires 0 < l <= MAXBITS && First(lengths, l) <= v < Pow2(l)
    ensures Beyond(lengths, v / 2, l - 1) && v / 2 < Pow2(l - 1)
    ensures 2 * (v / 2) + (if v % 2 == 0 then 0 else 1) == v
  {
    assert Pow2(l) == 2 * Pow2(l - 1);
    assert l == 1 ==> Pow2(l - 1) == 1;
  }

  lemma {:induction false} NextLength(lengths: seq<Length>, v: nat, l: nat)
    requires 0 < l && v >= First(lengths, l) + CountOf(lengths, l)
    ensures First(lengths, l + 1) == 2 * (First(lengths, l) + CountOf(lengths, l)) <= 2 * v
    ensures Index(lengths, l + 1) == Index(lengths, l) + CountOf(lengths, l)
  {
  }

  lemma {:induction false} PassesNothing(t: Table, lengths: seq<Length>, v: nat, rest: seq<bool>)
    requires |t.count| == MAXBITS + 1 && Beyond(lengths, v, 0)
    ensures First(lengths, 1) <= 2 * v
    ensures Decode(t, Word(v, 0) + rest) == LookFrom(t, 1, 2 * v, First(lengths, 1), Index(lengths, 1), rest)
  {
    assert Word(v, 0) + rest == rest;
  }

  /** The state of decoding after the l bits of v, when v is beyond all codes so far. */
  lemma {:induction false} Passes(t: Table, lengths: seq<Length>, v: nat, l: nat, rest: seq<bool>)
    requires Sorted(t, lengths) && Beyond(lengths, v, l) && v < Pow2(l)
    ensures First(lengths, l + 1) <= 2 * v
    ensures Decode(t, Word(v, l) + rest) == LookFrom(t, l + 1, 2 * v, First(lengths, l + 1), Index(lengths, l + 1), rest)
    decreases l
  {
    hide Pow2, LookFrom, First, Index;
    assert |t.count| == MAXBITS + 1;
    if l > 0 {
      assert t.count[l] == CountOf(lengths, l);
      BeyondHalf(lengths, v, l);
      NextLength(lengths, v, l);
    }
    if l == 0 {
      PassesNothing(t, lengths, v, rest);
    } else {
      LastBit(v, l, rest);
      var b, u := v % 2 == 0, v / 2;
      Passes(t, lengths, u, l - 1, [b] + rest);
      LookOne(t, l, 2 * u, First(lengths, l), Index(lengths, l), b, rest);
    }
  }

  lemma {:induction false} RankBelow(lengths: seq<Length>, s: nat)
    requires s < |lengths|
    ensures Rank(lengths, s) < CountOf(lengths, lengths[s])
  {
    assert lengths[..s + 1][..s] == lengths[..s];
    CountGrows(lengths, s + 1, lengths[s]);
  }

  lemma {:induction false} CountGrows(lengths: seq<Length>, n: nat, l: int)
    requires n <= |lengths|
    ensures CountOf(lengths[..n], l) <= CountOf(lengths, l)
  {
    if n < |lengths| {
      CountGrows(lengths[..|lengths| - 1], n, l);
      assert lengths[..|lengths| - 1][..n] == lengths[..n];
    } else {
      assert lengths[..n] == lengths;
    }
  }

  /** The code of a symbol is among those of its length, and short enough. */
  lemma {:induction false} CodeBounds(lengths: seq<Length>, s: nat)
    requires Fits(lengths) && s < |lengths| && lengths[s] > 0
    ensures var l := lengths[s];
            First(lengths, l) <= CodeOf(lengths, s) < First(lengths, l) + CountOf(lengths, l) && CodeOf(lengths, s) < Pow2(l)
  {
    RankBelow(lengths, s);
    FirstIs(lengths, lengths[s]);
    assert Left(lengths, lengths[s]) >= 0;
  }

  /** A code v among those of length l leads to its place in the table. */
  lemma {:induction false} HitsCode(t: Table, lengths: seq<Length>, l: nat, v: nat, rest: seq<bool>)
    requires Sorted(t, lengths) && 0 < l <= MAXBITS && First(lengths, l) <= v < Pow2(l)
    requires v < First(lengths, l) + CountOf(lengths, l)
    requires Index(lengths, l) + (v - First(lengths, l)) < |t.symbol|
    ensures Decode(t, Word(v, l) + rest) == Symbol(t.symbol[Index(lengths, l) + (v - First(lengths, l))], rest)
  {
    assert t.count[l] == CountOf(lengths, l);
    BeyondHalf(lengths, v, l);
    LastBit(v, l, rest);
    var b, u := v % 2 == 0, v / 2;
    hide *;
    Passes(t, lengths, u, l - 1, [b] + rest);
    LookOne(t, l, 2 * u, First(lengths, l), Index(lengths, l), b, rest);
  }

  /** The code of every symbol decodes to that symbol, and to nothing more. */
  lemma {:induction false} DecodesCode(t: Table, lengths: seq<Length>, s: nat, rest: seq<bool>)
    requires Sorted(t, lengths) && Fits(lengths) && s < |lengths| && lengths[s] > 0
    ensures Decode(t, Word(CodeOf(lengths, s), lengths[s]) + rest) == Symbol(s, rest)
  {
    CodeBounds(lengths, s);
    assert SymbolAt(t, lengths, s);
    HitsCode(t, lengths, lengths[s], CodeOf(lengths, s), rest);
  }

  // ------------------------------------------------------- complete codes

  /** The r-th symbol with a code of length l. */
  lemma {:induction false} SymbolOfRank(lengths: seq<Length>, l: int, r: nat) returns (s: nat)
    requires r < CountOf(lengths, l)
    ensures s < |lengths| && lengths[s] == l && Rank(lengths, s) == r
  {
    var n := |lengths| - 1;
    if r < CountOf(lengths[..n], l) {
      s := SymbolOfRank(lengths[..n], l, r);
      assert lengths[..n][..s] == lengths[..s];
    } else {
      s := n;
    }
  }

  /** Once v leaves room for a code, one more bit does. */
  ghost predicate Room(lengths: seq<Length>, v: nat, l: nat) {
    Beyond(lengths, v, l) && v < Pow2(l)
  }

  /** With a complete code every bit sequence that is long enough begins with the code of some symbol. */
  lemma {:induction false} SomeCode(t: Table, lengths: seq<Length>, v: nat, l: nat, rest: seq<bool>)
      returns (s: nat, rest': seq<bool>)
    requires Sorted(t, lengths) && Left(lengths, MAXBITS) == 0 && Room(lengths, v, l) && |rest| >= MAXBITS - l
    ensures s < |lengths| && lengths[s] > 0
    ensures Word(v, l) + rest == Word(CodeOf(lengths, s), lengths[s]) + rest'
    decreases MAXBITS - l
  {
    if l == MAXBITS {
      FirstIs(lengths, l);
      assert false;
    } else {
      var b := rest[0];
      var w := 2 * v + if b then 0 else 1;
      WordMore(v, l, b);
      assert Word(v, l) + rest == Word(w, l + 1) + rest[1..];
      if w >= First(lengths, l + 1) + CountOf(lengths, l + 1) {
        s, rest' := SomeCode(t, lengths, w, l + 1, rest[1..]);
      } else {
        s := SymbolOfRank(lengths, l + 1, w - First(lengths, l + 1));
        rest' := rest[1..];
      }
    }
  }

  /** With a complete code, decoding enough bits always finds a symbol, and takes exactly the bits of its code. */
  lemma {:induction false} CompleteDecodes(t: Table, lengths: seq<Length>, bits: seq<bool>)
    requires Sorted(t, lengths) && Left(lengths, MAXBITS) == 0 && |bits| >= MAXBITS
    ensures var r := Decode(t, bits);
            && r.Symbol? && r.s < |lengths| && lengths[r.s] > 0
            && bits == Word(CodeOf(lengths, r.s), lengths[r.s]) + r.rest
  {
    assert Word(0, 0) + bits == bits;
    var s, rest := SomeCode(t, lengths, 0, 0, bits);
    CompleteFits(lengths);
    DecodesCode(t, lengths, s, rest);
  }

  /** With fewer bits the decoder may run dry, but it never meets an invalid code. */
  lemma {:induction false} CompleteNeverFails(t: Table, lengths: seq<Length>, bits: seq<bool>)
    requires Sorted(t, lengths) && Left(lengths, MAXBITS) == 0
    ensures Decode(t, bits).Starved?
         || (Decode(t, bits).Symbol? && Decode(t, bits).s < |lengths| && lengths[Decode(t, bits).s] > 0
             && bits == Word(CodeOf(lengths, Decode(t, bits).s), lengths[Decode(t, bits).s]) + Decode(t, bits).rest)
  {
    var pad := Repeat(false, MAXBITS);
    CompleteDecodes(t, lengths, bits + pad);
    if !Decode(t, bits).Starved? { MoreBits(t, 1, 0, 0, 0, bits, pad); }
    var r := Decode(t, bits);
    if r.Symbol? {
      var word := Word(CodeOf(lengths, r.s), lengths[r.s]);
      assert bits + pad == word + (r.rest + pad);
      Cancel(bits, word + r.rest, pad);
    }
  }

  lemma {:induction false} Cancel(a: seq<bool>, b: seq<bool>, c: seq<bool>)
    requires a + c == b + c
    ensures a == b
  {
    assert |a| == |b|;
    assert a == (a + c)[..|a|] && b == (b + c)[..|a|];
  }

  /** Bits that are not looked at do not matter. */
  lemma {:induction false} MoreBits(t: Table, l: nat, code: nat, first: nat, index: nat, bits: seq<bool>, more: seq<bool>)
    requires |t.count| == MAXBITS + 1 && first <= code && 0 < l
    requires !LookFrom(t, l, code, first, index, bits).Starved?
    ensures var r := LookFrom(t, l, code, first, index, bits);
            LookFrom(t, l, code, first, index, bits + more) == if r.Symbol? then Symbol(r.s, r.rest + more) else r
    decreases |bits|
  {
    if l <= MAXBITS {
      assert (bits + more)[1..] == bits[1..] + more;
      var code' := if bits[0] then code else code + 1;
      var count := t.count[l];
      if code' >= first + count {
        MoreBits(t, l + 1, 2 * code', 2 * (first + count), index + count, bits[1..], more);
      }
    }
  }
}
