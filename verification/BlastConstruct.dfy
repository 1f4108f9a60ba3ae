/** Building the decoding tables of a canonical code. */
module BlastConstruct {
  import opened Bits
  import opened BlastCode
  import opened BlastTables

  /** The code lengths a compact table stands for. */
  function Lengths(rep: seq<byte>): (r: seq<Length>)
    requires Sum(rep).bad == 0
    ensures |r| == Sum(rep).symbols
  {
    if rep == [] then [] else
    var b := rep[|rep| - 1];
    Lengths(rep[..|rep| - 1]) + Repeat<Length>(b % 16, b / 16 + 1)
  }

  lemma {:induction false} OneMore(n: int, p: int)
    ensures n * p == (n - 1) * p + p
  {
  }

  lemma {:induction false} KraftRepeat(a: seq<Length>, k: Length, n: nat)
    ensures Kraft(a + Repeat(k, n), MAXBITS) == Kraft(a, MAXBITS) + if k > 0 then n * Pow2(MAXBITS - k) else 0
  {
    if n == 0 {
      assert a + Repeat(k, 0) == a;
    } else {
      var s := a + Repeat(k, n);
      assert s[..|s| - 1] == a + Repeat(k, n - 1);
      KraftRepeat(a, k, n - 1);
      if k > 0 { OneMore(n, Pow2(MAXBITS - k)); }
    }
  }

  lemma {:induction false} KraftOfRep(rep: seq<byte>)
    requires Sum(rep).bad == 0
    ensures Kraft(Lengths(rep), MAXBITS) == Sum(rep).share
  {
    if rep != [] {
      var b := rep[|rep| - 1];
      KraftOfRep(rep[..|rep| - 1]);
      KraftRepeat(Lengths(rep[..|rep| - 1]), b % 16, b / 16 + 1);
    }
  }

  /** A table whose shares make up everything is a complete code. */
  lemma {:induction false} RepComplete(rep: seq<byte>)
    requires Sum(rep).bad == 0 && Sum(rep).share == Pow2(MAXBITS)
    ensures Left(Lengths(rep), MAXBITS) == 0
  {
    KraftOfRep(rep);
    KraftRemainder(Lengths(rep), MAXBITS);
  }

  /** Without silent entries every symbol has a code. */
  lemma {:induction false} EverySymbolCoded(rep: seq<byte>)
    requires Sum(rep).bad == 0 && Sum(rep).silent == 0
    ensures forall i :: 0 <= i < |Lengths(rep)| ==> Lengths(rep)[i] > 0
  {
    if rep != [] { EverySymbolCoded(rep[..|rep| - 1]); }
  }

  lemma {:induction false} Pow2OfMax()
    ensures Pow2(MAXBITS) == 8192
  {
    ShareIs(1);
  }

  /** rep stands for a complete code of n symbols, all of which have codes. */
  ghost predicate FullCode(rep: seq<byte>, n: nat) {
    && |rep| > 0 && Sum(rep).bad == 0 && Sum(rep).symbols == n && |Lengths(rep)| == n && Left(Lengths(rep), MAXBITS) == 0
    && AllCoded(Lengths(rep))
  }

  lemma {:induction false} IsFullCode(rep: seq<byte>, n: nat)
    requires n > 0 && Sum(rep) == Sums(n, 8192, 0, 0)
    ensures FullCode(rep, n)
  {
    Pow2OfMax();
    RepComplete(rep);
    EverySymbolCoded(rep);
  }

  /** The three codes of the format are complete, with 256, 16 and 64 symbols. */
  lemma {:induction false} TablesComplete()
    ensures FullCode(LITLEN, 256) && FullCode(LENLEN, 16) && FullCode(DISTLEN, 64)
  {
    LiteralSum();
    LengthSum();
    DistanceSum();
    hide *;
    IsFullCode(LITLEN, 256);
    IsFullCode(LENLEN, 16);
    IsFullCode(DISTLEN, 64);
  }

  // ---------------------------------------------------------- counting sort

  lemma {:induction false} IndexStep(lengths: seq<Length>, l: nat, m: nat)
    requires 0 < l < m
    ensures Index(lengths, l) + CountOf(lengths, l) <= Index(lengths, m)
    decreases m
  {
    if l < m - 1 { IndexStep(lengths, l, m - 1); }
  }

  lemma {:induction false} RankGrows(lengths: seq<Length>, s: nat, s': nat)
    requires s < s' < |lengths| && lengths[s] == lengths[s']
    ensures Rank(lengths, s) < Rank(lengths, s')
  {
    assert lengths[..s'][..s] == lengths[..s] && lengths[..s'][s] == lengths[s];
    RankBelow(lengths[..s'], s);
  }

  /** Where symbol s belongs. */
  function Place(lengths: seq<Length>, s: nat): nat
    requires s < |lengths|
  {
    Index(lengths, lengths[s]) + Rank(lengths, s)
  }

  /** Every symbol has a place of its own. */
  lemma {:induction false} PlacesDiffer(lengths: seq<Length>, s: nat, s': nat)
    requires s < s' < |lengths| && lengths[s] > 0 && lengths[s'] > 0
    ensures Place(lengths, s) != Place(lengths, s')
  {
    var l, m := lengths[s], lengths[s'];
    RankBelow(lengths, s);
    RankBelow(lengths, s');
    if l == m {
      RankGrows(lengths, s, s');
    } else if l < m {
      IndexStep(lengths, l, m);
    } else {
      IndexStep(lengths, m, l);
    }
  }

  lemma {:induction false} PlaceBelow(lengths: seq<Length>, s: nat)
    requires s < |lengths| && lengths[s] > 0
    ensures Place(lengths, s) < Index(lengths, MAXBITS + 1)
  {
    RankBelow(lengths, s);
    IndexStep(lengths, lengths[s], MAXBITS + 1);
  }

  lemma {:induction false} CountMore(lengths: seq<Length>, s: nat, l: int)
    requires s < |lengths|
    ensures CountOf(lengths[..s + 1], l) == CountOf(lengths[..s], l) + if lengths[s] == l then 1 else 0
  {
    assert lengths[..s + 1][..s] == lengths[..s];
  }

  lemma {:induction false} CountsMore(lengths: seq<Length>, s: nat)
    requires s < |lengths|
    ensures forall l :: 0 <= l <= MAXBITS ==>
              CountOf(lengths[..s + 1], l) == CountOf(lengths[..s], l) + if lengths[s] == l then 1 else 0
  {
    forall l | 0 <= l <= MAXBITS
      ensures CountOf(lengths[..s + 1], l) == CountOf(lengths[..s], l) + if lengths[s] == l then 1 else 0
    {
      CountMore(lengths, s, l);
    }
  }

  /** The first n symbols have been put in their places. */
  ghost predicate Placed(symbol: seq<nat>, lengths: seq<Length>, n: nat)
    requires n <= |lengths|
  {
    forall s {:trigger PlacedAt(symbol, lengths, s)} :: 0 <= s < n && lengths[s] > 0 ==> PlacedAt(symbol, lengths, s)
  }

  ghost predicate PlacedAt(symbol: seq<nat>, lengths: seq<Length>, s: nat)
    requires s < |lengths|
  {
    Place(lengths, s) < |symbol| && symbol[Place(lengths, s)] == s
  }

  lemma {:induction false} PlaceOne(symbol: seq<nat>, lengths: seq<Length>, n: nat)
    requires n < |lengths| && lengths[n] > 0 && Placed(symbol, lengths, n) && Place(lengths, n) < |symbol|
    ensures Placed(symbol[Place(lengths, n) := n], lengths, n + 1)
  {
    var r := symbol[Place(lengths, n) := n];
    forall s | 0 <= s < n + 1 && lengths[s] > 0 ensures PlacedAt(r, lengths, s) {
      if s < n {
        assert PlacedAt(symbol, lengths, s);
        PlacesDiffer(lengths, s, n);
      }
    }
  }

  // ---------------------------------------------------------- the method

  /** l is the first length with more codes than there is room for. */
  ghost predicate Oversubscribed(lengths: seq<Length>, l: nat) {
    0 < l <= MAXBITS && Left(lengths, l) < 0 && forall j :: 0 <= j < l ==> Left(lengths, j) >= 0
  }

  /** Expand the compact table. */
  method ReadLengths(rep: seq<byte>, length: array<Length>) returns (n: nat)
    requires |rep| > 0 && Sum(rep).bad == 0 && Sum(rep).symbols <= length.Length
    modifies length
    ensures n == Sum(rep).symbols && length[..n] == Lengths(rep)
  {
    n := 0;
    var i := 0;
    assert length[..0] == [];
    while i < |rep|
      invariant i <= |rep| && Sum(rep[..i]).bad == 0 && Sum(rep[..i]).symbols <= length.Length
      invariant n == Sum(rep[..i]).symbols && length[..n] == Lengths(rep[..i])
    {
      SumPrefix(rep, i + 1);
      SumMore(rep, i);
      ghost var before := Lengths(rep[..i]);
      assert rep[..i + 1][..i] == rep[..i];
      var left := rep[i] / 16 + 1;
      var len := rep[i] % 16;
      n := FillLengths(length, n, len, left);
      assert length[..n] == before + Repeat<Length>(len, left);
      i := i + 1;
    }
    assert rep[..|rep|] == rep;
  }

  lemma {:induction false} SumPrefix(rep: seq<byte>, n: nat)
    requires n <= |rep|
    ensures Sum(rep[..n]).bad <= Sum(rep).bad && Sum(rep[..n]).symbols <= Sum(rep).symbols
  {
    assert rep == rep[..n] + rep[n..];
    SumConcat(rep[..n], rep[n..]);
  }

  method FillLengths(length: array<Length>, start: nat, len: Length, times: nat) returns (n: nat)
    requires start + times <= length.Length && times > 0
    modifies length
    ensures n == start + times && length[..n] == old(length[..start]) + Repeat(len, times)
  {
    n := start;
    var left := times;
    while left != 0
      invariant n + left == start + times
      invariant length[..n] == old(length[..start]) + Repeat(len, n - start)
    {
      length[n] := len;
      n := n + 1;
      left := left - 1;
    }
  }

  method CountLengths(count: array<nat>, length: array<Length>, n: nat)
    requires count.Length == MAXBITS + 1 && n <= length.Length
    modifies count
    ensures forall l :: 0 <= l <= MAXBITS ==> count[l] == CountOf(length[..n], l)
  {
    var len := 0;
    while len <= MAXBITS
      invariant len <= MAXBITS + 1 && forall l :: 0 <= l < len ==> count[l] == 0
    {
      count[len] := 0;
      len := len + 1;
    }
    var symbol := 0;
    ghost var lengths := length[..n];
    assert lengths[..0] == [];
    while symbol < n
      invariant symbol <= n && length[..n] == lengths
      invariant forall l :: 0 <= l <= MAXBITS ==> count[l] == CountOf(lengths[..symbol], l)
    {
      CountsMore(lengths, symbol);
      count[length[symbol]] := count[length[symbol]] + 1;
      symbol := symbol + 1;
    }
    assert lengths[..n] == lengths;
  }

  /** How much room the counts leave: what is left, or the first negative remainder. */
  method CountLeft(count: array<nat>, ghost lengths: seq<Length>) returns (left: int)
    requires count.Length == MAXBITS + 1 && forall l :: 0 <= l <= MAXBITS ==> count[l] == CountOf(lengths, l)
    ensures left >= 0 ==> left == Left(lengths, MAXBITS)
    ensures left < 0 ==> exists l :: Oversubscribed(lengths, l) && left == Left(lengths, l)
  {
    left := 1;
    var len := 1;
    while len <= MAXBITS
      invariant 1 <= len <= MAXBITS + 1 && left == Left(lengths, len - 1)
      invariant forall j :: 0 <= j < len ==> Left(lengths, j) >= 0
    {
      left := 2 * left;
      left := left - count[len];
      if left < 0 {
        assert Oversubscribed(lengths, len);
        return;
      }
      len := len + 1;
    }
  }

  /** Where the symbols of each length begin. */
  method Offsets(count: array<nat>, offs: array<nat>, ghost lengths: seq<Length>)
    requires count.Length == offs.Length == MAXBITS + 1 && count != offs
    requires forall l :: 0 <= l <= MAXBITS ==> count[l] == CountOf(lengths, l)
    modifies offs
    ensures forall l :: 1 <= l <= MAXBITS ==> offs[l] == Index(lengths, l)
  {
    offs[1] := 0;
    var len := 1;
    while len < MAXBITS
      invariant 1 <= len <= MAXBITS && forall l :: 1 <= l <= len ==> offs[l] == Index(lengths, l)
    {
      offs[len + 1] := offs[len] + count[len];
      len := len + 1;
    }
  }

  /** Put symbol s where the next symbol of length l belongs. */
  method PutSymbol(symbol: array<nat>, offs: array<nat>, l: nat, s: nat)
    requires symbol != offs && l < offs.Length && offs[l] < symbol.Length
    modifies symbol, offs
    ensures symbol[..] == old(symbol[..])[old(offs[l]) := s]
    ensures offs[..] == old(offs[..])[l := old(offs[l]) + 1]
  {
    symbol[offs[l]] := s;
    offs[l] := offs[l] + 1;
  }

  /** Sort the symbols by length, keeping their order within each length. */
  method SortSymbols(count: array<nat>, symbol: array<nat>, length: array<Length>, n: nat)
    requires count.Length == MAXBITS + 1 && n <= length.Length && count != symbol
    requires forall l :: 0 <= l <= MAXBITS ==> count[l] == CountOf(length[..n], l)
    requires Index(length[..n], MAXBITS + 1) <= symbol.Length
    modifies symbol
    ensures Placed(symbol[..], length[..n], n)
  {
    hide OffsetsAt, Placed, Place;
    ghost var lengths := length[..n];
    var offs := new nat[MAXBITS + 1](_ => 0);
    Offsets(count, offs, lengths);
    var s: nat := 0;
    SortStart(symbol[..], offs[..], lengths);
    while s < n
      invariant s <= n && Placed(symbol[..], lengths, s) && OffsetsAt(offs[..], lengths, s)
    {
      assert length[s] == lengths[s];
      SortOne(symbol[..], offs[..], lengths, s);
      var l := length[s];
      if l != 0 { PutSymbol(symbol, offs, l, s); }
      s := s + 1;
    }
  }

  /** The next symbol of each length goes to its offset. */
  ghost predicate OffsetsAt(offs: seq<nat>, lengths: seq<Length>, s: nat)
    requires s <= |lengths|
  {
    |offs| == MAXBITS + 1 && forall l :: 1 <= l <= MAXBITS ==> offs[l] == Index(lengths, l) + CountOf(lengths[..s], l)
  }

  lemma {:induction false} SortStart(symbol: seq<nat>, offs: seq<nat>, lengths: seq<Length>)
    requires |offs| == MAXBITS + 1 && forall l :: 1 <= l <= MAXBITS ==> offs[l] == Index(lengths, l)
    ensures Placed(symbol, lengths, 0) && OffsetsAt(offs, lengths, 0)
  {
    assert lengths[..0] == [];
  }

  lemma {:induction false} SortOne(symbol: seq<nat>, offs: seq<nat>, lengths: seq<Length>, s: nat)
    requires s < |lengths| && Placed(symbol, lengths, s) && OffsetsAt(offs, lengths, s)
    requires Index(lengths, MAXBITS + 1) <= |symbol|
    ensures var l := lengths[s];
            if l == 0 then Placed(symbol, lengths, s + 1) && OffsetsAt(offs, lengths, s + 1)
            else && |offs| == MAXBITS + 1 && offs[l] < |symbol| && Placed(symbol[offs[l] := s], lengths, s + 1)
                 && OffsetsAt(offs[l := offs[l] + 1], lengths, s + 1)
  {
    CountsMore(lengths, s);
    if lengths[s] != 0 {
      PlaceBelow(lengths, s);
      PlaceOne(symbol, lengths, s);
      assert offs[lengths[s]] == Place(lengths, s);
    }
  }

  /** Make the decoding tables for a compact table of code lengths. */
  method Construct(count: array<nat>, symbol: array<nat>, rep: seq<byte>) returns (left: int)
    requires count.Length == MAXBITS + 1 && count != symbol
    requires |rep| > 0 && Sum(rep).bad == 0 && Sum(rep).symbols <= 256
    requires Index(Lengths(rep), MAXBITS + 1) <= symbol.Length
    modifies count, symbol
    ensures forall l :: 0 <= l <= MAXBITS ==> count[l] == CountOf(Lengths(rep), l)
    ensures count[0] == |Lengths(rep)| ==> left == 0
    ensures count[0] != |Lengths(rep)| && left < 0 ==>
              exists l :: Oversubscribed(Lengths(rep), l) && left == Left(Lengths(rep), l)
    ensures count[0] != |Lengths(rep)| && left >= 0 ==>
              left == Left(Lengths(rep), MAXBITS) && Sorted(Table(count[..], symbol[..]), Lengths(rep))
  {
    ghost var lengths := Lengths(rep);
    var length := new Length[256](_ => 0);
    var n := ReadLengths(rep, length);
    CountLengths(count, length, n);
    if count[0] == n { return 0; }
    left := CountLeft(count, lengths);
    if left < 0 { return; }
    SortSymbols(count, symbol, length, n);
    PlacedIsSorted(Table(count[..], symbol[..]), lengths);
  }

  lemma {:induction false} PlacedIsSorted(t: Table, lengths: seq<Length>)
    requires |t.count| == MAXBITS + 1 && (forall l :: 0 <= l <= MAXBITS ==> t.count[l] == CountOf(lengths, l))
    requires Placed(t.symbol, lengths, |lengths|)
    ensures Sorted(t, lengths)
  {
    forall s | 0 <= s < |lengths| && lengths[s] > 0 ensures SymbolAt(t, lengths, s) {
      assert PlacedAt(t.symbol, lengths, s);
    }
  }

  /** A code without symbols is reported complete, but decoding with it always fails. */
  lemma {:induction false} EmptyCodeFails(t: Table, l: nat, code: nat, bits: seq<bool>)
    requires |t.count| == MAXBITS + 1 && (forall k :: 0 < k <= MAXBITS ==> t.count[k] == 0) && 0 < l <= MAXBITS + 1
    requires |bits| >= MAXBITS + 1 - l
    ensures LookFrom(t, l, code, 0, 0, bits) == NoCode
    decreases MAXBITS + 1 - l
  {
    if l <= MAXBITS {
      EmptyCodeFails(t, l + 1, 2 * (if bits[0] then code else code + 1), bits[1..]);
    }
  }
}
