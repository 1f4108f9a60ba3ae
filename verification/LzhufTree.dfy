/**
 The adaptive Huffman tree of the TeleDisk "advanced" decoder, on values.

 Nodes are numbered 0..R in order of frequency.  son[i] is the lower node of
 the pair below i (the pair is son[i], son[i]+1), or T+c for the leaf of symbol
 c; prnt is the inverse.  freq carries a 0xffff sentinel at T.
*/
module LzhufTree {

  const N_CHAR := 314
  const T := 2 * N_CHAR - 1
  const R := T - 1
  const MAX_FREQ := 0x8000
  const SENTINEL := 0xffff

  datatype Tree = Tree(freq: seq<int>, son: seq<int>, prnt: seq<int>)

  // ---------------------------------------------------------------- invariant

  ghost predicate Shape(t: Tree) {
    |t.freq| == T + 1 && |t.son| == T && |t.prnt| == T + N_CHAR
  }

  ghost predicate SonOk(son: seq<int>, prnt: seq<int>, i: nat)
    requires i < |son| && |prnt| == T + N_CHAR
  {
    if son[i] >= T then
      son[i] < T + N_CHAR && prnt[son[i]] == i
    else
      0 <= son[i] && son[i] % 2 == 0 && son[i] + 1 < i && prnt[son[i]] == i && prnt[son[i] + 1] == i
  }

  ghost predicate ParentOk(son: seq<int>, prnt: seq<int>, x: nat)
    requires |son| == T && x < |prnt|
  {
    if x < R then x < prnt[x] < T && son[prnt[x]] == x - x % 2
    else if x == R then prnt[x] == 0
    else 0 <= prnt[x] < T && son[prnt[x]] == x
  }

  /** son and prnt are inverse; pairs start at even nodes and lie strictly below their parent. */
  ghost predicate Linked(son: seq<int>, prnt: seq<int>) {
    && |son| == T && |prnt| == T + N_CHAR
    && (forall i :: 0 <= i < T ==> SonOk(son, prnt, i))
    && (forall x :: 0 <= x < T + N_CHAR ==> ParentOk(son, prnt, x))
  }

  ghost predicate InOrder(f: seq<int>, i: int, j: int) {
    0 <= i <= j < |f| ==> f[i] <= f[j]
  }

  ghost predicate Sorted(freq: seq<int>) {
    && |freq| == T + 1
    && 1 <= freq[0]
    && freq[T] == SENTINEL
    && (forall i, j :: InOrder(freq, i, j))
  }

  ghost predicate SumOk(freq: seq<int>, son: seq<int>, c: int, i: nat)
    requires |freq| == T + 1 && |son| == T && i < T
  {
    0 <= son[i] < R ==> freq[i] + (if i == c then 1 else 0) == freq[son[i]] + freq[son[i] + 1]
  }

  /** Every internal node carries the sum of its pair; node c (if any) still lags by one. */
  ghost predicate Sums(freq: seq<int>, son: seq<int>, c: int) {
    && |freq| == T + 1 && |son| == T
    && forall i :: 0 <= i < T ==> SumOk(freq, son, c, i)
  }

  ghost predicate Valid(t: Tree) {
    Shape(t) && Linked(t.son, t.prnt) && Sorted(t.freq) && Sums(t.freq, t.son, -1) && t.freq[R] <= MAX_FREQ
  }

  /** Valid, except that the count of node c has still to be raised by one. */
  ghost predicate Lagging(t: Tree, c: int) {
    Shape(t) && Linked(t.son, t.prnt) && Sorted(t.freq) && 0 <= c < T && Sums(t.freq, t.son, c) && t.freq[R] < MAX_FREQ
  }

  // --------------------------------------------------------------- one bump

  /** First index from l on whose frequency is at least k. */
  function FirstNotBelow(freq: seq<int>, k: int, l: nat): (r: nat)
    requires l < |freq| && k <= freq[|freq| - 1]
    ensures l <= r < |freq| && k <= freq[r]
    ensures forall x :: l <= x < r ==> freq[x] < k
    decreases |freq| - l
  {
    if k > freq[l] then FirstNotBelow(freq, k, l + 1) else l
  }

  function Reparent(prnt: seq<int>, s: int, p: int): (r: seq<int>)
    requires 0 <= s < |prnt| && (s < T ==> s + 1 < |prnt|)
    ensures |r| == |prnt|
    ensures forall x :: 0 <= x < |r| ==> r[x] == if x == s || (s < T && x == s + 1) then p else prnt[x]
  {
    if s < T then prnt[s := p][s + 1 := p] else prnt[s := p]
  }

  /** Where node c belongs once its count is raised: the last node of c's old frequency class. */
  function Place(t: Tree, c: nat): (l: nat)
    requires Lagging(t, c)
    ensures c <= l < T
    ensures forall x :: c <= x <= l ==> t.freq[x] == t.freq[c]
    ensures t.freq[c] + 1 <= t.freq[l + 1]
  {
    assert InOrder(t.freq, c, R) && InOrder(t.freq, c, c + 1);
    if t.freq[c] + 1 > t.freq[c + 1] then
      var l := FirstNotBelow(t.freq, t.freq[c] + 1, c + 2) - 1;
      assert forall x :: c <= x <= l ==> t.freq[x] == t.freq[c] by {
        forall x | c <= x <= l ensures t.freq[x] == t.freq[c] { assert InOrder(t.freq, c, x); }
      }
      l
    else c
  }

  /** Count node c once more and exchange it (with its subtree) with the last of its equals, node l. */
  function Swap(t: Tree, c: nat, l: nat): (r: Tree)
    requires Shape(t) && Linked(t.son, t.prnt) && c <= l < T
    ensures Shape(r)
  {
    var k := t.freq[c] + 1;
    if c == l then t.(freq := t.freq[c := k]) else
    assert SonOk(t.son, t.prnt, c) && SonOk(t.son, t.prnt, l);
    var i, j := t.son[c], t.son[l];
    Tree(t.freq[c := t.freq[l]][l := k],
         t.son[l := i][c := j],
         Reparent(Reparent(t.prnt, i, l), j, c))
  }

  lemma {:induction false} AncestorsAbovePlace(t: Tree, c: nat)
    requires Lagging(t, c) && c < R
    ensures Place(t, c) < t.prnt[c] < T
  {
    var p := t.prnt[c];
    assert ParentOk(t.son, t.prnt, c);
    assert SonOk(t.son, t.prnt, p) && t.son[p] == c - c % 2;
    assert SumOk(t.freq, t.son, c, p);
    assert InOrder(t.freq, 0, t.son[p]) && InOrder(t.freq, 0, t.son[p] + 1);
  }

  ghost predicate Apart(son: seq<int>, c: nat, l: nat)
    requires c < |son| && l < |son|
  {
    var i, j := son[c], son[l];
    && c < R && l < R && i != j
    && (i < T ==> 0 <= i && i + 1 < c && i % 2 == 0)
    && (j < T ==> 0 <= j && j + 1 < c && j % 2 == 0)
  }

  /** The exchanged subtrees do not overlap: both lie below the lower of the two nodes. */
  lemma {:induction false} SwapApart(t: Tree, c: nat)
    requires Lagging(t, c) && c < Place(t, c)
    ensures Apart(t.son, c, Place(t, c))
  {
    var l := Place(t, c);
    var j := t.son[l];
    AncestorsAbovePlace(t, c);
    assert SonOk(t.son, t.prnt, c) && SonOk(t.son, t.prnt, l);
    assert l < R by { assert l < t.prnt[c]; }
    if j < T {
      assert SumOk(t.freq, t.son, c, l);
      assert InOrder(t.freq, 0, j) && InOrder(t.freq, 0, j + 1) && InOrder(t.freq, c, j + 1);
      assert j + 1 < c;
    }
  }

  lemma {:induction false} SwapLinked(t: Tree, c: nat)
    requires Lagging(t, c)
    ensures var r := Swap(t, c, Place(t, c)); Linked(r.son, r.prnt)
  {
    hide Shape, Sorted, Sums, FirstNotBelow, Reparent, Place, Apart;
    var l := Place(t, c);
    var r := Swap(t, c, l);
    if c < l {
      SwapApart(t, c);
      assert SonOk(t.son, t.prnt, c) && SonOk(t.son, t.prnt, l);
      AncestorsAbovePlace(t, c);
      forall x | 0 <= x < T ensures SonOk(r.son, r.prnt, x) {
        assert SonOk(t.son, t.prnt, x);
      }
      forall x | 0 <= x < T + N_CHAR ensures ParentOk(r.son, r.prnt, x) {
        assert ParentOk(t.son, t.prnt, x);
      }
    }
  }

  lemma {:induction false} SwapSorted(t: Tree, c: nat)
    requires Lagging(t, c)
    ensures Sorted(Swap(t, c, Place(t, c)).freq)
  {
    var l := Place(t, c);
    var f := Swap(t, c, l).freq;
    assert InOrder(t.freq, 0, c) && InOrder(t.freq, c, R);
    forall i, j ensures InOrder(f, i, j) {
      assert InOrder(t.freq, i, j) && InOrder(t.freq, l + 1, j) && InOrder(t.freq, i, c);
    }
  }

  lemma {:induction false} SwapSumAt(t: Tree, c: nat, l: nat, x: nat)
    requires Shape(t) && Linked(t.son, t.prnt) && Sums(t.freq, t.son, c)
    requires c <= l < T && x < T && t.freq[c] == t.freq[l]
    requires c < l ==> Apart(t.son, c, l)
    requires var r := Swap(t, c, l); Linked(r.son, r.prnt)
    ensures var r := Swap(t, c, l); SumOk(r.freq, r.son, if l == R then -1 else r.prnt[l], x)
  {
    hide Shape, Reparent, Apart;
    var r := Swap(t, c, l);
    assert SumOk(t.freq, t.son, c, x) && SonOk(r.son, r.prnt, x);
    assert ParentOk(r.son, r.prnt, l);
    if x == c || x == l {
      assert SumOk(t.freq, t.son, c, c) && SumOk(t.freq, t.son, c, l);
      assert SonOk(t.son, t.prnt, c);
    } else if 0 <= r.son[x] < R {
      assert SonOk(t.son, t.prnt, x);
    }
  }

  lemma {:induction false} SwapSums(t: Tree, c: nat)
    requires Lagging(t, c)
    ensures var l := Place(t, c); var r := Swap(t, c, l);
            Linked(r.son, r.prnt) && Sums(r.freq, r.son, if l == R then -1 else r.prnt[l])
  {
    var l := Place(t, c);
    var r := Swap(t, c, l);
    SwapLinked(t, c);
    if c < l { SwapApart(t, c); }
    var d := if l == R then -1 else r.prnt[l];
    forall x | 0 <= x < T ensures SumOk(r.freq, r.son, d, x) {
      SwapSumAt(t, c, l, x);
    }
  }

  // ------------------------------------------------------------ update proper

  /** How often symbol c has been counted. */
  function Count(t: Tree, c: nat): int
    requires Shape(t) && Linked(t.son, t.prnt) && c < N_CHAR
  {
    assert ParentOk(t.son, t.prnt, c + T);
    t.freq[t.prnt[c + T]]
  }

  lemma {:induction false} SwapCounts(t: Tree, c: nat, s: nat)
    requires Lagging(t, c) && s < N_CHAR
    ensures var r := Swap(t, c, Place(t, c));
            Linked(r.son, r.prnt) && Count(r, s) == Count(t, s) + if t.son[c] == s + T then 1 else 0
  {
    SwapLinked(t, c);
    assert ParentOk(t.son, t.prnt, s + T);
    assert SonOk(t.son, t.prnt, c) && SonOk(t.son, t.prnt, Place(t, c));
  }

  /** Raise the counts from node c up to the root. */
  function Climb(t: Tree, c: nat): (r: Tree)
    requires Lagging(t, c)
    ensures Valid(r) && r.freq[R] == t.freq[R] + 1
    ensures forall s :: 0 <= s < N_CHAR ==> Count(r, s) == Count(t, s) + if t.son[c] == s + T then 1 else 0
    decreases T - c
  {
    var l := Place(t, c);
    var u := Swap(t, c, l);
    ClimbStep(t, c);
    if u.prnt[l] == 0 then u else Climb(u, u.prnt[l])
  }

  lemma {:induction false} ClimbStep(t: Tree, c: nat)
    requires Lagging(t, c)
    ensures var l := Place(t, c); var u := Swap(t, c, l);
            && Shape(u) && Linked(u.son, u.prnt)
            && (forall s :: 0 <= s < N_CHAR ==> Count(u, s) == Count(t, s) + if t.son[c] == s + T then 1 else 0)
            && if l == R then u.prnt[l] == 0 && Valid(u) && u.freq[R] == t.freq[R] + 1
               else l < u.prnt[l] && Lagging(u, u.prnt[l]) && u.freq[R] == t.freq[R] && 0 <= u.son[u.prnt[l]] < T
  {
    var l := Place(t, c);
    var u := Swap(t, c, l);
    SwapSums(t, c);
    SwapSorted(t, c);
    assert ParentOk(u.son, u.prnt, l);
    forall s | 0 <= s < N_CHAR
      ensures Count(u, s) == Count(t, s) + if t.son[c] == s + T then 1 else 0
    {
      SwapCounts(t, c, s);
    }
    if c < l { SwapApart(t, c); }
  }

  // ------------------------------------- reading the pairs from the bottom up

  predicate Unpaired(t: Tree, m: nat, y: nat)
    requires Shape(t) && y < T
  {
    t.son[y] >= T || t.son[y] < m
  }

  /** Adds up f over the nodes from y on whose own pair (if any) lies below m. */
  ghost function Gather<L>(t: Tree, m: nat, y: nat, f: nat -> L, plus: (L, L) -> L, zero: L): L
    requires Shape(t) && y <= T
    decreases T - y
  {
    if y == T then zero
    else if Unpaired(t, m, y) then plus(f(y), Gather(t, m, y + 1, f, plus, zero))
    else Gather(t, m, y + 1, f, plus, zero)
  }

  ghost predicate Exchangeable<L(!new)>(plus: (L, L) -> L) {
    forall a, b, c {:trigger plus(a, plus(b, c))} :: plus(a, plus(b, c)) == plus(b, plus(a, c))
  }

  /** Pairing node m with m+1 brings in exactly their parent. */
  lemma {:induction false} ParentEnters<L(!new)>(t: Tree, m: nat, y: nat, f: nat -> L, plus: (L, L) -> L, zero: L)
    requires Shape(t) && Linked(t.son, t.prnt) && Exchangeable(plus)
    requires m % 2 == 0 && m + 1 < y <= T && m < R
    ensures ParentOk(t.son, t.prnt, m)
    ensures var g := Gather(t, m, y, f, plus, zero);
            Gather(t, m + 2, y, f, plus, zero) == if y <= t.prnt[m] then plus(f(t.prnt[m]), g) else g
    decreases T - y
  {
    assert ParentOk(t.son, t.prnt, m);
    if y < T {
      ParentEnters(t, m, y + 1, f, plus, zero);
      assert SonOk(t.son, t.prnt, y);
      assert ParentOk(t.son, t.prnt, t.son[y]);
    }
  }

  /** The lowest two unpaired nodes, and what remains when their parent takes their place. */
  lemma {:induction false} LowestPair<L(!new)>(t: Tree, m: nat, f: nat -> L, plus: (L, L) -> L, zero: L) returns (p: nat, rest: L)
    requires Shape(t) && Linked(t.son, t.prnt) && Exchangeable(plus) && m % 2 == 0 && m < R
    ensures m + 1 < p < T && t.son[p] == m
    ensures rest == Gather(t, m, m + 2, f, plus, zero)
    ensures Gather(t, m, m, f, plus, zero) == plus(f(m), plus(f(m + 1), rest))
    ensures Gather(t, m + 2, m + 2, f, plus, zero) == plus(f(p), rest)
  {
    assert ParentOk(t.son, t.prnt, m) && ParentOk(t.son, t.prnt, m + 1);
    p := t.prnt[m];
    assert SonOk(t.son, t.prnt, p) && SonOk(t.son, t.prnt, m) && SonOk(t.son, t.prnt, m + 1);
    ParentEnters(t, m, m + 2, f, plus, zero);
    rest := Gather(t, m, m + 2, f, plus, zero);
    assert Gather(t, m, m + 1, f, plus, zero) == plus(f(m + 1), rest);
  }

  /** At the top only the root is left. */
  lemma {:induction false} RootLeft<L(!new)>(t: Tree, f: nat -> L, plus: (L, L) -> L, zero: L)
    requires Shape(t) && Linked(t.son, t.prnt)
    ensures Gather(t, R, R, f, plus, zero) == plus(f(R), zero)
  {
    assert SonOk(t.son, t.prnt, R);
    assert Gather(t, R, R, f, plus, zero) == plus(f(R), Gather(t, R, T, f, plus, zero));
  }
}
