/**
 The adaptive tree is a Huffman tree: at every moment its code is optimal for
 the counts it holds.  This is the sibling property at work: nodes are sorted
 by frequency and siblings are neighbours, so reading the pairs from the bottom
 up replays greedy merging.
*/
module LzhufOptimal {
  import opened LzhufTree
  import H = Huffman

  /** The code tree hanging below node y. */
  ghost function Below(t: Tree, y: nat): H.Tree
    requires Valid(t) && y < T
    decreases y
  {
    assert SonOk(t.son, t.prnt, y);
    if t.son[y] >= T then H.Leaf(t.son[y] - T)
    else H.Node(Below(t, t.son[y]), Below(t, t.son[y] + 1))
  }

  /** The counts of all symbols. */
  ghost function Counts(t: Tree): (r: seq<nat>)
    requires Valid(t)
    ensures |r| == N_CHAR && forall c :: 0 <= c < N_CHAR ==> r[c] == Count(t, c)
  {
    forall c | 0 <= c < N_CHAR ensures Count(t, c) >= 1 {
      assert ParentOk(t.son, t.prnt, c + T);
      assert InOrder(t.freq, 0, t.prnt[c + T]);
    }
    seq(N_CHAR, c requires 0 <= c < N_CHAR => Count(t, c))
  }

  ghost predicate Weighs(t: Tree, w: int -> nat) {
    Valid(t) && forall c :: 0 <= c < N_CHAR ==> w(c) == Count(t, c)
  }

  lemma {:induction false} BelowWeight(t: Tree, w: int -> nat, y: nat)
    requires Weighs(t, w) && y < T
    ensures H.Weight(Below(t, y), w) == t.freq[y]
    decreases y
  {
    assert SonOk(t.son, t.prnt, y) && SumOk(t.freq, t.son, -1, y);
    if t.son[y] < T {
      BelowWeight(t, w, t.son[y]);
      BelowWeight(t, w, t.son[y] + 1);
    } else {
      assert w(t.son[y] - T) == Count(t, t.son[y] - T);
    }
  }

  // ------------------------------------------------- replaying greedy merging

  /** The trees of the unpaired nodes from some node on: root weights, leaf weights, inner cost. */
  datatype Ledger = Ledger(roots: multiset<nat>, leaves: multiset<nat>, inner: nat)

  function Plus(a: Ledger, b: Ledger): Ledger {
    Ledger(a.roots + b.roots, a.leaves + b.leaves, a.inner + b.inner)
  }

  ghost function Entry(t: Tree, w: int -> nat, y: nat): Ledger
    requires Valid(t) && y < T
  {
    Ledger(multiset{H.Weight(Below(t, y), w)}, H.LeafWeights(Below(t, y), w), H.Inner(Below(t, y), w))
  }

  ghost function EntryOf(t: Tree, w: int -> nat): nat -> Ledger
    requires Valid(t)
  {
    (y: nat) => if y < T then Entry(t, w, y) else Nothing()
  }

  function Nothing(): Ledger { Ledger(multiset{}, multiset{}, 0) }

  ghost function Entries(t: Tree, w: int -> nat, m: nat, y: nat): Ledger
    requires Valid(t) && y <= T
  {
    Gather(t, m, y, EntryOf(t, w), Plus, Nothing())
  }

  lemma {:induction false} PlusExchanges()
    ensures Exchangeable(Plus)
  {
  }

  /** Every unpaired node from m on weighs at least as much as node m. */
  lemma {:induction false} RootsAbove(t: Tree, w: int -> nat, m: nat, y: nat, x: nat)
    requires Weighs(t, w) && y <= T && x in Entries(t, w, m, y).roots
    ensures y < T && t.freq[y] <= x
    decreases T - y
  {
    if y < T {
      BelowWeight(t, w, y);
      assert InOrder(t.freq, y, y + 1);
      if x in Entries(t, w, m, y + 1).roots {
        RootsAbove(t, w, m, y + 1, x);
      }
    }
  }

  lemma {:induction false} MergeEntries(e: Ledger, e': Ledger, ea: Ledger, eb: Ledger, ep: Ledger, rest: Ledger, a: nat, b: nat)
    requires e == Plus(ea, Plus(eb, rest)) && e' == Plus(ep, rest)
    requires ea.roots == multiset{a} && eb.roots == multiset{b} && ep.roots == multiset{a + b}
    requires ep.leaves == ea.leaves + eb.leaves && ep.inner == a + b + ea.inner + eb.inner
    requires a <= b && forall x :: x in rest.roots ==> b <= x
    ensures |e.roots| >= 2 && H.Lightest(e.roots, a, b) && e'.roots == H.Merge(e.roots, a, b)
    ensures e'.leaves == e.leaves && e'.inner == e.inner + a + b
  {
  }

  lemma {:induction false} LowestEntries(t: Tree, w: int -> nat, m: nat) returns (p: nat, rest: Ledger)
    requires Valid(t) && m % 2 == 0 && m < R
    ensures m + 1 < p < T && t.son[p] == m
    ensures rest == Entries(t, w, m, m + 2)
    ensures Entries(t, w, m, m) == Plus(Entry(t, w, m), Plus(Entry(t, w, m + 1), rest))
    ensures Entries(t, w, m + 2, m + 2) == Plus(Entry(t, w, p), rest)
  {
    PlusExchanges();
    p, rest := LowestPair(t, m, EntryOf(t, w), Plus, Nothing());
  }

  lemma {:induction false} PairWeights(t: Tree, w: int -> nat, m: nat, p: nat, rest: Ledger) returns (a: nat, b: nat)
    requires Weighs(t, w) && m + 1 < p < T && t.son[p] == m && rest == Entries(t, w, m, m + 2)
    ensures a <= b && forall x :: x in rest.roots ==> b <= x
    ensures var (ea, eb, ep) := (Entry(t, w, m), Entry(t, w, m + 1), Entry(t, w, p));
            && ea.roots == multiset{a} && eb.roots == multiset{b} && ep.roots == multiset{a + b}
            && ep.leaves == ea.leaves + eb.leaves && ep.inner == a + b + ea.inner + eb.inner
  {
    hide Plus, EntryOf, Nothing, Entries, Shape, Count, Gather;
    BelowWeight(t, w, m);
    BelowWeight(t, w, m + 1);
    a, b := t.freq[m], t.freq[m + 1];
    assert InOrder(t.freq, m, m + 1) && InOrder(t.freq, m + 1, m + 2);
    forall x | x in rest.roots ensures b <= x {
      RootsAbove(t, w, m, m + 2, x);
    }
  }

  /** The bookkeeping of merging nodes m and m+1 into their parent. */
  lemma {:induction false} MergeLowest(t: Tree, w: int -> nat, m: nat, e: Ledger, e': Ledger) returns (a: nat, b: nat)
    requires Weighs(t, w) && m % 2 == 0 && m < R
    requires e == Entries(t, w, m, m) && e' == Entries(t, w, m + 2, m + 2)
    ensures |e.roots| >= 2 && H.Lightest(e.roots, a, b) && e'.roots == H.Merge(e.roots, a, b)
    ensures e'.leaves == e.leaves && e'.inner == e.inner + a + b
  {
    var p, rest := LowestEntries(t, w, m);
    a, b := PairWeights(t, w, m, p, rest);
    MergeEntries(e, e', Entry(t, w, m), Entry(t, w, m + 1), Entry(t, w, p), rest, a, b);
  }

  lemma {:induction false} RootEntry(t: Tree, w: int -> nat)
    requires Valid(t)
    ensures Entries(t, w, R, R) == Entry(t, w, R)
  {
    RootLeft(t, EntryOf(t, w), Plus, Nothing());
    assert Entries(t, w, R, R) == Plus(Entry(t, w, R), Nothing());
  }

  /** What has been merged so far plus what greedy merging will still cost never changes. */
  lemma {:induction false} Replay(t: Tree, w: int -> nat, m: nat, e: Ledger)
    requires Weighs(t, w) && m % 2 == 0 && m <= R && e == Entries(t, w, m, m)
    ensures e.inner + H.Greedy(e.roots) == H.Inner(Below(t, R), w)
    ensures e.leaves == H.LeafWeights(Below(t, R), w)
    decreases R - m
  {
    if m == R {
      RootEntry(t, w);
    } else {
      var e' := Entries(t, w, m + 2, m + 2);
      Replay(t, w, m + 2, e');
      var a, b := MergeLowest(t, w, m, e, e');
      H.GreedyStep(e.roots, a, b);
    }
  }

  /** At the bottom every leaf is its own tree. */
  lemma {:induction false} LeavesOnly(t: Tree, w: int -> nat, y: nat)
    requires Weighs(t, w) && y <= T
    ensures var e := Entries(t, w, 0, y); e.roots == e.leaves && e.inner == 0
    decreases T - y
  {
    if y < T {
      assert SonOk(t.son, t.prnt, y);
      LeavesOnly(t, w, y + 1);
    }
  }

  // --------------------------------------------------- every symbol has one leaf

  /** Going up from node x leads to node y. */
  ghost predicate Climbs(t: Tree, x: nat, y: nat)
    requires Valid(t) && x < T && y < T
    decreases T - x
  {
    assert ParentOk(t.son, t.prnt, x);
    x == y || (x < R && Climbs(t, t.prnt[x], y))
  }

  lemma {:induction false} ClimbsUp(t: Tree, x: nat, y: nat)
    requires Valid(t) && x < T && y < T && Climbs(t, x, y)
    ensures x <= y
    decreases T - x
  {
    assert ParentOk(t.son, t.prnt, x);
    if x != y { ClimbsUp(t, t.prnt[x], y); }
  }

  lemma {:induction false} ClimbsToRoot(t: Tree, x: nat)
    requires Valid(t) && x < T
    ensures Climbs(t, x, R)
    decreases T - x
  {
    assert ParentOk(t.son, t.prnt, x);
    if x < R { ClimbsToRoot(t, t.prnt[x]); }
  }

  /** Above x, node y is reached by way of exactly one of its sons. */
  lemma {:induction false} ClimbsThrough(t: Tree, x: nat, y: nat)
    requires Valid(t) && x < T && y < T && x != y && 0 <= t.son[y] < R
    ensures SonOk(t.son, t.prnt, y)
    ensures Climbs(t, x, y) <==> Climbs(t, x, t.son[y]) || Climbs(t, x, t.son[y] + 1)
    ensures !(Climbs(t, x, t.son[y]) && Climbs(t, x, t.son[y] + 1))
    decreases T - x
  {
    assert SonOk(t.son, t.prnt, y) && ParentOk(t.son, t.prnt, x);
    var a := t.son[y];
    if x == a || x == a + 1 {
      assert t.prnt[x] == y && Climbs(t, y, y);
      if Climbs(t, y, a) { ClimbsUp(t, y, a); }
      if Climbs(t, y, a + 1) { ClimbsUp(t, y, a + 1); }
    } else if x < R {
      if t.prnt[x] != y { ClimbsThrough(t, t.prnt[x], y); }
    }
  }

  /** Symbol c is below node y once if going up from its leaf leads to y, and else not at all. */
  lemma {:induction false} OccBelow(t: Tree, y: nat, c: nat)
    requires Valid(t) && y < T && c < N_CHAR
    ensures 0 <= t.prnt[c + T] < T
    ensures H.Occ(Below(t, y), c) == if Climbs(t, t.prnt[c + T], y) then 1 else 0
    decreases y
  {
    assert ParentOk(t.son, t.prnt, c + T) && SonOk(t.son, t.prnt, y);
    var x := t.prnt[c + T];
    if t.son[y] >= T {
      LeafReached(t, x, y);
    } else {
      ClimbsThrough(t, x, y);
      OccBelow(t, t.son[y], c);
      OccBelow(t, t.son[y] + 1, c);
    }
  }

  /** Nothing but a leaf itself leads to it. */
  lemma {:induction false} LeafReached(t: Tree, x: nat, y: nat)
    requires Valid(t) && x < T && y < T && t.son[y] >= T
    ensures Climbs(t, x, y) <==> x == y
    decreases T - x
  {
    assert ParentOk(t.son, t.prnt, x);
    if x < R && x != y { LeafReached(t, t.prnt[x], y); }
  }

  lemma {:induction false} SymbolsBelow(t: Tree, y: nat)
    requires Valid(t) && y < T
    ensures H.SymbolsIn(Below(t, y), N_CHAR)
    decreases y
  {
    assert SonOk(t.son, t.prnt, y);
    if t.son[y] < T {
      SymbolsBelow(t, t.son[y]);
      SymbolsBelow(t, t.son[y] + 1);
    }
  }

  /** Every symbol has exactly one leaf, and the leaves weigh what the symbols count. */
  lemma {:induction false} LeavesAreSymbols(t: Tree)
    requires Valid(t)
    ensures forall c :: 0 <= c < N_CHAR ==> H.Occ(Below(t, R), c) == 1
    ensures H.LeafWeights(Below(t, R), H.WeightOf(Counts(t))) == multiset(Counts(t))
  {
    forall c | 0 <= c < N_CHAR ensures H.Occ(Below(t, R), c) == 1 {
      OccBelow(t, R, c);
      ClimbsToRoot(t, t.prnt[c + T]);
    }
    SymbolsBelow(t, R);
    H.OnceEach(Below(t, R), H.WeightOf(Counts(t)), Counts(t));
  }

  /**
   The code of a valid adaptive tree is optimal for the counts of all symbols,
   among all codes whose lengths satisfy Kraft's inequality.
  */
  lemma {:induction false} AdaptiveTreeOptimal(t: Tree, p: seq<H.Item>, m: nat)
    requires Valid(t) && H.Kraft(p, m) && H.Weights(p) == multiset(Counts(t))
    ensures H.PathLength(Below(t, R), H.WeightOf(Counts(t))) <= H.Cost(p)
  {
    hide Below, Counts, H.PathLength, H.Kraft, H.Weights, H.Cost, Valid;
    var w := H.WeightOf(Counts(t));
    WeightsAreCounts(t);
    LeavesAreSymbols(t);
    Replay(t, w, 0, Entries(t, w, 0, 0));
    LeavesOnly(t, w, 0);
    H.GreedyIsOptimal(Below(t, R), w, p, m);
  }

  lemma {:induction false} NoPrefixCodeShorter(t: Tree, words: seq<seq<bool>>)
    requires Valid(t) && |words| == N_CHAR && H.PrefixFree(words)
    ensures H.PathLength(Below(t, R), H.WeightOf(Counts(t))) <= H.Cost(H.Items(words, Counts(t)))
  {
    hide Below, Counts, H.PathLength, H.Kraft, H.Weights, H.Cost, Valid, H.PrefixFree, H.Items;
    H.PrefixCodeIsKraft(words, Counts(t));
    AdaptiveTreeOptimal(t, H.Items(words, Counts(t)), H.LongestWord(words));
  }

  lemma {:induction false} WeightsAreCounts(t: Tree)
    requires Valid(t)
    ensures Weighs(t, H.WeightOf(Counts(t)))
  {
  }
}
