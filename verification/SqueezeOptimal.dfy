/**
 Squeeze's dictionary is an optimal prefix code for the counts it was built
 from: no code whose lengths satisfy Kraft's inequality, and so no prefix
 code, makes the bit stream of a file shorter.
*/
module SqueezeOptimal {
  import opened SqueezeTree
  import opened SqueezeCode
  import opened SqueezeRle
  import opened Wrappers
  import opened Bits
  import H = Huffman

  // ----------------------------------------------- the counts as a multiset

  /** The positive counts. */
  ghost function Live(count: seq<nat>): multiset<nat> { multiset(count)[0 := 0] }

  lemma {:induction false} LiveDrop(count: seq<nat>, i: nat)
    requires i < |count| && count[i] > 0
    ensures count[i] in Live(count) && Live(count[i := 0]) == Live(count) - multiset{count[i]}
  {
    assert count[i] in multiset(count);
  }

  lemma {:induction false} LiveAdd(count: seq<nat>, i: nat, x: nat)
    requires i < |count| && count[i] == 0 && x > 0
    ensures Live(count[i := x]) == Live(count) + multiset{x}
  {
  }

  lemma {:induction false} LiveSome(count: seq<nat>, x: nat) returns (i: nat)
    requires x in Live(count)
    ensures i < |count| && count[i] == x > 0
  {
    assert x in multiset(count);
    i :| 0 <= i < |count| && count[i] == x;
  }

  lemma {:induction false} ZeroCounts(count: seq<nat>)
    ensures multiset(count)[0] + Alive(count) == |count|
  {
    if count != [] {
      var n := |count| - 1;
      ZeroCounts(count[..n]);
      assert count == count[..n] + [count[n]];
    }
  }

  lemma {:induction false} LiveSize(count: seq<nat>)
    ensures |Live(count)| == Alive(count)
  {
    ZeroCounts(count);
    assert |multiset(count)| == |count|;
  }

  lemma {:induction false} LiveDropTwo(c: seq<nat>, n1: nat, n2: nat)
    requires n1 < |c| && n2 < |c| && n1 != n2 && c[n1] > 0 && c[n2] > 0
    ensures Live(c[n1 := 0][n2 := 0]) == Live(c) - multiset{c[n1]} - multiset{c[n2]}
  {
    var c1 := c[n1 := 0];
    assert c1[n2] == c[n2];
    LiveDrop(c, n1);
    LiveDrop(c1, n2);
  }

  lemma {:induction false} LiveMerge(c: seq<nat>, k: nat, n1: nat, n2: nat, c': seq<nat>)
    requires k < |c| && n1 < |c| && n2 < |c| && n1 != n2 && c[k] == 0 && c[n1] > 0 && c[n2] > 0
    requires c' == c[k := c[n1] + c[n2]][n1 := 0][n2 := 0]
    ensures Live(c') == H.Merge(Live(c), c[n1], c[n2])
  {
    var c2 := c[n1 := 0][n2 := 0];
    assert c' == c2[k := c[n1] + c[n2]];
    LiveDropTwo(c, n1, n2);
    LiveAdd(c2, k, c[n1] + c[n2]);
  }

  lemma {:induction false} LightestLive(count: seq<nat>) returns (n1: nat, n2: nat)
    requires Alive(count) > 1
    ensures n1 == Smallest(count, -1, |count|) && n2 == Smallest(count, n1, |count|)
    ensures n1 != n2 && n1 < |count| && n2 < |count| && count[n1] > 0 && count[n2] > 0
    ensures H.Lightest(Live(count), count[n1], count[n2])
  {
    n1, n2 := TwoSmallest(count);
    LiveDrop(count, n1);
    LiveDrop(count[n1 := 0], n2);
    SmallestIs(count, -1, |count|);
    forall x | x in Live(count) ensures count[n1] <= x {
      var i := LiveSome(count, x);
    }
    var rest := count[n1 := 0];
    forall x | x in Live(rest) ensures count[n2] <= x {
      var i := LiveSome(rest, x);
    }
  }

  /** One merge pays what one step of greedy merging pays. */
  lemma {:induction false} GreedyMerge(c: seq<nat>, k: nat, n1: nat, n2: nat, c': seq<nat>)
    requires Alive(c) > 1 && n1 == Smallest(c, -1, |c|) && n2 == Smallest(c, n1, |c|)
    requires k < |c| && c[k] == 0 && c' == c[k := c[n1] + c[n2]][n1 := 0][n2 := 0]
    ensures H.Greedy(Live(c)) == c[n1] + c[n2] + H.Greedy(Live(c'))
  {
    var m1, m2 := LightestLive(c);
    LiveSize(c);
    H.GreedyStep(Live(c), c[n1], c[n2]);
    LiveMerge(c, k, n1, n2, c');
  }

  // -------------------------------------------------- the trees being merged

  /** Entry e of the dictionary stands for the tree t; all its nodes come after node lo. */
  ghost predicate Denotes(d: Dict, lo: int, e: int, t: H.Tree)
    requires Sized(d) && lo >= -1
    decreases t
  {
    match t
    case Leaf(s) => e == -1 - s && 0 <= s < MAXLEAF
    case Node(l, r) => lo < e < MAXNODE && Denotes(d, lo, d.left[e], l) && Denotes(d, lo, d.right[e], r)
  }

  lemma {:induction false} DenotesKept(d: Dict, lo: int, r: Dict, lo': int, e: int, t: H.Tree)
    requires Sized(d) && Sized(r) && -1 <= lo' <= lo && Denotes(d, lo, e, t)
    requires forall n :: lo < n < MAXNODE ==> r.left[n] == d.left[n] && r.right[n] == d.right[n]
    ensures Denotes(r, lo', e, t)
    decreases t
  {
    match t
    case Leaf(_) =>
    case Node(a, b) =>
      DenotesKept(d, lo, r, lo', d.left[e], a);
      DenotesKept(d, lo, r, lo', d.right[e], b);
  }

  type Forest = seq<Option<H.Tree>>

  /** Adding up some quantity over the trees of a forest. */
  function Tally(ts: Forest, f: H.Tree -> nat): nat {
    if ts == [] then 0 else
    Tally(ts[..|ts| - 1], f) + match ts[|ts| - 1] case None => 0 case Some(t) => f(t)
  }

  function Of(x: Option<H.Tree>, f: H.Tree -> nat): nat {
    match x case None => 0 case Some(t) => f(t)
  }

  lemma {:induction false} TallyUpdate(ts: Forest, i: nat, x: Option<H.Tree>, f: H.Tree -> nat)
    requires i < |ts|
    ensures Tally(ts[i := x], f) == Tally(ts, f) - Of(ts[i], f) + Of(x, f)
  {
    var n := |ts| - 1;
    if i < n {
      assert ts[i := x][..n] == ts[..n][i := x];
      TallyUpdate(ts[..n], i, x, f);
    } else {
      assert ts[i := x][..n] == ts[..n];
    }
  }

  lemma {:induction false} TallyNone(ts: Forest, f: H.Tree -> nat)
    requires forall i :: 0 <= i < |ts| ==> ts[i] == None
    ensures Tally(ts, f) == 0
  {
    if ts != [] { TallyNone(ts[..|ts| - 1], f); }
  }

  ghost predicate TreeAt(d: Dict, ts: Forest, w: int -> nat, i: nat)
    requires Sized(d) && |ts| == SLOTS && i < SLOTS
  {
    match ts[i]
    case None => d.count[i] == 0
    case Some(t) => d.count[i] == H.Weight(t, w) > 0 && Denotes(d, d.cur, CodeOf(i), t)
  }

  /** The trees ts are what has been built for the counts that are left. */
  ghost predicate Forested(d: Dict, ts: Forest, w: int -> nat) {
    && Sized(d) && |ts| == SLOTS
    && forall i {:trigger TreeAt(d, ts, w, i)} :: 0 <= i < SLOTS ==> TreeAt(d, ts, w, i)
  }

  lemma {:induction false} MergeTrees(d: Dict, ts: Forest, w: int -> nat, n1: nat, n2: nat, r: Dict) returns (t: H.Tree, ts': Forest)
    requires Forested(d, ts, w) && Combined(d, n1, n2, r)
    ensures ts[n1].Some? && ts[n2].Some? && t == H.Node(ts[n1].value, ts[n2].value)
    ensures ts' == ts[n1 := None][n2 := None][d.cur := Some(t)] && ts[d.cur] == None
    ensures H.Weight(t, w) == d.count[n1] + d.count[n2]
    ensures Forested(r, ts', w)
  {
    assert TreeAt(d, ts, w, n1) && TreeAt(d, ts, w, n2) && TreeAt(d, ts, w, d.cur);
    t := H.Node(ts[n1].value, ts[n2].value);
    ts' := ts[n1 := None][n2 := None][d.cur := Some(t)];
    forall i | 0 <= i < SLOTS ensures TreeAt(r, ts', w, i) {
      assert TreeAt(d, ts, w, i);
      if i == d.cur {
        DenotesKept(d, d.cur, r, r.cur, CodeOf(n1), ts[n1].value);
        DenotesKept(d, d.cur, r, r.cur, CodeOf(n2), ts[n2].value);
      } else if i != n1 && i != n2 && ts[i].Some? {
        DenotesKept(d, d.cur, r, r.cur, CodeOf(i), ts[i].value);
      }
    }
  }

  lemma {:induction false} TallyMerge(ts: Forest, n1: nat, n2: nat, k: nat, t: H.Tree, f: H.Tree -> nat)
    requires n1 < |ts| && n2 < |ts| && k < |ts| && n1 != n2 && k != n1 && k != n2
    requires ts[n1].Some? && ts[n2].Some? && ts[k] == None
    ensures Tally(ts[n1 := None][n2 := None][k := Some(t)], f) == Tally(ts, f) - f(ts[n1].value) - f(ts[n2].value) + f(t)
  {
    TallyUpdate(ts, n1, None, f);
    TallyUpdate(ts[n1 := None], n2, None, f);
    TallyUpdate(ts[n1 := None][n2 := None], k, Some(t), f);
  }

  /** The quantities followed: the cost of inner nodes, and how often a weight or a symbol is on a leaf. */
  ghost function InnerOf(w: int -> nat): H.Tree -> nat { (t: H.Tree) => H.Inner(t, w) }

  ghost function LeavesOf(w: int -> nat, x: nat): H.Tree -> nat { (t: H.Tree) => H.LeafWeights(t, w)[x] }

  ghost function OccOf(c: int): H.Tree -> nat { (t: H.Tree) => H.Occ(t, c) }

  /** t holds what the forest ts holds; its inner nodes cost g more. */
  ghost predicate Unites(t: H.Tree, ts: Forest, w: int -> nat, g: nat) {
    && H.Inner(t, w) == Tally(ts, InnerOf(w)) + g
    && (forall x: nat :: H.LeafWeights(t, w)[x] == Tally(ts, LeavesOf(w, x)))
    && (forall c: int :: H.Occ(t, c) == Tally(ts, OccOf(c)))
  }

  lemma {:induction false} UnitesBack(t: H.Tree, ts: Forest, w: int -> nat, n1: nat, n2: nat, k: nat, u: H.Tree, g: nat)
    requires n1 < |ts| && n2 < |ts| && k < |ts| && n1 != n2 && k != n1 && k != n2
    requires ts[n1].Some? && ts[n2].Some? && ts[k] == None && u == H.Node(ts[n1].value, ts[n2].value)
    requires Unites(t, ts[n1 := None][n2 := None][k := Some(u)], w, g)
    ensures Unites(t, ts, w, g + H.Weight(u, w))
  {
    TallyMerge(ts, n1, n2, k, u, InnerOf(w));
    forall x: nat ensures H.LeafWeights(t, w)[x] == Tally(ts, LeavesOf(w, x)) {
      TallyMerge(ts, n1, n2, k, u, LeavesOf(w, x));
    }
    forall c: int ensures H.Occ(t, c) == Tally(ts, OccOf(c)) {
      TallyMerge(ts, n1, n2, k, u, OccOf(c));
    }
  }

  lemma {:induction false} LastTree(d: Dict, ts: Forest, w: int -> nat, i: nat) returns (t: H.Tree)
    requires Forested(d, ts, w) && Alive(d.count) == 1 && i < SLOTS && d.count[i] > 0
    ensures Denotes(d, d.cur, CodeOf(i), t) && Unites(t, ts, w, 0)
  {
    assert TreeAt(d, ts, w, i);
    t := ts[i].value;
    var none := ts[i := None];
    forall k | 0 <= k < SLOTS ensures none[k] == None {
      assert TreeAt(d, ts, w, k);
      if k != i { OneAlive(d.count, i, k); }
    }
    forall f: H.Tree -> nat ensures Tally(ts, f) == f(t) {
      TallyUpdate(ts, i, None, f);
      TallyNone(none, f);
    }
  }

  /** What all the merges cost together. */
  ghost function MergeCost(d: Dict, n: nat): nat
    requires Sized(d) && Alive(d.count) == n && d.cur >= n - 1
    requires forall i :: 0 <= i <= d.cur ==> d.count[i] == 0
    decreases n
  {
    if n <= 1 then 0 else
    assert Mergeable(d) && Alive(Combine(d).count) == n - 1 by { var m1, m2 := Twosome(d); }
    var n1 := Smallest(d.count, -1, SLOTS);
    var n2 := Smallest(d.count, n1, SLOTS);
    d.count[n1] + d.count[n2] + MergeCost(Combine(d), n - 1)
  }

  /** c' is c after a merge into slot k. */
  ghost predicate OneMerge(c: seq<nat>, n1: nat, n2: nat, k: nat, c': seq<nat>) {
    && Alive(c) > 1 && n1 == Smallest(c, -1, |c|) && n2 == Smallest(c, n1, |c|)
    && k < |c| && c[k] == 0 && c' == c[k := c[n1] + c[n2]][n1 := 0][n2 := 0]
  }

  ghost predicate PaysPerMerge(g: seq<nat> -> nat) {
    && (forall c :: Alive(c) <= 1 ==> g(c) == 0)
    && (forall c, n1, n2, k, c' {:trigger OneMerge(c, n1, n2, k, c')} :: OneMerge(c, n1, n2, k, c') ==> g(c) == c[n1] + c[n2] + g(c'))
  }

  lemma {:induction false} NoMergePays(d: Dict, n: nat, g: seq<nat> -> nat)
    requires Sized(d) && Alive(d.count) == n <= 1 && d.cur >= n - 1 && PaysPerMerge(g)
    requires forall i :: 0 <= i <= d.cur ==> d.count[i] == 0
    ensures MergeCost(d, n) == g(d.count) == 0
  {
  }

  lemma {:induction false} MergePays(d: Dict, n: nat, g: seq<nat> -> nat) returns (n1: nat, n2: nat)
    requires Sized(d) && Alive(d.count) == n > 1 && d.cur >= n - 1 && PaysPerMerge(g)
    requires forall i :: 0 <= i <= d.cur ==> d.count[i] == 0
    ensures n1 < SLOTS && n2 < SLOTS && Mergeable(d) && Alive(Combine(d).count) == n - 1
    ensures Sized(Combine(d)) && Combine(d).cur == d.cur - 1 && forall i :: 0 <= i <= d.cur - 1 ==> Combine(d).count[i] == 0
    ensures MergeCost(d, n) == d.count[n1] + d.count[n2] + MergeCost(Combine(d), n - 1)
    ensures g(d.count) == d.count[n1] + d.count[n2] + g(Combine(d).count)
  {
    n1, n2 := CombineIs(d);
    assert OneMerge(d.count, n1, n2, d.cur, Combine(d).count);
  }

  lemma {:induction false} MergeCostIs(d: Dict, n: nat, g: seq<nat> -> nat)
    requires Sized(d) && Alive(d.count) == n && d.cur >= n - 1 && PaysPerMerge(g)
    requires forall i :: 0 <= i <= d.cur ==> d.count[i] == 0
    ensures MergeCost(d, n) == g(d.count)
    decreases n
  {
    hide MergeCost, PaysPerMerge, Combine, Smallest, Alive;
    if n > 1 {
      var n1, n2 := MergePays(d, n, g);
      MergeCostIs(Combine(d), n - 1, g);
    } else {
      NoMergePays(d, n, g);
    }
  }

  ghost function GreedyOf(): seq<nat> -> nat { (c: seq<nat>) => H.Greedy(Live(c)) }

  lemma {:induction false} GreedyPays()
    ensures PaysPerMerge(GreedyOf())
  {
    forall c | Alive(c) <= 1 ensures GreedyOf()(c) == 0 { LiveSize(c); }
    forall c, n1, n2, k, c' {:trigger OneMerge(c, n1, n2, k, c')} | OneMerge(c, n1, n2, k, c')
      ensures GreedyOf()(c) == c[n1] + c[n2] + GreedyOf()(c')
    {
      GreedyMerge(c, k, n1, n2, c');
    }
  }

  lemma {:induction false} MergeCostIsGreedy(d: Dict, n: nat)
    requires Sized(d) && Alive(d.count) == n && d.cur >= n - 1
    requires forall i :: 0 <= i <= d.cur ==> d.count[i] == 0
    ensures MergeCost(d, n) == H.Greedy(Live(d.count))
  {
    GreedyPays();
    MergeCostIs(d, n, GreedyOf());
  }

  lemma {:induction false} MergeStep(d: Dict, n: nat, base: seq<nat>, ts: Forest, w: int -> nat)
      returns (n1: nat, n2: nat, u: H.Tree, ts': Forest)
    requires Growing(d, base) && Alive(d.count) == n > 1 && d.cur >= n - 1 && Forested(d, ts, w)
    ensures n1 < SLOTS && n2 < SLOTS && n1 != n2 && d.cur != n1 && d.cur != n2
    ensures ts[n1].Some? && ts[n2].Some? && ts[d.cur] == None && u == H.Node(ts[n1].value, ts[n2].value)
    ensures ts' == ts[n1 := None][n2 := None][d.cur := Some(u)]
    ensures Mergeable(d) && Growing(Combine(d), base) && Alive(Combine(d).count) == n - 1 && Combine(d).count[d.cur] > 0
    ensures Forested(Combine(d), ts', w)
    ensures MergeCost(d, n) == H.Weight(u, w) + MergeCost(Combine(d), n - 1)
  {
    n1, n2 := CombineIs(d);
    MergedGrows(d, base, n1, n2, Combine(d));
    u, ts' := MergeTrees(d, ts, w, n1, n2, Combine(d));
  }

  /** Merging everything makes one tree out of the forest. */
  lemma {:induction false} MergeAllTree(d: Dict, n: nat, base: seq<nat>, ts: Forest, w: int -> nat) returns (t: H.Tree)
    requires Growing(d, base) && Alive(d.count) == n > 0 && d.cur >= n - 1 && Forested(d, ts, w)
    requires n == 1 ==> d.cur + 1 < MAXNODE && d.count[d.cur + 1] > 0
    ensures var r := MergeAll(d, n);
            r.cur + 1 < MAXNODE && Denotes(r, r.cur, r.cur + 1, t) && Unites(t, ts, w, MergeCost(d, n))
    decreases n
  {
    hide Tally, TreeAt, H.Occ, OccOf, InnerOf, Smallest, Alive, Combine, NodeOk, SlotOk;
    if n == 1 {
      t := LastTree(d, ts, w, d.cur + 1);
    } else {
      var n1, n2, u, ts' := MergeStep(d, n, base, ts, w);
      var r := Combine(d);
      assert MergeAll(d, n) == MergeAll(r, n - 1);
      t := MergeAllTree(r, n - 1, base, ts', w);
      UnitesBack(t, ts, w, n1, n2, d.cur, u, MergeCost(r, n - 1));
    }
  }

  // ------------------------------------------------------------ the beginning

  /** A leaf for every symbol that occurs. */
  function Leaves(count: seq<nat>): (ts: Forest)
    ensures |ts| == |count|
    ensures forall i :: 0 <= i < |ts| ==>
              ts[i] == if i >= MAXNODE && count[i] > 0 then Some(H.Leaf(i - MAXNODE)) else None
  {
    if count == [] then [] else
    var n := |count| - 1;
    Leaves(count[..n]) + [if n >= MAXNODE && count[n] > 0 then Some(H.Leaf(n - MAXNODE)) else None]
  }

  /** Only symbols have been counted, and w says how often. */
  ghost predicate Weighs(count: seq<nat>, w: int -> nat) {
    forall i :: 0 <= i < |count| ==> if i < MAXNODE then count[i] == 0 else w(i - MAXNODE) == count[i]
  }

  lemma {:induction false} LiveLast(count: seq<nat>, x: nat)
    requires count != []
    ensures var n := |count| - 1; Live(count)[x] == Live(count[..n])[x] + if count[n] == x > 0 then 1 else 0
  {
    var n := |count| - 1;
    assert count == count[..n] + [count[n]];
  }

  lemma {:induction false} LeavesLast(count: seq<nat>, f: H.Tree -> nat)
    requires count != []
    ensures var n := |count| - 1;
            Tally(Leaves(count), f) == Tally(Leaves(count[..n]), f) + if n >= MAXNODE && count[n] > 0 then f(H.Leaf(n - MAXNODE)) else 0
  {
    assert Leaves(count)[..|count| - 1] == Leaves(count[..|count| - 1]);
  }

  lemma {:induction false} LeavesCost(count: seq<nat>, w: int -> nat)
    ensures Tally(Leaves(count), InnerOf(w)) == 0
  {
    if count != [] {
      LeavesLast(count, InnerOf(w));
      LeavesCost(count[..|count| - 1], w);
    }
  }

  lemma {:induction false} LeafWeighs(c: int, w: int -> nat, x: nat)
    ensures LeavesOf(w, x)(H.Leaf(c)) == if w(c) == x then 1 else 0
  {
  }

  lemma {:induction false} LeavesWeighLast(count: seq<nat>, w: int -> nat, x: nat)
    requires Weighs(count, w) && count != []
    ensures var n := |count| - 1;
            Tally(Leaves(count), LeavesOf(w, x)) == Tally(Leaves(count[..n]), LeavesOf(w, x)) + if count[n] == x > 0 then 1 else 0
  {
    var n := |count| - 1;
    LeavesLast(count, LeavesOf(w, x));
    if n >= MAXNODE { LeafWeighs(n - MAXNODE, w, x); }
  }

  lemma {:induction false} LeavesWeigh(count: seq<nat>, w: int -> nat, x: nat)
    requires Weighs(count, w)
    ensures Tally(Leaves(count), LeavesOf(w, x)) == Live(count)[x]
  {
    if count != [] {
      LeavesWeighLast(count, w, x);
      LiveLast(count, x);
      LeavesWeigh(count[..|count| - 1], w, x);
    }
  }

  lemma {:induction false} LeavesOccur(count: seq<nat>, c: int)
    ensures Tally(Leaves(count), OccOf(c)) == if 0 <= c < |count| - MAXNODE && count[MAXNODE + c] > 0 then 1 else 0
  {
    if count != [] {
      LeavesLast(count, OccOf(c));
      LeavesOccur(count[..|count| - 1], c);
    }
  }

  ghost function WeightsOf(count: seq<nat>): int -> nat
    requires |count| == SLOTS
  {
    H.WeightOf(count[MAXNODE..])
  }

  lemma {:induction false} StartForest(d0: Dict, s: seq<Code>)
    requires Sized(d0)
    ensures var d := Start(d0, s); Growing(d, d.count) && Weighs(d.count, WeightsOf(d.count))
                                   && Forested(d, Leaves(d.count), WeightsOf(d.count))
  {
    var count := Start(d0, s).count;
    StartIs(d0, s);
    forall i | MAXNODE <= i < SLOTS ensures WeightsOf(count)(i - MAXNODE) == count[i] {
      assert count[MAXNODE..][i - MAXNODE] == count[i];
    }
  }

  lemma {:induction false} UnitesLeaves(t: H.Tree, count: seq<nat>, w: int -> nat, g: nat)
    requires Weighs(count, w) && Unites(t, Leaves(count), w, g)
    ensures H.Inner(t, w) == g && H.LeafWeights(t, w) == Live(count)
    ensures forall c :: 0 <= c < |count| - MAXNODE && count[MAXNODE + c] > 0 ==> H.Occ(t, c) == 1
  {
    LeavesCost(count, w);
    forall x: nat ensures H.LeafWeights(t, w)[x] == Live(count)[x] { LeavesWeigh(count, w, x); }
    forall c | 0 <= c < |count| - MAXNODE && count[MAXNODE + c] > 0 ensures H.Occ(t, c) == 1 { LeavesOccur(count, c); }
  }

  /** The dictionary of a file is a Huffman tree over the symbols that occur, each exactly once. */
  lemma {:induction false} DictionaryTree(d0: Dict, s: seq<Code>) returns (t: H.Tree)
    requires Sized(d0) && Alive(Start(d0, s).count) > 1
    ensures var d := Analyze(d0, s); var count := Start(d0, s).count; var w := WeightsOf(count);
            && d.cur + 1 < MAXNODE && Denotes(d, d.cur, d.cur + 1, t)
            && H.LeafWeights(t, w) == Live(count) && H.Inner(t, w) == H.Greedy(Live(count))
            && forall c :: 0 <= c < MAXLEAF && count[MAXNODE + c] > 0 ==> H.Occ(t, c) == 1
  {
    hide H.Greedy, Live, Denotes, WeightsOf, H.LeafWeights, H.Occ, MergeCost, H.Inner;
    var d1 := Start(d0, s);
    var w := WeightsOf(d1.count);
    StartIs(d0, s);
    StartForest(d0, s);
    var n := Alive(d1.count);
    t := MergeAllTree(d1, n, d1.count, Leaves(d1.count), w);
    UnitesLeaves(t, d1.count, w, MergeCost(d1, n));
    MergeCostIsGreedy(d1, n);
  }

  // ------------------------------------------------------ the size of a file

  /** The depths of all leaves c of t, whose root is at depth k, added up. */
  function Depths(t: H.Tree, c: int, k: nat): nat {
    match t
    case Leaf(s) => if s == c then k else 0
    case Node(l, r) => Depths(l, c, k + 1) + Depths(r, c, k + 1)
  }

  /** The depth of a symbol in the tree is the length of the path the compressor climbs. */
  lemma {:induction false} DepthIsPath(d: Dict, base: seq<nat>, e: int, t: H.Tree, c: Code, k: nat)
    requires Coded(d, base) && Used(base, MAXNODE + c) && Denotes(d, d.cur, e, t)
    requires e >= 0 ==> k == |Path(d, base, e)|
    requires e == -1 - c ==> k == |Path(d, base, MAXNODE + c)|
    ensures H.Occ(t, c) == 0 ==> Depths(t, c, k) == 0
    ensures H.Occ(t, c) == 1 ==> Depths(t, c, k) == |Path(d, base, MAXNODE + c)|
    decreases t
  {
    match t
    case Leaf(_) =>
    case Node(l, r) =>
      assert NodeOk(d, e);
      DepthIsPath(d, base, d.left[e], l, c, k + 1);
      DepthIsPath(d, base, d.right[e], r, c, k + 1);
  }

  lemma {:induction false} CostMore(t: H.Tree, w: int -> nat, w': int -> nat, c: int, k: nat)
    requires forall x :: w'(x) == w(x) + if x == c then 1 else 0
    ensures H.Cost(H.Profile(t, w', k)) == H.Cost(H.Profile(t, w, k)) + Depths(t, c, k)
  {
    match t
    case Leaf(s) =>
      LeafCost(s, w, k);
      LeafCost(s, w', k);
    case Node(l, r) =>
      H.TotalConcat(H.Profile(l, w, k + 1), H.Profile(r, w, k + 1), H.Charge());
      H.TotalConcat(H.Profile(l, w', k + 1), H.Profile(r, w', k + 1), H.Charge());
      CostMore(l, w, w', c, k + 1);
      CostMore(r, w, w', c, k + 1);
  }

  lemma {:induction false} LeafCost(s: int, w: int -> nat, k: nat)
    ensures H.Cost(H.Profile(H.Leaf(s), w, k)) == k * w(s)
  {
    var p := H.Profile(H.Leaf(s), w, k);
    assert H.Cost(p) == p[0].depth * p[0].weight + H.Total(p[1..], H.Charge());
  }

  lemma {:induction false} CostNothing(t: H.Tree, w: int -> nat, k: nat)
    requires forall x :: w(x) == 0
    ensures H.Cost(H.Profile(t, w, k)) == 0
  {
    match t
    case Leaf(s) =>
      LeafCost(s, w, k);
    case Node(l, r) =>
      H.TotalConcat(H.Profile(l, w, k + 1), H.Profile(r, w, k + 1), H.Charge());
      CostNothing(l, w, k + 1);
      CostNothing(r, w, k + 1);
  }

  lemma {:induction false} OneMoreWeighs(count: seq<nat>, c: Code, x: int)
    requires |count| == SLOTS
    ensures WeightsOf(count[MAXNODE + c := count[MAXNODE + c] + 1])(x) == WeightsOf(count)(x) + if x == c then 1 else 0
  {
  }

  /** The length of the bit stream of s is the weighted path length of the tree. */
  lemma {:induction false} StreamLength(d: Dict, base: seq<nat>, t: H.Tree, s: seq<Code>)
    requires Coded(d, base) && Denotes(d, d.cur, d.cur + 1, t)
    requires AllUsed(base, s) && forall i :: 0 <= i < |s| ==> H.Occ(t, s[i]) == 1
    ensures |Encoded(d, base, s)| == H.PathLength(t, WeightsOf(Counted(Repeat<nat>(0, SLOTS), s)))
  {
    var w := WeightsOf(Counted(Repeat<nat>(0, SLOTS), s));
    if s == [] {
      CostNothing(t, w, 0);
    } else {
      var n := |s| - 1;
      var count := Counted(Repeat<nat>(0, SLOTS), s[..n]);
      StreamLength(d, base, t, s[..n]);
      DepthIsPath(d, base, d.cur + 1, t, s[n], 0);
      forall x ensures w(x) == WeightsOf(count)(x) + if x == s[n] then 1 else 0 { OneMoreWeighs(count, s[n], x); }
      CostMore(t, WeightsOf(count), w, s[n], 0);
    }
  }

  lemma {:induction false} TwoAlive(count: seq<nat>, i: nat, j: nat)
    requires i < |count| && j < |count| && i != j && count[i] > 0 && count[j] > 0
    ensures Alive(count) > 1
  {
    AliveUpdate(count, i, 0);
    AliveUpdate(count[i := 0], j, 0);
  }

  lemma {:induction false} TwoCodes(d0: Dict, s: seq<Code>, i: nat, j: nat)
    requires Sized(d0) && i < |s| && j < |s| && s[i] != s[j]
    ensures Alive(Start(d0, s).count) > 1
  {
    EveryCodeUsed(d0, s);
    UsedAt(Start(d0, s).count, s, i);
    UsedAt(Start(d0, s).count, s, j);
    TwoAlive(Start(d0, s).count, MAXNODE + s[i], MAXNODE + s[j]);
  }

  lemma {:induction false} StreamTree(d0: Dict, s: seq<Code>) returns (t: H.Tree)
    requires Sized(d0) && s != [] && Alive(Start(d0, s).count) > 1
    ensures var w := WeightsOf(Start(d0, s).count);
            && |Stream(d0, s)| == H.PathLength(t, w)
            && H.LeafWeights(t, w) == Live(Start(d0, s).count) && H.Inner(t, w) == H.Greedy(H.LeafWeights(t, w))
  {
    EveryCodeUsed(d0, s);
    t := DictionaryTree(d0, s);
    forall i | 0 <= i < |s| ensures H.Occ(t, s[i]) == 1 { UsedAt(Start(d0, s).count, s, i); }
    StreamLength(Analyze(d0, s), Start(d0, s).count, t, s);
  }

  /** Among all complete prefix codes for the codes of a file, none makes its bit stream shorter. */
  lemma {:induction false} StreamIsOptimal(d0: Dict, text: seq<byte>, p: seq<H.Item>, m: nat)
    requires Sized(d0) && text != [] && H.Kraft(p, m)
    requires H.Weights(p) == Live(Start(d0, FileCodes(text)).count)
    ensures |Stream(d0, FileCodes(text))| <= H.Cost(p)
  {
    var s := FileCodes(text);
    FirstIsByte(text);
    TwoCodes(d0, s, 0, |s| - 1);
    var t := StreamTree(d0, s);
    H.GreedyIsOptimal(t, WeightsOf(Start(d0, s).count), p, m);
  }

  /** No prefix code for the codes of the file makes its bit stream shorter. */
  lemma {:induction false} NoPrefixCodeShorter(d0: Dict, text: seq<byte>, words: seq<seq<bool>>, ws: seq<nat>)
    requires Sized(d0) && text != [] && |words| == |ws| && H.PrefixFree(words)
    requires multiset(ws) == Live(Start(d0, FileCodes(text)).count)
    ensures |Stream(d0, FileCodes(text))| <= H.Cost(H.Items(words, ws))
  {
    hide Sized, Live, Start, FileCodes, Stream, H.PrefixFree, H.Items, H.Cost, H.Kraft, H.Weights;
    H.PrefixCodeIsKraft(words, ws);
    StreamIsOptimal(d0, text, H.Items(words, ws), H.LongestWord(words));
  }

  lemma {:induction false} FirstIsByte(text: seq<byte>)
    requires text != []
    ensures FileCodes(text)[0] < SQ_EOF
  {
    CodesStart(Idle, text);
  }

  lemma {:induction false} CodesStart(r: Run, text: seq<byte>)
    requires RunOk(r) && (r.Run? || text != [])
    ensures Codes(r, text) != [] && Codes(r, text)[0] < SQ_EOF
    decreases |text|
  {
    if text != [] && r.Run? && text[0] == r.c {
      if r.n + 1 < MAXRUN { CodesStart(Run(r.c, r.n + 1), text[1..]); }
    } else if text != [] && r.Idle? {
      CodesStart(Run(text[0], 1), text[1..]);
    }
  }
}
