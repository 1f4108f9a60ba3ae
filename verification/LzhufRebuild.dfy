/**
 Halving the counts and rebuilding the tree when the root reaches MAX_FREQ,
 and the tree a decoder starts from.
*/
module LzhufRebuild {
  import opened LzhufTree

  // ------------------------------------------------------------- sums

  function Sum(s: seq<int>): int {
    if s == [] then 0 else s[0] + Sum(s[1..])
  }

  lemma {:induction false} SumConcat(a: seq<int>, b: seq<int>)
    ensures Sum(a + b) == Sum(a) + Sum(b)
  {
    if a == [] {
      assert a + b == b;
    } else {
      assert (a + b)[1..] == a[1..] + b;
      SumConcat(a[1..], b);
    }
  }

  lemma {:induction false} SumInsert(s: seq<int>, k: nat, x: int)
    requires k <= |s|
    ensures Sum(Insert(s, k, x)) == Sum(s) + x
  {
    InsertParts(s, k, x);
    SumConcat(s[..k] + [x], s[k..]);
    SumConcat(s[..k], [x]);
    SumConcat(s[..k], s[k..]);
    assert s[..k] + s[k..] == s;
  }

  function Insert<A>(s: seq<A>, k: nat, x: A): (r: seq<A>)
    requires k <= |s|
    ensures |r| == |s| + 1
    ensures forall y {:trigger r[y]} :: 0 <= y < |r| ==> r[y] == if y < k then s[y] else if y == k then x else s[y - 1]
  {
    seq(|s| + 1, y requires 0 <= y <= |s| => if y < k then s[y] else if y == k then x else s[y - 1])
  }

  // ---------------------------------------- the root counts all the leaves

  ghost function UnpairedTotal(t: Tree, m: nat, y: nat): int
    requires Shape(t) && y <= T
  {
    Gather(t, m, y, FreqOf(t), Add(), 0)
  }

  function FreqOf(t: Tree): nat -> int
    requires Shape(t)
  {
    (y: nat) => if y < T then t.freq[y] else 0
  }

  function Add(): (int, int) -> int { (a, b) => a + b }

  lemma {:induction false} PairsConserve(t: Tree, m: nat)
    requires Valid(t) && m % 2 == 0 && m <= R
    ensures UnpairedTotal(t, m, m) == t.freq[R]
    decreases R - m
  {
    if m == R {
      RootLeft(t, FreqOf(t), Add(), 0);
    } else {
      PairsConserve(t, m + 2);
      var p, rest := LowestPair(t, m, FreqOf(t), Add(), 0);
      assert SumOk(t.freq, t.son, -1, p);
    }
  }

  /** The frequencies of the leaves among the first n nodes, in node order. */
  function LeafFreqs(t: Tree, n: nat): seq<int>
    requires Shape(t) && n <= T
  {
    if n == 0 then [] else LeafFreqs(t, n - 1) + if t.son[n - 1] >= T then [t.freq[n - 1]] else []
  }

  lemma {:induction false} LeafFreqsRest(t: Tree, n: nat)
    requires Valid(t) && n <= T
    ensures Sum(LeafFreqs(t, n)) + UnpairedTotal(t, 0, n) == UnpairedTotal(t, 0, 0)
  {
    if n > 0 {
      LeafFreqsRest(t, n - 1);
      assert SonOk(t.son, t.prnt, n - 1);
      if t.son[n - 1] >= T { SumConcat(LeafFreqs(t, n - 1), [t.freq[n - 1]]); }
      else { assert LeafFreqs(t, n) == LeafFreqs(t, n - 1); }
    }
  }

  /** In every valid tree the root's frequency is the total over the leaves. */
  lemma {:induction false} RootIsLeafTotal(t: Tree)
    requires Valid(t)
    ensures Sum(LeafFreqs(t, T)) == t.freq[R]
  {
    LeafFreqsRest(t, T);
    PairsConserve(t, 0);
  }

  // ------------------------------------------------------------- rebuilding

  function Half(f: int): int { (f + 1) / 2 }

  /** Leaves among the first n nodes, with halved frequencies. */
  function HalvedLeaves(t: Tree, n: nat): (r: (seq<int>, seq<int>))
    requires Shape(t) && n <= T
    ensures |r.0| == |r.1| <= n
  {
    if n == 0 then ([], []) else
    var (f, s) := HalvedLeaves(t, n - 1);
    if t.son[n - 1] >= T then (f + [Half(t.freq[n - 1])], s + [t.son[n - 1]]) else (f, s)
  }

  ghost predicate Ascending(f: seq<int>) {
    (|f| > 0 ==> 1 <= f[0]) && forall i, j :: InOrder(f, i, j)
  }

  /** One past the last node whose frequency does not exceed f: where a node of frequency f goes. */
  function Slot(freq: seq<int>, f: int, k: nat): (r: nat)
    requires k <= |freq|
    ensures r <= k
    ensures r > 0 ==> freq[r - 1] <= f
    ensures r < k ==> freq[r] > f
  {
    if k > 0 && f < freq[k - 1] then Slot(freq, f, k - 1) else k
  }

  ghost predicate Counted(freq: seq<int>, where: seq<int>, counts: seq<int>, c: nat)
    requires |where| == T + N_CHAR && |counts| == N_CHAR && c < N_CHAR
  {
    0 <= where[c + T] < |freq| && freq[where[c + T]] == counts[c]
  }

  /**
   A forest under construction: nodes below i are paired, where[] locates each
   leaf and each pair, symbol c occurs counts[c] times, and the unpaired nodes
   add up to total.
  */
  ghost predicate Forest(freq: seq<int>, son: seq<int>, where: seq<int>, i: nat, counts: seq<int>, total: int) {
    && |freq| == |son| == N_CHAR + i / 2 && i % 2 == 0 && i <= R && |where| == T + N_CHAR
    && Ascending(freq)
    && (forall x :: 0 <= x < |son| ==> Placed(son, where, i, x))
    && (forall x :: 0 <= x < |son| ==> Added(freq, son, x))
    && (forall p :: 0 <= p < T + N_CHAR ==> Located(son, where, i, p))
    && |counts| == N_CHAR && (forall c :: 0 <= c < N_CHAR ==> Counted(freq, where, counts, c))
    && i <= |freq| && Sum(freq[i..]) == total
  }

  ghost predicate Placed(son: seq<int>, where: seq<int>, i: nat, x: nat)
    requires x < |son| && |where| == T + N_CHAR
  {
    && (if son[x] >= T then son[x] < T + N_CHAR else 0 <= son[x] < i && son[x] % 2 == 0 && son[x] + 1 < x)
    && where[son[x]] == x
  }

  ghost predicate Added(freq: seq<int>, son: seq<int>, x: nat)
    requires x < |son| == |freq|
  {
    0 <= son[x] < x - 1 ==> freq[x] == freq[son[x]] + freq[son[x] + 1]
  }

  ghost predicate Located(son: seq<int>, where: seq<int>, i: nat, p: nat)
    requires p < |where|
  {
    p >= T || (p % 2 == 0 && p < i) ==> 0 <= where[p] < |son| && son[where[p]] == p
  }

  /** Pair nodes i and i+1 under a new node, placed by frequency; then go on with the next pair. */
  function PairUp(freq: seq<int>, son: seq<int>, i: nat): (r: (seq<int>, seq<int>))
    requires |freq| == |son| == N_CHAR + i / 2 && i % 2 == 0 && i <= R
    ensures |r.0| == |r.1| == T
    decreases T - |freq|
  {
    if |freq| == T then (freq, son) else
    var f := freq[i] + freq[i + 1];
    var k := Slot(freq, f, |freq|);
    PairUp(Insert(freq, k, f), Insert(son, k, i), i + 2)
  }

  ghost predicate Positive(s: seq<int>) {
    forall x :: 0 <= x < |s| ==> s[x] >= 1
  }

  /** Pairing up has reached node i, and will end in goal. */
  ghost predicate Pairing(freq: seq<int>, son: seq<int>, i: nat, goal: (seq<int>, seq<int>)) {
    |freq| == |son| == N_CHAR + i / 2 <= T && i % 2 == 0 && Positive(freq) && PairUp(freq, son, i) == goal
  }

  /** One step of pairing up. */
  lemma {:induction false} PairingStep(freq: seq<int>, son: seq<int>, i: nat, goal: (seq<int>, seq<int>))
      returns (freq': seq<int>, son': seq<int>)
    requires Pairing(freq, son, i, goal) && |freq| < T
    ensures var f := freq[i] + freq[i + 1]; var k := Slot(freq, f, |freq|);
            freq' == Insert(freq, k, f) && son' == Insert(son, k, i)
    ensures Pairing(freq', son', i + 2, goal)
  {
    var f := freq[i] + freq[i + 1];
    var k := Slot(freq, f, |freq|);
    freq', son' := Insert(freq, k, f), Insert(son, k, i);
  }

  lemma {:induction false} InsertParts<A>(s: seq<A>, k: nat, x: A)
    requires k <= |s|
    ensures Insert(s, k, x) == s[..k] + [x] + s[k..]
  {
  }

  function ShiftWhere(where: seq<int>, k: nat, i: nat): (r: seq<int>)
    requires i < |where|
    ensures |r| == |where|
    ensures forall p :: 0 <= p < |r| ==> r[p] == if p == i then k else if where[p] >= k then where[p] + 1 else where[p]
  {
    seq(|where|, p requires 0 <= p < |where| => if p == i then k else if where[p] >= k then where[p] + 1 else where[p])
  }

  lemma {:induction false} PairKeepsPlaced(son: seq<int>, where: seq<int>, i: nat, k: nat, x: nat)
    requires |where| == T + N_CHAR && i % 2 == 0 && i + 1 < k <= |son| <= T && i < R && x <= |son|
    requires x < k ==> Placed(son, where, i, x)
    requires x > k ==> Placed(son, where, i, x - 1)
    ensures Placed(Insert(son, k, i), ShiftWhere(where, k, i), i + 2, x)
  {
  }

  lemma {:induction false} PairKeepsAdded(freq: seq<int>, son: seq<int>, where: seq<int>, i: nat, k: nat, x: nat)
    requires |where| == T + N_CHAR && i % 2 == 0 && i + 1 < k <= |son| == |freq| <= T && i < R && x <= |son|
    requires x < k ==> Placed(son, where, i, x) && Added(freq, son, x)
    requires x > k ==> Placed(son, where, i, x - 1) && Added(freq, son, x - 1)
    ensures Added(Insert(freq, k, freq[i] + freq[i + 1]), Insert(son, k, i), x)
  {
  }

  lemma {:induction false} PairKeepsLocated(son: seq<int>, where: seq<int>, i: nat, k: nat, p: nat)
    requires |where| == T + N_CHAR && i % 2 == 0 && i < k <= |son| <= T && p < T + N_CHAR
    requires Located(son, where, i, p)
    ensures Located(Insert(son, k, i), ShiftWhere(where, k, i), i + 2, p)
  {
  }

  lemma {:induction false} InsertAscending(freq: seq<int>, k: nat, f: int)
    requires Ascending(freq) && 0 < k <= |freq|
    requires freq[k - 1] <= f
    requires k < |freq| ==> f < freq[k]
    ensures Ascending(Insert(freq, k, f))
  {
    var r := Insert(freq, k, f);
    assert InOrder(freq, 0, k - 1);
    forall i, j ensures InOrder(r, i, j) {
      var i', j' := if i < k then i else i - 1, if j < k then j else j - 1;
      assert InOrder(freq, i', j') && InOrder(freq, i', k - 1) && InOrder(freq, k, j');
    }
  }

  /** A last element no smaller than the others keeps the sequence ascending. */
  lemma {:induction false} AppendAscending(freq: seq<int>, f: int)
    requires Ascending(freq) && 1 <= f && (|freq| > 0 ==> freq[|freq| - 1] <= f)
    ensures Ascending(freq + [f])
  {
    var n := |freq|;
    forall i, j ensures InOrder(freq + [f], i, j) {
      assert InOrder(freq, i, j) && InOrder(freq, i, n - 1);
    }
  }

  lemma {:induction false} AscendingPositive(freq: seq<int>)
    requires Ascending(freq)
    ensures Positive(freq)
  {
    forall x | 0 <= x < |freq| ensures freq[x] >= 1 { assert InOrder(freq, 0, x); }
  }

  lemma {:induction false} PairKeepsNodes(freq: seq<int>, son: seq<int>, where: seq<int>, i: nat,
                                           counts: seq<int>, total: int, k: nat, f: int)
    requires Forest(freq, son, where, i, counts, total) && |freq| < T && i + 1 < k <= |freq|
    requires f == freq[i] + freq[i + 1]
    ensures var freq', son', where', i' := Insert(freq, k, f), Insert(son, k, i), ShiftWhere(where, k, i), i + 2;
            && (forall x :: 0 <= x < |son'| ==> Placed(son', where', i', x))
            && (forall x :: 0 <= x < |son'| ==> Added(freq', son', x))
            && (forall p :: 0 <= p < T + N_CHAR ==> Located(son', where', i', p))
            && (forall c :: 0 <= c < N_CHAR ==> Counted(freq', where', counts, c))
  {
    var freq', son', where', i' := Insert(freq, k, f), Insert(son, k, i), ShiftWhere(where, k, i), i + 2;
    forall x | 0 <= x < |son'| ensures Placed(son', where', i', x) {
      PairKeepsPlaced(son, where, i, k, x);
    }
    forall x | 0 <= x < |son'| ensures Added(freq', son', x) {
      PairKeepsAdded(freq, son, where, i, k, x);
    }
    forall p | 0 <= p < T + N_CHAR ensures Located(son', where', i', p) {
      PairKeepsLocated(son, where, i, k, p);
    }
    forall c | 0 <= c < N_CHAR ensures Counted(freq', where', counts, c) {
      assert Counted(freq, where, counts, c);
    }
  }

  lemma {:induction false} SlotAbovePair(freq: seq<int>, i: nat) returns (f: int, k: nat)
    requires Ascending(freq) && i + 1 < |freq|
    ensures f == freq[i] + freq[i + 1] && k == Slot(freq, f, |freq|)
    ensures i + 1 < k <= |freq| && freq[k - 1] <= f && (k < |freq| ==> f < freq[k])
  {
    f := freq[i] + freq[i + 1];
    k := Slot(freq, f, |freq|);
    assert InOrder(freq, k, i + 1);
    assert InOrder(freq, 0, i) && InOrder(freq, 0, i + 1);
  }

  lemma {:induction false} PairKeepsSum(freq: seq<int>, i: nat, k: nat)
    requires i + 1 < k <= |freq|
    ensures Sum(Insert(freq, k, freq[i] + freq[i + 1])[i + 2..]) == Sum(freq[i..])
  {
    var f, rest := freq[i] + freq[i + 1], freq[i + 2..];
    assert Insert(freq, k, f)[i + 2..] == Insert(rest, k - i - 2, f);
    SumInsert(rest, k - i - 2, f);
    assert freq[i..][1..][1..] == rest;
  }

  lemma {:induction false} PairKeepsForest(freq: seq<int>, son: seq<int>, where: seq<int>, i: nat,
                                            counts: seq<int>, total: int, k: nat, f: int)
    requires Forest(freq, son, where, i, counts, total) && |freq| < T && i + 1 < k <= |freq|
    requires f == freq[i] + freq[i + 1] && freq[k - 1] <= f && (k < |freq| ==> f < freq[k])
    ensures Forest(Insert(freq, k, f), Insert(son, k, i), ShiftWhere(where, k, i), i + 2, counts, total)
  {
    PairKeepsNodes(freq, son, where, i, counts, total, k, f);
    PairKeepsSum(freq, i, k);
    InsertAscending(freq, k, f);
  }

  lemma {:induction false} ForestComplete(freq: seq<int>, son: seq<int>, where: seq<int>, i: nat,
                                           counts: seq<int>, total: int)
    requires Forest(freq, son, where, i, counts, total) && |freq| == T
    ensures i == R && freq[R] == total
  {
    assert i == R;
    var last := freq[i..];
    assert last[1..] == [];
    assert Sum(last) == last[0] + Sum(last[1..]);
  }

  lemma {:induction false} PairUpStep(freq: seq<int>, son: seq<int>, where: seq<int>, i: nat,
                                       counts: seq<int>, total: int, r: (seq<int>, seq<int>))
      returns (freq': seq<int>, son': seq<int>, where': seq<int>)
    requires Forest(freq, son, where, i, counts, total) && r == PairUp(freq, son, i) && |freq| < T
    ensures Forest(freq', son', where', i + 2, counts, total)
    ensures r == PairUp(freq', son', i + 2) && |freq'| == |freq| + 1
  {
    var f, k := SlotAbovePair(freq, i);
    PairKeepsForest(freq, son, where, i, counts, total, k, f);
    freq', son', where' := Insert(freq, k, f), Insert(son, k, i), ShiftWhere(where, k, i);
  }

  /** Pairing up a forest completely: the last node is the root and carries the forest's total. */
  lemma {:induction false} PairUpForest(freq: seq<int>, son: seq<int>, where: seq<int>, i: nat,
                                         counts: seq<int>, total: int, r: (seq<int>, seq<int>)) returns (w: seq<int>)
    requires Forest(freq, son, where, i, counts, total) && r == PairUp(freq, son, i)
    ensures Forest(r.0, r.1, w, R, counts, total) && r.0[R] == total
    decreases T - |freq|
  {
    if |freq| == T {
      w := where;
      ForestComplete(freq, son, where, i, counts, total);
    } else {
      var freq', son', where' := PairUpStep(freq, son, where, i, counts, total, r);
      w := PairUpForest(freq', son', where', i + 2, counts, total, r);
    }
  }

  // ------------------------------------------------ the leaves, compacted

  ghost function Range(lo: int, n: nat): (r: set<int>)
    ensures |r| == n
    ensures forall x :: x in r <==> lo <= x < lo + n
  {
    if n == 0 then {} else Range(lo, n - 1) + {lo + n - 1}
  }

  lemma {:induction false} Pigeonhole(s: seq<int>, values: set<int>)
    requires forall x, y :: 0 <= x < y < |s| ==> s[x] != s[y]
    requires forall x :: 0 <= x < |s| ==> s[x] in values
    ensures |s| <= |values|
  {
    if s != [] {
      var last := s[|s| - 1];
      Pigeonhole(s[..|s| - 1], values - {last});
    }
  }

  /** Where leaf p lands when the leaves are moved down. */
  function Rank(t: Tree, p: nat): (k: nat)
    requires Shape(t) && Linked(t.son, t.prnt) && T <= p < T + N_CHAR
  {
    assert ParentOk(t.son, t.prnt, p);
    |HalvedLeaves(t, t.prnt[p]).1|
  }

  ghost predicate Compacted(t: Tree, n: nat)
    requires Valid(t) && n <= T
  {
    var (f, s) := HalvedLeaves(t, n);
    && Ascending(f)
    && (forall x :: 0 <= x < |f| ==> f[x] <= Half(t.freq[n]))
    && (forall x :: 0 <= x < |s| ==> T <= s[x] < T + N_CHAR && Rank(t, s[x]) == x)
    && 2 * Sum(f) <= Sum(LeafFreqs(t, n)) + |f|
    && (forall p :: T <= p < T + N_CHAR && 0 <= t.prnt[p] < n ==>
          Rank(t, p) < |s| && s[Rank(t, p)] == p && f[Rank(t, p)] == Half(t.freq[t.prnt[p]]))
  }

  lemma {:induction false} LeafCompacted(t: Tree, n: nat)
    requires Valid(t) && 0 < n <= T && t.son[n - 1] >= T && Compacted(t, n - 1)
    ensures Compacted(t, n)
  {
    hide Ascending, Shape, Sums;
    var (f, s) := HalvedLeaves(t, n - 1);
    assert SonOk(t.son, t.prnt, n - 1);
    assert InOrder(t.freq, 0, n - 1) && InOrder(t.freq, n - 1, n);
    SumConcat(LeafFreqs(t, n - 1), [t.freq[n - 1]]);
    SumConcat(f, [Half(t.freq[n - 1])]);
    AppendAscending(f, Half(t.freq[n - 1]));
    forall p | T <= p < T + N_CHAR && t.prnt[p] == n - 1 ensures t.son[n - 1] == p {
      assert ParentOk(t.son, t.prnt, p);
    }
  }

  lemma {:induction false} LeavesCompacted(t: Tree, n: nat)
    requires Valid(t) && n <= T
    ensures Compacted(t, n)
  {
    if n > 0 {
      LeavesCompacted(t, n - 1);
      if t.son[n - 1] >= T {
        LeafCompacted(t, n);
      } else {
        assert InOrder(t.freq, n - 1, n);
        assert LeafFreqs(t, n) == LeafFreqs(t, n - 1);
        forall p | T <= p < T + N_CHAR ensures t.prnt[p] != n - 1 {
          assert ParentOk(t.son, t.prnt, p);
        }
      }
    }
  }

  lemma {:induction false} AllLeavesCompacted(t: Tree)
    requires Valid(t)
    ensures |HalvedLeaves(t, T).0| == N_CHAR
  {
    LeavesCompacted(t, T);
    var (f, s) := HalvedLeaves(t, T);
    Pigeonhole(s, Range(T, N_CHAR));
    forall p | T <= p < T + N_CHAR ensures 0 <= t.prnt[p] < T {
      assert ParentOk(t.son, t.prnt, p);
    }
    var ranks := seq(N_CHAR, c requires 0 <= c < N_CHAR => Rank(t, c + T));
    forall x, y | 0 <= x < y < N_CHAR ensures ranks[x] != ranks[y] {
      assert s[Rank(t, x + T)] == x + T && s[Rank(t, y + T)] == y + T;
    }
    Pigeonhole(ranks, Range(0, |s|));
  }

  // ------------------------------------------------------- the rebuilt tree

  /** Point the pairs and leaves below the first n nodes back at them. */
  function Connect(son: seq<int>, prnt: seq<int>, n: nat): (r: seq<int>)
    requires |prnt| == T + N_CHAR && n <= |son| == T
    requires forall x :: 0 <= x < T ==> 0 <= son[x] < T + N_CHAR && son[x] != R
    ensures |r| == |prnt|
  {
    if n == 0 then prnt else Reparent(Connect(son, prnt, n - 1), son[n - 1], n - 1)
  }

  lemma {:induction false} ConnectPoints(freq: seq<int>, son: seq<int>, prnt: seq<int>, where: seq<int>,
                                          counts: seq<int>, total: int, n: nat)
    requires Forest(freq, son, where, R, counts, total) && |prnt| == T + N_CHAR && n <= T
    ensures forall x :: 0 <= x < T ==> 0 <= son[x] < T + N_CHAR && son[x] < T ==> son[x] < R
    ensures forall x :: 0 <= x < T ==> 0 <= son[x] < T + N_CHAR && son[x] != R
    ensures var r := Connect(son, prnt, n);
            && (forall p :: T <= p < T + N_CHAR && 0 <= where[p] < n ==> r[p] == where[p])
            && (forall p :: 0 <= p < R && 0 <= where[p - p % 2] < n ==> r[p] == where[p - p % 2])
            && r[R] == prnt[R]
  {
    forall x | 0 <= x < T ensures 0 <= son[x] < T + N_CHAR && (son[x] < T ==> son[x] < R && son[x] % 2 == 0) {
      assert Placed(son, where, R, x);
    }
    if n > 0 {
      ConnectPoints(freq, son, prnt, where, counts, total, n - 1);
      var r := Connect(son, prnt, n - 1);
      assert Placed(son, where, R, n - 1);
      forall p | T <= p < T + N_CHAR && where[p] == n - 1 ensures son[n - 1] == p {
        assert Located(son, where, R, p);
      }
      forall p | 0 <= p < R && where[p - p % 2] == n - 1 ensures son[n - 1] == p - p % 2 {
        assert Located(son, where, R, p - p % 2);
      }
    }
  }

  lemma {:induction false} ForestIsTree(freq: seq<int>, son: seq<int>, prnt: seq<int>, where: seq<int>,
                                         counts: seq<int>, total: int)
    requires Forest(freq, son, where, R, counts, total) && |prnt| == T + N_CHAR && prnt[R] == 0
    requires freq[R] <= MAX_FREQ
    ensures forall x :: 0 <= x < T ==> 0 <= son[x] < T + N_CHAR && son[x] != R
    ensures var t := Tree(freq + [SENTINEL], son, Connect(son, prnt, T));
            Valid(t) && forall c :: 0 <= c < N_CHAR ==> Count(t, c) == counts[c]
  {
    ConnectPoints(freq, son, prnt, where, counts, total, T);
    var t := Tree(freq + [SENTINEL], son, Connect(son, prnt, T));
    forall p | 0 <= p < T + N_CHAR ensures ParentOk(son, t.prnt, p) {
      assert Located(son, where, R, p);
      if p < R {
        var q := p - p % 2;
        assert Located(son, where, R, q);
        assert Placed(son, where, R, where[q]);
      }
    }
    forall x | 0 <= x < T ensures SonOk(son, t.prnt, x) {
      assert Placed(son, where, R, x);
    }
    forall x | 0 <= x < T ensures SumOk(t.freq, son, -1, x) {
      assert Placed(son, where, R, x) && Added(freq, son, x);
    }
    forall c | 0 <= c < N_CHAR ensures Count(t, c) == counts[c] {
      assert Counted(freq, where, counts, c);
    }
    AppendAscending(freq, SENTINEL);
  }

  /** The tree over N_CHAR leaves with the given frequencies and symbols; prnt holds the old links. */
  function Build(freq: seq<int>, son: seq<int>, prnt: seq<int>, where: seq<int>, counts: seq<int>): (r: Tree)
    requires Forest(freq, son, where, 0, counts, Sum(freq)) && Sum(freq) <= MAX_FREQ
    requires |prnt| == T + N_CHAR && prnt[R] == 0
    ensures Valid(r) && r.freq[R] == Sum(freq)
    ensures forall c :: 0 <= c < N_CHAR ==> Count(r, c) == counts[c]
  {
    var b := PairUp(freq, son, 0);
    BuildOk(freq, son, prnt, where, counts, b);
    Tree(b.0 + [SENTINEL], b.1, Connect(b.1, prnt, T))
  }

  lemma {:induction false} BuildOk(freq: seq<int>, son: seq<int>, prnt: seq<int>, where: seq<int>, counts: seq<int>,
                                    b: (seq<int>, seq<int>))
    requires Forest(freq, son, where, 0, counts, Sum(freq)) && Sum(freq) <= MAX_FREQ
    requires |prnt| == T + N_CHAR && prnt[R] == 0 && b == PairUp(freq, son, 0)
    ensures forall x :: 0 <= x < T ==> 0 <= b.1[x] < T + N_CHAR && b.1[x] != R
    ensures var t := Tree(b.0 + [SENTINEL], b.1, Connect(b.1, prnt, T));
            Valid(t) && t.freq[R] == Sum(freq) && forall c :: 0 <= c < N_CHAR ==> Count(t, c) == counts[c]
  {
    var w := PairUpForest(freq, son, where, 0, counts, Sum(freq), b);
    ForestIsTree(b.0, b.1, prnt, w, counts, Sum(freq));
  }

  function Ranks(t: Tree): (r: seq<int>)
    requires Shape(t) && Linked(t.son, t.prnt)
    ensures |r| == T + N_CHAR
    ensures forall p :: T <= p < T + N_CHAR ==> r[p] == Rank(t, p)
  {
    seq(T + N_CHAR, p requires 0 <= p < T + N_CHAR => if p >= T then Rank(t, p) else 0)
  }

  function Halves(t: Tree): (r: seq<int>)
    requires Shape(t) && Linked(t.son, t.prnt)
    ensures |r| == N_CHAR && forall c :: 0 <= c < N_CHAR ==> r[c] == Half(Count(t, c))
  {
    seq(N_CHAR, c requires 0 <= c < N_CHAR => Half(Count(t, c)))
  }

  lemma {:induction false} HalvedForest(t: Tree)
    requires Valid(t)
    ensures var (f, s) := HalvedLeaves(t, T);
            Forest(f, s, Ranks(t), 0, Halves(t), Sum(f)) && 2 * Sum(f) <= t.freq[R] + N_CHAR
  {
    LeavesCompacted(t, T);
    AllLeavesCompacted(t);
    RootIsLeafTotal(t);
    var (f, s) := HalvedLeaves(t, T);
    assert f[0..] == f;
    forall p | T <= p < T + N_CHAR ensures 0 <= t.prnt[p] < T {
      assert ParentOk(t.son, t.prnt, p);
    }
  }

  /** Halve all counts (rounding up) and rebuild the tree over them. */
  function Reconst(t: Tree): (r: Tree)
    requires Valid(t)
    ensures Valid(r) && 2 * r.freq[R] <= t.freq[R] + N_CHAR
    ensures forall c :: 0 <= c < N_CHAR ==> Count(r, c) == Half(Count(t, c))
  {
    HalvedForest(t);
    assert ParentOk(t.son, t.prnt, R);
    var h := HalvedLeaves(t, T);
    Build(h.0, h.1, t.prnt, Ranks(t), Halves(t))
  }

  lemma {:induction false} LeafLags(t: Tree, c: nat)
    requires Valid(t) && t.freq[R] < MAX_FREQ && c < N_CHAR
    ensures Lagging(t, t.prnt[c + T])
  {
    assert ParentOk(t.son, t.prnt, c + T);
    var p := t.prnt[c + T];
    forall i | 0 <= i < T ensures SumOk(t.freq, t.son, p, i) {
      assert SumOk(t.freq, t.son, -1, i);
    }
  }

  /** Count symbol c once more, halving all counts first when the root is full. */
  function Update(t: Tree, c: nat): (r: Tree)
    requires Valid(t) && c < N_CHAR
    ensures Valid(r)
    ensures forall s :: 0 <= s < N_CHAR ==>
              Count(r, s) == (if t.freq[R] == 0x8000 then Half(Count(t, s)) else Count(t, s)) + if s == c then 1 else 0
  {
    var u := if t.freq[R] == MAX_FREQ then Reconst(t) else t;
    assert ParentOk(u.son, u.prnt, c + T);
    LeafLags(u, c);
    Climb(u, u.prnt[c + T])
  }

  // ------------------------------------------------------- the starting tree

  function Ones(n: nat): (r: seq<int>)
    ensures |r| == n && forall x :: 0 <= x < n ==> r[x] == 1
  {
    seq(n, _ => 1)
  }

  lemma {:induction false} SumOnes(n: nat)
    ensures Sum(Ones(n)) == n
  {
    if n > 0 {
      SumOnes(n - 1);
      assert Ones(n)[1..] == Ones(n - 1);
    }
  }

  function StartSons(): (r: seq<int>)
    ensures |r| == N_CHAR && forall x :: 0 <= x < N_CHAR ==> r[x] == x + T
  {
    seq(N_CHAR, x => x + T)
  }

  function StartWhere(): (r: seq<int>)
    ensures |r| == T + N_CHAR && forall p :: 0 <= p < |r| ==> r[p] == if p >= T then p - T else 0
  {
    seq(T + N_CHAR, p => if p >= T then p - T else 0)
  }

  lemma {:induction false} StartForest()
    ensures Forest(Ones(N_CHAR), StartSons(), StartWhere(), 0, Ones(N_CHAR), N_CHAR)
  {
    SumOnes(N_CHAR);
    var f := Ones(N_CHAR);
    assert f[0..] == f;
  }

  /** The tree in which every symbol has been counted once. */
  function Start(): (r: Tree)
    ensures Valid(r) && r.freq[R] == N_CHAR
    ensures forall c :: 0 <= c < N_CHAR ==> Count(r, c) == 1
  {
    StartForest();
    SumOnes(N_CHAR);
    Build(Ones(N_CHAR), StartSons(), StartWhere()[R := 0], StartWhere(), Ones(N_CHAR))
  }

  /** How pairing up proceeds from all-ones counts: every new node goes to the end. */
  ghost predicate Starting(freq: seq<int>, son: seq<int>, i: nat) {
    && |freq| == |son| == N_CHAR + i / 2 <= T && i % 2 == 0
    && Ascending(freq)
    && freq[|freq| - 1] == (if i == 0 then 1 else freq[i - 2] + freq[i - 1])
    && (forall x :: 0 <= x < |son| ==> son[x] == if x < N_CHAR then x + T else 2 * (x - N_CHAR))
    && Pairing(freq, son, i, PairUp(Ones(N_CHAR), StartSons(), 0))
  }

  lemma {:induction false} StartingAppends(freq: seq<int>, son: seq<int>, i: nat) returns (freq': seq<int>, son': seq<int>)
    requires Starting(freq, son, i) && |freq| < T
    ensures freq' == freq + [freq[i] + freq[i + 1]] && son' == son + [i]
    ensures Starting(freq', son', i + 2)
  {
    var f, n := freq[i] + freq[i + 1], |freq|;
    assert freq[n - 1] <= f by {
      assert InOrder(freq, 0, i) && InOrder(freq, 0, i + 1);
      assert InOrder(freq, i - 2, i) && InOrder(freq, i - 1, i + 1);
    }
    assert Slot(freq, f, n) == n;
    AscendingPositive(freq);
    AppendAscending(freq, f);
    InsertParts(freq, n, f);
    InsertParts(son, n, i);
    assert freq[..n] + [f] + freq[n..] == freq + [f];
    assert son[..n] + [i] + son[n..] == son + [i];
    freq', son' := PairingStep(freq, son, i, PairUp(Ones(N_CHAR), StartSons(), 0));
  }

  lemma {:induction false} PairUpDone(freq: seq<int>, son: seq<int>, i: nat)
    requires |freq| == |son| == N_CHAR + i / 2 == T && i % 2 == 0
    ensures PairUp(freq, son, i) == (freq, son)
  {
  }

  /** The parent links are determined by the sons. */
  lemma {:induction false} ParentsUnique(son: seq<int>, p: seq<int>, q: seq<int>)
    requires Linked(son, p) && Linked(son, q)
    ensures p == q
  {
    forall x | 0 <= x < T + N_CHAR ensures p[x] == q[x] {
      assert ParentOk(son, p, x) && ParentOk(son, q, x);
      if x != R { assert SonOk(son, q, p[x]); }
    }
  }

  /** The starting tree's links in closed form: nodes 2y and 2y+1 sit below node N_CHAR+y. */
  lemma {:induction false} StartLinked(son: seq<int>, prnt: seq<int>)
    requires |son| == T && |prnt| == T + N_CHAR
    requires forall x :: 0 <= x < T ==> son[x] == if x < N_CHAR then x + T else 2 * (x - N_CHAR)
    requires forall x :: 0 <= x < T + N_CHAR ==>
               prnt[x] == if x >= T then x - T else if x == R then 0 else N_CHAR + x / 2
    ensures Linked(son, prnt)
  {
    forall x | 0 <= x < T ensures SonOk(son, prnt, x) { }
    forall x | 0 <= x < T + N_CHAR ensures ParentOk(son, prnt, x) { }
  }

  lemma {:induction false} StartFinished(freq: seq<int>, son: seq<int>, i: nat, s: seq<int>, prnt: seq<int>)
    requires Starting(freq, son, i) && |freq| == T && s == son && |prnt| == T + N_CHAR && prnt[R] == 0
    requires forall x :: T <= x < T + N_CHAR ==> prnt[x] == x - T
    requires forall x :: 0 <= x < i ==> prnt[x] == N_CHAR + x / 2
    ensures Start() == Tree(freq + [SENTINEL], son, prnt)
  {
    PairUpDone(freq, son, i);
    StartLinked(son, prnt);
    ParentsUnique(son, prnt, Start().prnt);
  }
}
