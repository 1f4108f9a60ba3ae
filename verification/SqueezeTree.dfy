/**
 The Huffman dictionary of Squeeze, built in fixed arrays by merging the two
 smallest counts again and again.

 Slots 0..513 are dictionary nodes, filled from the top down; slots 514..770
 are the symbols.  A dictionary entry refers to a node by its number and to
 symbol s by -1-s.
*/
module SqueezeTree {
  import opened Bits

  const MAXNODE := 514
  const MAXLEAF := 257
  const SLOTS := MAXNODE + MAXLEAF

  datatype Dict = Dict(parent: seq<int>, left: seq<int>, right: seq<int>, leaves: seq<int>, count: seq<nat>, cur: int)

  predicate Sized(d: Dict) {
    && |d.parent| == |d.left| == |d.right| == MAXNODE && |d.leaves| == MAXLEAF && |d.count| == SLOTS
    && -1 <= d.cur < MAXNODE
  }

  // ------------------------------------------------------- smallest counts

  /** The slot, among the first n but not skip, with the least positive count; -1 if there is none. */
  function Smallest(count: seq<nat>, skip: int, n: nat): (m: int)
    requires n <= |count|
    ensures -1 <= m < n
  {
    if n == 0 then -1 else
    var m := Smallest(count, skip, n - 1);
    if n - 1 != skip && count[n - 1] > 0 && (m == -1 || count[n - 1] < count[m]) then n - 1 else m
  }

  lemma {:induction false} SmallestIs(count: seq<nat>, skip: int, n: nat)
    requires n <= |count|
    ensures var m := Smallest(count, skip, n);
            if m == -1 then forall i :: 0 <= i < n && i != skip ==> count[i] == 0
            else && m != skip && count[m] > 0
                 && forall i :: 0 <= i < n && i != skip && count[i] > 0 ==>
                      count[m] <= count[i] && (i < m ==> count[m] < count[i])
  {
    if n > 0 { SmallestIs(count, skip, n - 1); }
  }

  /** How many counts are positive: the nodes and symbols still to be merged. */
  function Alive(count: seq<nat>): (n: nat)
    ensures n <= |count|
  {
    if count == [] then 0 else Alive(count[..|count| - 1]) + if count[|count| - 1] > 0 then 1 else 0
  }

  lemma {:induction false} AliveUpdate(count: seq<nat>, i: nat, x: nat)
    requires i < |count|
    ensures Alive(count[i := x]) == Alive(count) - (if count[i] > 0 then 1 else 0) + (if x > 0 then 1 else 0)
  {
    var n := |count| - 1;
    if i < n {
      assert count[i := x][..n] == count[..n][i := x];
      AliveUpdate(count[..n], i, x);
    } else {
      assert count[i := x][..n] == count[..n];
    }
  }

  lemma {:induction false} NoneAlive(count: seq<nat>)
    requires forall i :: 0 <= i < |count| ==> count[i] == 0
    ensures Alive(count) == 0
  {
    if count != [] { NoneAlive(count[..|count| - 1]); }
  }

  /** Two or more positive counts have a smallest and a second smallest. */
  lemma {:induction false} TwoSmallest(count: seq<nat>) returns (n1: nat, n2: nat)
    requires Alive(count) > 1
    ensures n1 == Smallest(count, -1, |count|) && n2 == Smallest(count, n1, |count|)
    ensures n1 != n2 && n1 < |count| && n2 < |count| && 0 < count[n1] <= count[n2]
    ensures forall i :: 0 <= i < |count| && i != n1 && count[i] > 0 ==> count[n2] <= count[i]
  {
    SmallestIs(count, -1, |count|);
    if Smallest(count, -1, |count|) == -1 { NoneAlive(count); }
    n1 := Smallest(count, -1, |count|);
    SmallestIs(count, n1, |count|);
    if Smallest(count, n1, |count|) == -1 {
      AliveUpdate(count, n1, 0);
      NoneAlive(count[n1 := 0]);
    }
    n2 := Smallest(count, n1, |count|);
  }

  // ------------------------------------------------------------ merging

  function CodeOf(i: int): int { if i < MAXNODE then i else MAXNODE - 1 - i }

  function SlotOf(e: int): int { if e < 0 then MAXNODE - 1 - e else e }

  /** Let slot i hang below node p. */
  function Hang(d: Dict, i: nat, p: int): (r: Dict)
    requires Sized(d) && i < SLOTS
    ensures Sized(r)
  {
    if i < MAXNODE then d.(parent := d.parent[i := p]) else d.(leaves := d.leaves[i - MAXNODE := p])
  }

  /** Make the current node the parent of slots n1 and n2. */
  function AddNode(d: Dict, n1: nat, n2: nat): (r: Dict)
    requires Sized(d) && d.cur >= 0 && n1 < SLOTS && n2 < SLOTS
    ensures Sized(r) && r.count == d.count && r.cur == d.cur
  {
    var node := d.(parent := d.parent[d.cur := MAXNODE], left := d.left[d.cur := CodeOf(n1)],
                   right := d.right[d.cur := CodeOf(n2)]);
    Hang(Hang(node, n1, d.cur), n2, d.cur)
  }

  predicate Mergeable(d: Dict) {
    && Sized(d) && d.cur >= 0
    && Smallest(d.count, -1, SLOTS) >= 0 && Smallest(d.count, Smallest(d.count, -1, SLOTS), SLOTS) >= 0
  }

  /** Give slots n1 and n2 a common parent that carries both counts. */
  function MergeSlots(d: Dict, n1: nat, n2: nat): (r: Dict)
    requires Sized(d) && d.cur >= 0 && n1 < SLOTS && n2 < SLOTS
    ensures Sized(r) && r.cur == d.cur - 1
  {
    AddNode(d, n1, n2).(count := d.count[d.cur := d.count[n1] + d.count[n2]][n1 := 0][n2 := 0], cur := d.cur - 1)
  }

  /** Merge the two smallest counts. */
  function Combine(d: Dict): (r: Dict)
    requires Mergeable(d)
    ensures Sized(r) && r.cur == d.cur - 1
  {
    var n1 := Smallest(d.count, -1, SLOTS);
    MergeSlots(d, n1, Smallest(d.count, n1, SLOTS))
  }

  lemma {:induction false} AliveMerged(c: seq<nat>, k: nat, n1: nat, n2: nat)
    requires k < |c| && n1 < |c| && n2 < |c| && n1 != n2 && c[k] == 0 && c[n1] > 0 && c[n2] > 0
    ensures Alive(c[k := c[n1] + c[n2]][n1 := 0][n2 := 0]) == Alive(c) - 1
  {
    var c1 := c[k := c[n1] + c[n2]];
    AliveUpdate(c, k, c[n1] + c[n2]);
    AliveUpdate(c1, n1, 0);
    AliveUpdate(c1[n1 := 0], n2, 0);
  }

  /** With two or more counts left there is a pair to merge, and merging leaves one count fewer. */
  lemma {:induction false} Twosome(d: Dict) returns (n1: nat, n2: nat)
    requires Sized(d) && d.cur >= 0 && Alive(d.count) > 1 && d.count[d.cur] == 0
    ensures Mergeable(d) && n1 == Smallest(d.count, -1, SLOTS) && n2 == Smallest(d.count, n1, SLOTS)
    ensures n1 != n2 && n1 < SLOTS && n2 < SLOTS && d.count[n1] > 0 && d.count[n2] > 0
    ensures Alive(Combine(d).count) == Alive(d.count) - 1
  {
    n1, n2 := TwoSmallest(d.count);
    AliveMerged(d.count, d.cur, n1, n2);
  }

  /** Merge until one of the n counts is left. */
  function MergeAll(d: Dict, n: nat): (r: Dict)
    requires Sized(d) && Alive(d.count) == n && d.cur >= n - 1
    requires forall i :: 0 <= i <= d.cur ==> d.count[i] == 0
    ensures Sized(r) && r.cur == if n > 1 then d.cur - (n - 1) else d.cur
    decreases n
  {
    if n <= 1 then d else
    assert Mergeable(d) && Alive(Combine(d).count) == n - 1 by { var n1, n2 := Twosome(d); }
    MergeAll(Combine(d), n - 1)
  }

  // --------------------------------------------------------- the links

  function Up(d: Dict, i: nat): int
    requires Sized(d) && i < SLOTS
  {
    if i < MAXNODE then d.parent[i] else d.leaves[i - MAXNODE]
  }

  /** What entry e of node n refers to hangs below n. */
  predicate Hangs(d: Dict, n: nat, e: int)
    requires Sized(d)
  {
    e < MAXNODE && n < SlotOf(e) < SLOTS && Up(d, SlotOf(e)) == n
  }

  predicate NodeOk(d: Dict, n: nat)
    requires Sized(d) && n < MAXNODE
  {
    Hangs(d, n, d.left[n]) && Hangs(d, n, d.right[n])
  }

  /** Slot i hangs below a node that refers to it. */
  predicate Attached(d: Dict, i: nat)
    requires Sized(d) && i < SLOTS
  {
    var p := Up(d, i);
    d.cur < p < MAXNODE && p < i && (d.left[p] == CodeOf(i) || d.right[p] == CodeOf(i))
  }

  predicate Settled(d: Dict, n: nat)
    requires Sized(d) && n < MAXNODE && NodeOk(d, n)
  {
    d.count[SlotOf(d.left[n])] == 0 && d.count[SlotOf(d.right[n])] == 0
  }

  predicate SlotOk(d: Dict, i: nat)
    requires Sized(d) && i < SLOTS
  {
    if d.count[i] > 0 then i < MAXNODE ==> d.parent[i] == MAXNODE else Attached(d, i)
  }

  /** Slots that take part: all nodes, and the symbols that occur. */
  predicate Used(base: seq<nat>, i: nat)
    requires |base| == SLOTS && i < SLOTS
  {
    i < MAXNODE || base[i] > 0
  }

  /** Halfway: every slot already merged is attached, every other one is not. */
  ghost predicate Growing(d: Dict, base: seq<nat>) {
    && Sized(d) && |base| == SLOTS
    && (forall i :: 0 <= i <= d.cur ==> d.count[i] == 0)
    && (forall i :: 0 <= i < SLOTS && !Used(base, i) ==> d.count[i] == 0)
    && (forall n :: d.cur < n < MAXNODE ==> NodeOk(d, n) && Settled(d, n))
    && (forall i :: d.cur < i < SLOTS && Used(base, i) ==> SlotOk(d, i))
  }

  /** Finished: every used slot but the root is attached. */
  ghost predicate Coded(d: Dict, base: seq<nat>) {
    && Sized(d) && |base| == SLOTS && d.cur + 1 < MAXNODE && d.parent[d.cur + 1] == MAXNODE
    && (forall n :: d.cur < n < MAXNODE ==> NodeOk(d, n))
    && (forall i :: d.cur + 1 < i < SLOTS && Used(base, i) ==> Attached(d, i))
  }

  /** r is d after slots n1 and n2 were hung below the node d.cur. */
  ghost predicate Combined(d: Dict, n1: nat, n2: nat, r: Dict) {
    && Sized(d) && Sized(r) && 0 <= d.cur < n1 < SLOTS && d.cur < n2 < SLOTS && n1 != n2 && r.cur == d.cur - 1
    && d.count[n1] > 0 && d.count[n2] > 0 && d.count[d.cur] == 0
    && r.left == d.left[d.cur := CodeOf(n1)] && r.right == d.right[d.cur := CodeOf(n2)]
    && r.count == d.count[d.cur := d.count[n1] + d.count[n2]][n1 := 0][n2 := 0]
    && Up(r, d.cur) == MAXNODE && Up(r, n1) == Up(r, n2) == d.cur
    && forall i {:trigger Up(r, i)} :: 0 <= i < SLOTS && i != n1 && i != n2 && i != d.cur ==> Up(r, i) == Up(d, i)
  }

  lemma {:induction false} CombineIs(d: Dict) returns (n1: nat, n2: nat)
    requires Sized(d) && d.cur >= 0 && Alive(d.count) > 1 && forall i :: 0 <= i <= d.cur ==> d.count[i] == 0
    ensures Mergeable(d) && n1 == Smallest(d.count, -1, SLOTS) && n2 == Smallest(d.count, n1, SLOTS)
    ensures Combined(d, n1, n2, Combine(d)) && Alive(Combine(d).count) == Alive(d.count) - 1
    ensures Combine(d).count[d.cur] > 0
  {
    n1, n2 := Twosome(d);
    SlotsMerged(d, n1, n2);
  }

  lemma {:induction false} SlotsMerged(d: Dict, n1: nat, n2: nat)
    requires Sized(d) && 0 <= d.cur && n1 < SLOTS && n2 < SLOTS && n1 != n2 && d.count[n1] > 0 && d.count[n2] > 0
    requires forall i :: 0 <= i <= d.cur ==> d.count[i] == 0
    ensures Combined(d, n1, n2, MergeSlots(d, n1, n2)) && MergeSlots(d, n1, n2).count[d.cur] > 0
  {
    assert n1 > d.cur && n2 > d.cur;
  }

  lemma {:induction false} NodeGrows(d: Dict, n1: nat, n2: nat, r: Dict, n: nat)
    requires Combined(d, n1, n2, r) && d.cur < n < MAXNODE && NodeOk(d, n) && Settled(d, n)
    ensures NodeOk(r, n) && Settled(r, n)
  {
  }

  lemma {:induction false} NewNodeGrows(d: Dict, n1: nat, n2: nat, r: Dict)
    requires Combined(d, n1, n2, r)
    ensures NodeOk(r, d.cur) && Settled(r, d.cur)
  {
    assert SlotOf(CodeOf(n1)) == n1 && SlotOf(CodeOf(n2)) == n2;
  }

  lemma {:induction false} SlotGrows(d: Dict, n1: nat, n2: nat, r: Dict, i: nat)
    requires Combined(d, n1, n2, r) && d.cur <= i < SLOTS && (i > d.cur ==> SlotOk(d, i))
    ensures SlotOk(r, i)
  {
    if i > d.cur && i != n1 && i != n2 { assert Up(r, i) == Up(d, i); }
  }

  lemma {:induction false} MergedGrows(d: Dict, base: seq<nat>, n1: nat, n2: nat, r: Dict)
    requires Growing(d, base) && Combined(d, n1, n2, r)
    ensures Growing(r, base)
  {
    forall n | r.cur < n < MAXNODE ensures NodeOk(r, n) && Settled(r, n) {
      if n > d.cur { NodeGrows(d, n1, n2, r, n); } else { NewNodeGrows(d, n1, n2, r); }
    }
    forall i | r.cur < i < SLOTS && Used(base, i) ensures SlotOk(r, i) {
      SlotGrows(d, n1, n2, r, i);
    }
  }

  lemma {:induction false} CombineGrows(d: Dict, base: seq<nat>)
    requires Growing(d, base) && d.cur >= 0 && Alive(d.count) > 1
    ensures Mergeable(d) && Growing(Combine(d), base)
  {
    var n1, n2 := CombineIs(d);
    MergedGrows(d, base, n1, n2, Combine(d));
  }

  lemma {:induction false} MergeAllGrows(d: Dict, n: nat, base: seq<nat>)
    requires Growing(d, base) && Alive(d.count) == n && d.cur >= n - 1
    ensures Growing(MergeAll(d, n), base) && Alive(MergeAll(d, n).count) == if n > 1 then 1 else n
    decreases n
  {
    if n > 1 {
      var n1, n2 := CombineIs(d);
      CombineGrows(d, base);
      MergeAllGrows(Combine(d), n - 1, base);
    }
  }
}
