/**
 Weighted path lengths and Huffman's lower bound.

 A prefix code is described by its profile: the depth and weight of every
 leaf.  A profile is complete when it satisfies Kraft's equality, which is the
 case for every full binary tree.  Greedy(ws) is the total cost of merging the
 two smallest weights of ws again and again.
*/
module Huffman {
  import opened Bits


  datatype Item = Item(depth: nat, weight: nat)

  // ------------------------------------------------------- totals over items

  function Total(p: seq<Item>, f: Item -> int): int {
    if p == [] then 0 else f(p[0]) + Total(p[1..], f)
  }

  lemma {:induction false} TotalConcat(a: seq<Item>, b: seq<Item>, f: Item -> int)
    ensures Total(a + b, f) == Total(a, f) + Total(b, f)
  {
    if a == [] {
      assert a + b == b;
    } else {
      assert (a + b)[1..] == a[1..] + b;
      TotalConcat(a[1..], b, f);
    }
  }

  lemma {:induction false} TotalSplit(p: seq<Item>, i: nat, f: Item -> int)
    requires i < |p|
    ensures Total(p, f) == Total(p[..i], f) + f(p[i]) + Total(p[i + 1..], f)
  {
    assert p == p[..i] + p[i..];
    TotalConcat(p[..i], p[i..], f);
    assert p[i..][1..] == p[i + 1..];
  }

  lemma {:induction false} TotalUpdate(p: seq<Item>, i: nat, x: Item, f: Item -> int)
    requires i < |p|
    ensures Total(p[i := x], f) == Total(p, f) - f(p[i]) + f(x)
  {
    TotalSplit(p, i, f);
    TotalSplit(p[i := x], i, f);
    assert p[i := x][..i] == p[..i] && p[i := x][i + 1..] == p[i + 1..];
  }

  function Remove(p: seq<Item>, i: nat): (r: seq<Item>)
    requires i < |p|
    ensures |r| == |p| - 1
    ensures forall x :: x in r ==> x in p
  {
    p[..i] + p[i + 1..]
  }

  lemma {:induction false} TotalRemove(p: seq<Item>, i: nat, f: Item -> int)
    requires i < |p|
    ensures Total(Remove(p, i), f) == Total(p, f) - f(p[i])
  {
    TotalSplit(p, i, f);
    TotalConcat(p[..i], p[i + 1..], f);
  }

  // ------------------------------------------------------------- definitions

  function Share(m: nat): Item -> int {
    (x: Item) => if x.depth <= m then Pow2(m - x.depth) else 0
  }

  function Charge(): Item -> int {
    (x: Item) => x.depth * x.weight
  }

  /** The weighted path length of a profile. */
  function Cost(p: seq<Item>): int { Total(p, Charge()) }

  /** Kraft's equality, counted in units of depth m; no leaf is deeper than m. */
  ghost predicate Complete(p: seq<Item>, m: nat) {
    (forall x :: x in p ==> x.depth <= m) && Total(p, Share(m)) == Pow2(m)
  }

  function Weights(p: seq<Item>): multiset<nat> {
    multiset(WeightSeq(p))
  }

  function WeightSeq(p: seq<Item>): (r: seq<nat>)
    ensures |r| == |p| && forall i :: 0 <= i < |p| ==> r[i] == p[i].weight
  {
    seq(|p|, i requires 0 <= i < |p| => p[i].weight)
  }

  lemma {:induction false} MinExists(ws: multiset<nat>) returns (m: nat)
    requires |ws| > 0
    ensures m in ws && forall x :: x in ws ==> m <= x
    decreases |ws|
  {
    m :| m in ws;
    if |ws| > 1 {
      var rest := ws - multiset{m};
      var m' := MinExists(rest);
      if m' < m { m := m'; }
      forall x | x in ws ensures m <= x {
        assert x in rest || x == m || x in ws - rest;
      }
    } else {
      forall x | x in ws ensures m <= x {
        assert x == m || multiset{m, x} <= ws;
      }
    }
  }

  lemma MinThere(ws: multiset<nat>)
    requires |ws| > 0
    ensures exists m :: m in ws && forall x :: x in ws ==> m <= x
  {
    var m := MinExists(ws);
  }

  ghost function Min(ws: multiset<nat>): (m: nat)
    requires |ws| > 0
    ensures m in ws && forall x :: x in ws ==> m <= x
  {
    MinThere(ws);
    var m :| m in ws && forall x :: x in ws ==> m <= x;
    m
  }

  /** ws with two weights replaced by their sum. */
  ghost function Merge(ws: multiset<nat>, a: nat, b: nat): multiset<nat> {
    ws - multiset{a} - multiset{b} + multiset{a + b}
  }

  ghost predicate Lightest(ws: multiset<nat>, a: nat, b: nat) {
    && a in ws && b in ws - multiset{a}
    && (forall x :: x in ws ==> a <= x) && (forall x :: x in ws - multiset{a} ==> b <= x)
  }

  lemma {:induction false} LightestUnique(ws: multiset<nat>, a: nat, b: nat, a': nat, b': nat)
    requires Lightest(ws, a, b) && Lightest(ws, a', b')
    ensures a == a' && b == b'
  {
  }

  ghost function LightestPair(ws: multiset<nat>): (r: (nat, nat))
    requires |ws| >= 2
    ensures Lightest(ws, r.0, r.1)
  {
    (Min(ws), Min(ws - multiset{Min(ws)}))
  }

  /** What merging the two smallest weights, again and again, costs in total. */
  ghost function Greedy(ws: multiset<nat>): nat
    decreases |ws|
  {
    if |ws| <= 1 then 0 else
    var (a, b) := LightestPair(ws);
    a + b + Greedy(Merge(ws, a, b))
  }

  lemma {:induction false} GreedyStep(ws: multiset<nat>, a: nat, b: nat)
    requires Lightest(ws, a, b) && |ws| >= 2
    ensures Greedy(ws) == a + b + Greedy(Merge(ws, a, b))
  {
    var p := LightestPair(ws);
    LightestUnique(ws, a, b, p.0, p.1);
  }

  // -------------------------------------------------------- the lower bound

  lemma {:induction false} EvenAbove(p: seq<Item>, m: nat)
    requires forall x :: x in p ==> x.depth < m
    ensures Total(p, Share(m)) % 2 == 0
  {
    if p != [] {
      EvenAbove(p[1..], m);
      assert p[0] in p;
      assert Pow2(m - p[0].depth) == 2 * Pow2(m - p[0].depth - 1);
    }
  }

  lemma {:induction false} ShareDoubles(p: seq<Item>, m: nat)
    requires forall x :: x in p ==> x.depth <= m
    ensures Total(p, Share(m + 1)) == 2 * Total(p, Share(m))
  {
    if p != [] {
      assert p[0] in p;
      ShareDoubles(p[1..], m);
    }
  }

  /** In a complete profile of two or more leaves, some deepest leaf is not alone at its depth. */
  lemma {:induction false} DeepestPair(p: seq<Item>, m: nat) returns (i: nat, j: nat, d: nat)
    requires Complete(p, m) && |p| >= 2
    ensures i < |p| && j < |p| && i != j && p[i].depth == p[j].depth == d > 0
    ensures Complete(p, d)
    decreases m
  {
    if forall x :: x in p ==> x.depth < m {
      ShareDoubles(p, m - 1);
      i, j, d := DeepestPair(p, m - 1);
    } else {
      d := m;
      i :| 0 <= i < |p| && p[i].depth == m;
      TotalRemove(p, i, Share(m));
      var rest := Remove(p, i);
      if m == 0 {
        assert p[0] in p && p[1] in p;
        ZeroDepths(p);
      }
      assert Pow2(m) == 2 * Pow2(m - 1);
      if forall x :: x in rest ==> x.depth < m {
        EvenAbove(rest, m);
        assert false;
      } else {
        var k :| 0 <= k < |rest| && rest[k].depth == m;
        j := if k < i then k else k + 1;
      }
    }
  }

  lemma {:induction false} ZeroDepths(p: seq<Item>)
    requires forall x :: x in p ==> x.depth == 0
    ensures Total(p, Share(0)) == |p|
  {
    if p != [] {
      assert p[0] in p;
      ZeroDepths(p[1..]);
    }
  }

  /** Exchange the weights of two leaves. */
  function Exchange(p: seq<Item>, x: nat, y: nat): (r: seq<Item>)
    requires x < |p| && y < |p|
    ensures |r| == |p|
    ensures forall i :: 0 <= i < |p| ==> r[i].depth == p[i].depth
    ensures forall i :: 0 <= i < |p| ==>
              r[i].weight == if i == x then p[y].weight else if i == y then p[x].weight else p[i].weight
  {
    var (wx, wy) := (p[x].weight, p[y].weight);
    p[x := p[x].(weight := wy)][y := p[y].(weight := wx)]
  }

  /** Giving a deeper leaf the smaller weight never costs more. */
  lemma {:induction false} ExchangeCost(p: seq<Item>, x: nat, y: nat)
    requires x < |p| && y < |p| && p[x].depth <= p[y].depth && p[x].weight <= p[y].weight
    ensures Cost(Exchange(p, x, y)) <= Cost(p)
    ensures Weights(Exchange(p, x, y)) == Weights(p)
  {
    var (wx, wy) := (p[x].weight, p[y].weight);
    var q := p[x := p[x].(weight := wy)];
    TotalUpdate(p, x, p[x].(weight := wy), Charge());
    if x != y {
      TotalUpdate(q, y, p[y].(weight := wx), Charge());
      Rearrange(p[x].depth, p[y].depth, wx, wy);
    } else {
      assert Exchange(p, x, y) == p;
    }
    ExchangeWeights(p, x, y);
  }

  lemma {:induction false} Rearrange(dx: int, dy: int, wx: int, wy: int)
    requires dx <= dy && wx <= wy
    ensures dx * wy + dy * wx <= dx * wx + dy * wy
  {
    var d, w := dy - dx, wy - wx;
    assert 0 <= d * w;
    assert dx * wx + dy * wy - dx * wy - dy * wx == d * w;
  }

  lemma {:induction false} ExchangeWeights(p: seq<Item>, x: nat, y: nat)
    requires x < |p| && y < |p|
    ensures Weights(Exchange(p, x, y)) == Weights(p)
  {
    var ws := WeightSeq(p);
    assert WeightSeq(Exchange(p, x, y)) == ws[x := ws[y]][y := ws[x]];
  }

  lemma {:induction false} ExchangeComplete(p: seq<Item>, x: nat, y: nat, m: nat)
    requires x < |p| && y < |p| && Complete(p, m)
    ensures Complete(Exchange(p, x, y), m)
  {
    var (wx, wy) := (p[x].weight, p[y].weight);
    var q := p[x := p[x].(weight := wy)];
    TotalUpdate(p, x, p[x].(weight := wy), Share(m));
    TotalUpdate(q, y, q[y].(weight := wx), Share(m));
    var r := Exchange(p, x, y);
    forall e | e in r ensures e.depth <= m {
      var i :| 0 <= i < |r| && r[i] == e;
      assert p[i] in p;
    }
  }

  /** Replace two siblings by their parent, which is one level up and carries both weights. */
  function Join(p: seq<Item>, i: nat, j: nat): (r: seq<Item>)
    requires i < j < |p| && p[i].depth > 0
    ensures |r| == |p| - 1
  {
    Remove(Remove(p, j), i) + [Item(p[i].depth - 1, p[i].weight + p[j].weight)]
  }

  lemma {:induction false} JoinTotal(p: seq<Item>, i: nat, j: nat, f: Item -> int)
    requires i < j < |p| && p[i].depth > 0
    ensures Total(Join(p, i, j), f)
         == Total(p, f) - f(p[i]) - f(p[j]) + f(Item(p[i].depth - 1, p[i].weight + p[j].weight))
  {
    var up := Item(p[i].depth - 1, p[i].weight + p[j].weight);
    TotalConcat(Remove(Remove(p, j), i), [up], f);
    TotalRemove(Remove(p, j), i, f);
    TotalRemove(p, j, f);
    assert Total([up], f) == f(up) + Total([up][1..], f);
  }

  lemma {:induction false} RemoveOne(w: seq<nat>, i: nat)
    requires i < |w|
    ensures w[i] in multiset(w) && multiset(w[..i] + w[i + 1..]) == multiset(w) - multiset{w[i]}
  {
    var u := w[..i] + w[i + 1..];
    assert w == w[..i] + [w[i]] + w[i + 1..];
    assert multiset(w) == multiset(u) + multiset{w[i]};
  }

  lemma {:induction false} RemoveWeights(p: seq<Item>, i: nat)
    requires i < |p|
    ensures p[i].weight in Weights(p) && Weights(Remove(p, i)) == Weights(p) - multiset{p[i].weight}
  {
    var w := WeightSeq(p);
    RemoveOne(w, i);
    assert WeightSeq(Remove(p, i)) == w[..i] + w[i + 1..];
  }

  lemma {:induction false} JoinWeights(p: seq<Item>, i: nat, j: nat)
    requires i < j < |p| && p[i].depth > 0
    ensures Weights(Join(p, i, j)) == Merge(Weights(p), p[i].weight, p[j].weight)
  {
    var u := Remove(p, j);
    var v := Remove(u, i);
    RemoveWeights(p, j);
    RemoveWeights(u, i);
    var w := p[i].weight + p[j].weight;
    assert WeightSeq(Join(p, i, j)) == WeightSeq(v) + [w];
    SwapRemovals(Weights(p), p[i].weight, p[j].weight);
  }

  lemma {:induction false} SwapRemovals(ws: multiset<nat>, a: nat, b: nat)
    ensures ws - multiset{b} - multiset{a} == ws - multiset{a} - multiset{b}
  {
  }

  lemma {:induction false} LightestAt(p: seq<Item>, ws: multiset<nat>, w: nat) returns (i: nat)
    requires w in ws && ws <= Weights(p)
    ensures i < |p| && p[i].weight == w
  {
    assert w in WeightSeq(p);
    i :| 0 <= i < |p| && WeightSeq(p)[i] == w;
  }

  /** Some optimal rearrangement has the two smallest weights on a deepest pair. */
  lemma {:induction false} LightestDeepest(p: seq<Item>, i: nat, j: nat, m: nat) returns (q: seq<Item>)
    requires Complete(p, m) && i < |p| && j < |p| && i != j && p[i].depth == p[j].depth == m
    ensures |q| == |p| && Complete(q, m) && Cost(q) <= Cost(p) && Weights(q) == Weights(p)
    ensures q[i].depth == q[j].depth == m
    ensures Lightest(Weights(p), q[i].weight, q[j].weight)
  {
    var ws := Weights(p);
    var a := Min(ws);
    var x := LightestAt(p, ws, a);
    assert p[x] in p && WeightSeq(p)[i] in ws;
    q := Exchange(p, x, i);
    ExchangeCost(p, x, i);
    ExchangeComplete(p, x, i, m);

    RestWeights(q, i, j);
    var b := Min(ws - multiset{a});
    var y := SecondLightestAt(q, i, b);
    assert q[y] in q;
    ExchangeCost(q, y, j);
    ExchangeComplete(q, y, j, m);
    q := Exchange(q, y, j);
  }

  lemma {:induction false} RestWeights(q: seq<Item>, i: nat, j: nat)
    requires i < |q| && j < |q| && i != j
    ensures q[j].weight in Weights(q) - multiset{q[i].weight}
  {
    RemoveWeights(q, i);
    var r := Remove(q, i);
    var k := if j < i then j else j - 1;
    assert r[k] == q[j] && WeightSeq(r)[k] == q[j].weight;
  }

  lemma {:induction false} SecondLightestAt(q: seq<Item>, i: nat, b: nat) returns (y: nat)
    requires i < |q| && b in Weights(q) - multiset{q[i].weight}
    ensures y < |q| && y != i && q[y].weight == b
  {
    RemoveWeights(q, i);
    var r := Remove(q, i);
    assert b in WeightSeq(r);
    var k :| 0 <= k < |r| && WeightSeq(r)[k] == b;
    y := if k < i then k else k + 1;
  }

  lemma {:induction false} JoinCost(p: seq<Item>, i: nat, j: nat)
    requires i < j < |p| && p[i].depth == p[j].depth > 0
    ensures Cost(p) == Cost(Join(p, i, j)) + p[i].weight + p[j].weight
  {
    JoinTotal(p, i, j, Charge());
    OneLevelUp(p[i].depth, p[i].weight, p[j].weight);
  }

  lemma {:induction false} OneLevelUp(d: int, a: int, b: int)
    ensures d * a + d * b == (d - 1) * (a + b) + a + b
  {
  }

  lemma {:induction false} JoinComplete(p: seq<Item>, i: nat, j: nat, m: nat)
    requires i < j < |p| && p[i].depth == p[j].depth == m > 0 && Complete(p, m)
    ensures Complete(Join(p, i, j), m)
  {
    JoinTotal(p, i, j, Share(m));
    assert Pow2(1) == 2 * Pow2(0);
    var r := Join(p, i, j);
    forall x | x in r ensures x.depth <= m {
      if x != Item(p[i].depth - 1, p[i].weight + p[j].weight) { assert x in p; }
    }
  }

  /** One joining step: the joined profile is complete, smaller, and no less ahead of greedy merging. */
  lemma {:induction false} LowerBoundStep(p: seq<Item>, m: nat) returns (r: seq<Item>, d: nat)
    requires Complete(p, m) && |p| >= 2
    ensures Complete(r, d) && |r| == |p| - 1
    ensures Cost(p) - Greedy(Weights(p)) >= Cost(r) - Greedy(Weights(r))
  {
    var i, j, dd := DeepestPair(p, m);
    if j < i { i, j := j, i; }
    d := dd;
    var q := LightestDeepest(p, i, j, d);
    assert |Weights(p)| == |p|;
    JoinCost(q, i, j);
    JoinComplete(q, i, j, d);
    JoinWeights(q, i, j);
    GreedyStep(Weights(p), q[i].weight, q[j].weight);
    r := Join(q, i, j);
  }

  /** No complete prefix code beats greedy merging. */
  lemma {:induction false} LowerBound(p: seq<Item>, m: nat)
    requires Complete(p, m)
    ensures Cost(p) >= Greedy(Weights(p))
    decreases |p|
  {
    if |p| <= 1 {
      assert |Weights(p)| == |p|;
      if p != [] {
        assert p[1..] == [];
        assert Cost(p) == p[0].depth * p[0].weight + Total(p[1..], Charge());
      }
    } else {
      var r, d := LowerBoundStep(p, m);
      LowerBound(r, d);
    }
  }

  // ------------------------------------------------------------- code trees

  datatype Tree = Leaf(sym: int) | Node(left: Tree, right: Tree)

  /** Symbol s weighs counts[s]. */
  function WeightOf(counts: seq<nat>): int -> nat {
    (s: int) => if 0 <= s < |counts| then counts[s] else 0
  }

  /** The depth and weight of every leaf of t, whose root is at depth d. */
  function Profile(t: Tree, w: int -> nat, d: nat): (p: seq<Item>)
    ensures p != []
  {
    match t
    case Leaf(s) => [Item(d, w(s))]
    case Node(l, r) => Profile(l, w, d + 1) + Profile(r, w, d + 1)
  }

  function PathLength(t: Tree, w: int -> nat): int { Cost(Profile(t, w, 0)) }

  function Weight(t: Tree, w: int -> nat): nat {
    match t
    case Leaf(s) => w(s)
    case Node(l, r) => Weight(l, w) + Weight(r, w)
  }

  /** The weights of all inner nodes together. */
  function Inner(t: Tree, w: int -> nat): nat {
    match t
    case Leaf(_) => 0
    case Node(l, r) => Weight(t, w) + Inner(l, w) + Inner(r, w)
  }

  function LeafWeights(t: Tree, w: int -> nat): multiset<nat> {
    match t
    case Leaf(s) => multiset{w(s)}
    case Node(l, r) => LeafWeights(l, w) + LeafWeights(r, w)
  }

  function Height(t: Tree): nat {
    match t
    case Leaf(_) => 0
    case Node(l, r) => 1 + if Height(l) > Height(r) then Height(l) else Height(r)
  }

  lemma {:induction false} ProfileCost(t: Tree, w: int -> nat, d: nat)
    ensures Cost(Profile(t, w, d)) == d * Weight(t, w) + Inner(t, w)
  {
    match t
    case Leaf(s) =>
      var p := Profile(t, w, d);
      assert Cost(p) == p[0].depth * p[0].weight + Total(p[1..], Charge());
    case Node(l, r) =>
      TotalConcat(Profile(l, w, d + 1), Profile(r, w, d + 1), Charge());
      ProfileCost(l, w, d + 1);
      ProfileCost(r, w, d + 1);
      OneLevelUp(d + 1, Weight(l, w), Weight(r, w));
  }

  lemma {:induction false} ProfileWeights(t: Tree, w: int -> nat, d: nat)
    ensures Weights(Profile(t, w, d)) == LeafWeights(t, w)
  {
    match t
    case Leaf(s) =>
      assert WeightSeq(Profile(t, w, d)) == [w(s)];
    case Node(l, r) =>
      ProfileWeights(l, w, d + 1);
      ProfileWeights(r, w, d + 1);
      var a, b := Profile(l, w, d + 1), Profile(r, w, d + 1);
      assert WeightSeq(a + b) == WeightSeq(a) + WeightSeq(b);
  }

  lemma {:induction false} ProfileShares(t: Tree, w: int -> nat, d: nat, m: nat)
    requires d + Height(t) <= m
    ensures Total(Profile(t, w, d), Share(m)) == Pow2(m - d)
    ensures forall x :: x in Profile(t, w, d) ==> x.depth <= m
  {
    match t
    case Leaf(s) =>
      var p := Profile(t, w, d);
      assert Total(p, Share(m)) == Share(m)(p[0]) + Total(p[1..], Share(m));
    case Node(l, r) =>
      TotalConcat(Profile(l, w, d + 1), Profile(r, w, d + 1), Share(m));
      ProfileShares(l, w, d + 1, m);
      ProfileShares(r, w, d + 1, m);
  }

  // ------------------------------------------------- incomplete codes as well

  /** Kraft's inequality, counted in units of depth m: it holds for the lengths of every prefix code. */
  ghost predicate Kraft(p: seq<Item>, m: nat) {
    (forall x :: x in p ==> x.depth <= m) && Total(p, Share(m)) <= Pow2(m)
  }

  function Depths(p: seq<Item>): nat { if p == [] then 0 else p[0].depth + Depths(p[1..]) }

  lemma {:induction false} DepthsUpdate(p: seq<Item>, i: nat, x: Item)
    requires i < |p|
    ensures Depths(p[i := x]) == Depths(p) - p[i].depth + x.depth
  {
    if i > 0 {
      DepthsUpdate(p[1..], i - 1, x);
      assert p[i := x][1..] == p[1..][i - 1 := x];
    } else {
      assert p[i := x][1..] == p[1..];
    }
  }

  lemma {:induction false} OneUp(m: nat, w: nat)
    requires m > 0
    ensures Share(m)(Item(m, w)) == 1 && Share(m)(Item(m - 1, w)) == 2 && Charge()(Item(m - 1, w)) <= Charge()(Item(m, w))
  {
    assert Pow2(1) == 2 * Pow2(0) && Pow2(0) == 1;
    assert (m - 1) * w <= m * w;
  }

  lemma {:induction false} SameWeights(p: seq<Item>, i: nat, x: Item)
    requires i < |p| && x.weight == p[i].weight
    ensures Weights(p[i := x]) == Weights(p)
  {
    assert WeightSeq(p[i := x]) == WeightSeq(p);
  }

  /** A deepest leaf of an incomplete code can be moved up. */
  lemma {:induction false} Shorten(p: seq<Item>, m: nat, i: nat) returns (r: seq<Item>)
    requires Kraft(p, m) && Total(p, Share(m)) < Pow2(m) && i < |p| && p[i].depth == m > 0
    ensures Kraft(r, m) && Depths(r) < Depths(p) && Weights(r) == Weights(p) && Cost(r) <= Cost(p)
  {
    hide Total, Share, Charge, Pow2, Depths, WeightSeq;
    var x := Item(m - 1, p[i].weight);
    r := p[i := x];
    TotalUpdate(p, i, x, Share(m));
    TotalUpdate(p, i, x, Charge());
    DepthsUpdate(p, i, x);
    OneUp(m, p[i].weight);
    SameWeights(p, i, x);
  }

  /** Greedy merging is no dearer than any code that satisfies Kraft's inequality. */
  lemma {:induction false} KraftBound(p: seq<Item>, m: nat)
    requires Kraft(p, m)
    ensures Cost(p) >= Greedy(Weights(p))
    decreases Depths(p), m
  {
    if Total(p, Share(m)) == Pow2(m) {
      LowerBound(p, m);
    } else if m == 0 {
      ZeroDepths(p);
      assert |p| == 0;
    } else if i :| 0 <= i < |p| && p[i].depth == m {
      var r := Shorten(p, m, i);
      KraftBound(r, m);
    } else {
      ShareDoubles(p, m - 1);
      KraftBound(p, m - 1);
    }
  }

  // ------------------------------------------------------------ prefix codes

  predicate IsPrefix(a: seq<bool>, b: seq<bool>) { |a| <= |b| && b[..|a|] == a }

  /** No word is a prefix of another. */
  predicate PrefixFree(words: seq<seq<bool>>) {
    words == [] ||
    ((forall y :: y in words[1..] ==> !IsPrefix(words[0], y) && !IsPrefix(y, words[0])) && PrefixFree(words[1..]))
  }

  /** The profile of a code: word i for a symbol of weight ws[i]. */
  function Items(words: seq<seq<bool>>, ws: seq<nat>): (p: seq<Item>)
    requires |words| == |ws|
    ensures |p| == |words|
  {
    if words == [] then [] else [Item(|words[0]|, ws[0])] + Items(words[1..], ws[1..])
  }

  /** What follows the first bit, in the words that start with b. */
  function Tails(words: seq<seq<bool>>, b: bool): (r: seq<seq<bool>>)
    requires forall y :: y in words ==> y != []
    ensures forall y :: y in r ==> [b] + y in words
  {
    if words == [] then [] else
    assert words[0] in words && forall y :: y in words[1..] ==> y in words;
    var rest := Tails(words[1..], b);
    if words[0][0] == b then
      assert [b] + words[0][1..] == words[0];
      [words[0][1..]] + rest
    else rest
  }

  lemma {:induction false} PrefixTails(b: bool, x: seq<bool>, y: seq<bool>)
    ensures IsPrefix([b] + x, [b] + y) <==> IsPrefix(x, y)
  {
    if IsPrefix([b] + x, [b] + y) { assert ([b] + y)[..1 + |x|][1..] == y[..|x|]; }
    if IsPrefix(x, y) { assert ([b] + y)[..1 + |x|] == [b] + y[..|x|]; }
  }

  lemma {:induction false} TailsFree(words: seq<seq<bool>>, b: bool)
    requires PrefixFree(words) && forall y :: y in words ==> y != []
    ensures PrefixFree(Tails(words, b))
  {
    if words != [] {
      assert words[0] in words && forall y :: y in words[1..] ==> y in words;
      TailsFree(words[1..], b);
      if words[0][0] == b {
        var x, rest := words[0][1..], Tails(words[1..], b);
        assert [b] + x == words[0];
        forall y | y in rest ensures !IsPrefix(x, y) && !IsPrefix(y, x) {
          assert [b] + y in words[1..];
          PrefixTails(b, x, y);
          PrefixTails(b, y, x);
        }
        assert ([x] + rest)[1..] == rest;
      }
    }
  }

  /** The share of the tree, counted in units of depth m, that the words take. */
  function Shares(words: seq<seq<bool>>, m: nat): nat
    requires forall y :: y in words ==> |y| <= m
  {
    if words == [] then 0 else
    assert words[0] in words && forall y :: y in words[1..] ==> y in words;
    Pow2(m - |words[0]|) + Shares(words[1..], m)
  }

  lemma {:induction false} TailsShort(words: seq<seq<bool>>, b: bool, m: nat)
    requires m > 0 && forall y :: y in words ==> y != [] && |y| <= m
    ensures forall y :: y in Tails(words, b) ==> |y| <= m - 1
  {
    forall y | y in Tails(words, b) ensures |y| <= m - 1 { assert [b] + y in words; }
  }

  lemma {:induction false} SharesSplit(words: seq<seq<bool>>, m: nat)
    requires m > 0 && forall y :: y in words ==> y != [] && |y| <= m
    ensures (forall y :: y in Tails(words, false) ==> |y| <= m - 1) && (forall y :: y in Tails(words, true) ==> |y| <= m - 1)
    ensures Shares(words, m) == Shares(Tails(words, false), m - 1) + Shares(Tails(words, true), m - 1)
  {
    TailsShort(words, false, m);
    TailsShort(words, true, m);
    if words != [] {
      assert words[0] in words && forall y :: y in words[1..] ==> y in words;
      SharesSplit(words[1..], m);
      var x, b := words[0][1..], words[0][0];
      assert ([x] + Tails(words[1..], b))[1..] == Tails(words[1..], b);
    }
  }

  /** A prefix code takes no more than the whole tree. */
  lemma {:induction false} PrefixShares(words: seq<seq<bool>>, m: nat)
    requires PrefixFree(words) && forall y :: y in words ==> |y| <= m
    ensures Shares(words, m) <= Pow2(m)
    decreases m, |words|
  {
    if [] in words {
      EmptyWordAlone(words);
      assert words[0] in words && words[1..] == [];
    } else if m == 0 {
      NoBits(words);
    } else {
      SharesSplit(words, m);
      TailsFree(words, false);
      TailsFree(words, true);
      PrefixShares(Tails(words, false), m - 1);
      PrefixShares(Tails(words, true), m - 1);
    }
  }

  lemma {:induction false} NoBits(words: seq<seq<bool>>)
    requires forall y :: y in words ==> |y| <= 0
    ensures words == [] || [] in words
  {
    if words != [] { assert words[0] in words && words[0] == []; }
  }

  lemma {:induction false} EmptyWordAlone(words: seq<seq<bool>>)
    requires PrefixFree(words) && [] in words
    ensures |words| == 1
  {
    if |words| > 1 {
      if words[0] == [] {
        assert words[1] in words[1..] && IsPrefix([], words[1]);
      } else {
        assert [] in words[1..] && IsPrefix([], words[0]);
      }
    }
  }

  lemma {:induction false} FirstItem(x: Item, p: seq<Item>, m: nat)
    requires x.depth <= m
    ensures Total([x] + p, Share(m)) == Pow2(m - x.depth) + Total(p, Share(m))
  {
    assert ([x] + p)[1..] == p;
  }

  lemma {:induction false} ItemsShare(words: seq<seq<bool>>, ws: seq<nat>, m: nat)
    requires |words| == |ws| && forall y :: y in words ==> |y| <= m
    ensures Total(Items(words, ws), Share(m)) == Shares(words, m)
    ensures forall x :: x in Items(words, ws) ==> x.depth <= m
  {
    hide Total, Share, Pow2;
    if words != [] {
      assert words[0] in words && forall y :: y in words[1..] ==> y in words;
      ItemsShare(words[1..], ws[1..], m);
      FirstItem(Item(|words[0]|, ws[0]), Items(words[1..], ws[1..]), m);
    } else {
      NoItems(m);
    }
  }

  lemma {:induction false} NoItems(m: nat)
    ensures Total([], Share(m)) == 0
  {
  }

  lemma {:induction false} ItemsWeights(words: seq<seq<bool>>, ws: seq<nat>)
    requires |words| == |ws|
    ensures WeightSeq(Items(words, ws)) == ws
  {
    if words != [] {
      ItemsWeights(words[1..], ws[1..]);
      assert WeightSeq(Items(words, ws)) == [ws[0]] + WeightSeq(Items(words[1..], ws[1..]));
    }
  }

  function LongestWord(words: seq<seq<bool>>): (m: nat)
    ensures forall y :: y in words ==> |y| <= m
  {
    if words == [] then 0 else
    var m := LongestWord(words[1..]);
    if |words[0]| > m then |words[0]| else m
  }

  /** Every prefix code satisfies Kraft's inequality. */
  lemma {:induction false} PrefixCodeIsKraft(words: seq<seq<bool>>, ws: seq<nat>)
    requires |words| == |ws| && PrefixFree(words)
    ensures Kraft(Items(words, ws), LongestWord(words)) && Weights(Items(words, ws)) == multiset(ws)
  {
    hide PrefixFree, Items, Shares, Share, Total, LongestWord, WeightSeq;
    var m := LongestWord(words);
    PrefixShares(words, m);
    ItemsShare(words, ws, m);
    ItemsWeights(words, ws);
  }

  // --------------------------------------------------------- each symbol once

  /** How often symbol c occurs among the leaves. */
  function Occ(t: Tree, c: int): nat {
    match t
    case Leaf(s) => if s == c then 1 else 0
    case Node(l, r) => Occ(l, c) + Occ(r, c)
  }

  /** The weights of the leaves with symbols below n. */
  function WeightsUpTo(t: Tree, w: int -> nat, n: int): multiset<nat> {
    match t
    case Leaf(s) => if s < n then multiset{w(s)} else multiset{}
    case Node(l, r) => WeightsUpTo(l, w, n) + WeightsUpTo(r, w, n)
  }

  predicate SymbolsIn(t: Tree, n: nat) {
    match t
    case Leaf(s) => 0 <= s < n
    case Node(l, r) => SymbolsIn(l, n) && SymbolsIn(r, n)
  }

  lemma {:induction false} WeightsUpToMore(t: Tree, w: int -> nat, n: int, v: nat)
    ensures WeightsUpTo(t, w, n + 1)[v] == WeightsUpTo(t, w, n)[v] + if v == w(n) then Occ(t, n) else 0
  {
    match t
    case Leaf(s) =>
    case Node(l, r) =>
      WeightsUpToMore(l, w, n, v);
      WeightsUpToMore(r, w, n, v);
  }

  lemma {:induction false} WeightsUpToAll(t: Tree, w: int -> nat, n: nat)
    requires SymbolsIn(t, n)
    ensures WeightsUpTo(t, w, n) == LeafWeights(t, w) && WeightsUpTo(t, w, 0) == multiset{}
  {
    match t
    case Leaf(s) =>
    case Node(l, r) =>
      WeightsUpToAll(l, w, n);
      WeightsUpToAll(r, w, n);
  }

  lemma {:induction false} LastOne(ws: seq<nat>, v: nat)
    requires ws != []
    ensures multiset(ws)[v] == multiset(ws[..|ws| - 1])[v] + if v == ws[|ws| - 1] then 1 else 0
  {
    assert ws == ws[..|ws| - 1] + [ws[|ws| - 1]];
  }

  lemma {:induction false} UpToIs(t: Tree, w: int -> nat, ws: seq<nat>, v: nat)
    requires (forall c :: 0 <= c < |ws| ==> Occ(t, c) == 1 && w(c) == ws[c]) && WeightsUpTo(t, w, 0) == multiset{}
    ensures WeightsUpTo(t, w, |ws|)[v] == multiset(ws)[v]
    decreases |ws|
  {
    hide WeightsUpTo, Occ;
    if ws != [] {
      var n := |ws| - 1;
      UpToIs(t, w, ws[..n], v);
      LastOne(ws, v);
      WeightsUpToMore(t, w, n, v);
    }
  }

  /** If every symbol is at one leaf, the weights of the leaves are those of the symbols. */
  lemma {:induction false} OnceEach(t: Tree, w: int -> nat, ws: seq<nat>)
    requires SymbolsIn(t, |ws|) && forall c :: 0 <= c < |ws| ==> Occ(t, c) == 1 && w(c) == ws[c]
    ensures LeafWeights(t, w) == multiset(ws)
  {
    hide WeightsUpTo, Occ, LeafWeights;
    WeightsUpToAll(t, w, |ws|);
    forall v ensures WeightsUpTo(t, w, |ws|)[v] == multiset(ws)[v] { UpToIs(t, w, ws, v); }
  }

  /** A tree whose inner nodes cost no more than greedy merging is optimal among all prefix codes. */
  lemma {:induction false} GreedyIsOptimal(t: Tree, w: int -> nat, p: seq<Item>, m: nat)
    requires Inner(t, w) == Greedy(LeafWeights(t, w))
    requires Kraft(p, m) && Weights(p) == LeafWeights(t, w)
    ensures PathLength(t, w) <= Cost(p)
  {
    ProfileCost(t, w, 0);
    KraftBound(p, m);
  }

  /** ... and so among all full binary trees over the same leaf weights. */
  lemma {:induction false} GreedyIsOptimalTree(t: Tree, w: int -> nat, t': Tree)
    requires Inner(t, w) == Greedy(LeafWeights(t, w)) && LeafWeights(t', w) == LeafWeights(t, w)
    ensures PathLength(t, w) <= PathLength(t', w)
  {
    var p, m := TreeIsComplete(t', w);
    GreedyIsOptimal(t, w, p, m);
  }

  /** Every full binary tree is a complete prefix code. */
  lemma {:induction false} TreeIsComplete(t: Tree, w: int -> nat) returns (p: seq<Item>, m: nat)
    ensures Complete(p, m) && Weights(p) == LeafWeights(t, w) && Cost(p) == PathLength(t, w)
  {
    p, m := Profile(t, w, 0), Height(t);
    ProfileShares(t, w, 0, m);
    ProfileWeights(t, w, 0);
  }
}
