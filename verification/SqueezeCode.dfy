/**
 The code a finished Squeeze dictionary stands for: the compressor climbs from
 a symbol to the root, the expander walks down again.
*/
module SqueezeCode {
  import opened SqueezeTree
  import opened SqueezeRle
  import opened Wrappers
  import opened Bits

  // ----------------------------------------------------------- analysing

  /** The counts after the codes s: symbol c is counted in slot MAXNODE + c. */
  function Counted(count: seq<nat>, s: seq<Code>): (r: seq<nat>)
    requires |count| == SLOTS
    ensures |r| == SLOTS
  {
    if s == [] then count else
    var r := Counted(count, s[..|s| - 1]);
    var k := MAXNODE + s[|s| - 1];
    r[k := r[k] + 1]
  }

  function Occurrences(s: seq<Code>, c: Code): nat {
    if s == [] then 0 else Occurrences(s[..|s| - 1], c) + if s[|s| - 1] == c then 1 else 0
  }

  lemma {:induction false} CountedIs(s: seq<Code>, i: nat)
    requires i < SLOTS
    ensures Counted(Repeat<nat>(0, SLOTS), s)[i] == if i < MAXNODE then 0 else Occurrences(s, i - MAXNODE)
  {
    if s != [] { CountedIs(s[..|s| - 1], i); }
  }

  lemma {:induction false} Occurs(s: seq<Code>, c: Code)
    ensures Occurrences(s, c) > 0 <==> c in s
  {
    if s != [] {
      var n := |s| - 1;
      Occurs(s[..n], c);
      assert s == s[..n] + [s[n]];
    }
  }

  /** The dictionary after counting, before any merging. */
  function Start(d: Dict, s: seq<Code>): (r: Dict)
    requires Sized(d)
    ensures Sized(r)
  {
    d.(count := Counted(Repeat<nat>(0, SLOTS), s), cur := MAXNODE - 1)
  }

  lemma {:induction false} NoNodesYet(count: seq<nat>, n: nat)
    requires n <= |count| && forall i :: 0 <= i < n ==> count[i] == 0
    ensures Alive(count) <= |count| - n
    decreases |count|
  {
    if n < |count| { NoNodesYet(count[..|count| - 1], n); } else { NoneAlive(count); }
  }

  lemma {:induction false} StartIs(d: Dict, s: seq<Code>)
    requires Sized(d)
    ensures forall i :: 0 <= i < MAXNODE ==> Start(d, s).count[i] == 0
    ensures Alive(Start(d, s).count) <= MAXLEAF
  {
    forall i | 0 <= i < MAXNODE ensures Start(d, s).count[i] == 0 { CountedIs(s, i); }
    NoNodesYet(Start(d, s).count, MAXNODE);
  }

  /** Make the nodes for the counts of d; a lone symbol gets one node of its own. */
  function Finish(d: Dict): (r: Dict)
    requires Sized(d) && d.cur == MAXNODE - 1 && Alive(d.count) <= MAXLEAF
    requires forall i :: 0 <= i < MAXNODE ==> d.count[i] == 0
    ensures Sized(r)
  {
    var n := Alive(d.count);
    if n == 1 then
      var n1 := Smallest(d.count, -1, SLOTS);
      if n1 < 0 then d else AddNode(d, n1, n1).(cur := d.cur - 1)
    else MergeAll(d, n)
  }

  /** The dictionary for the codes s. */
  function Analyze(d: Dict, s: seq<Code>): (r: Dict)
    requires Sized(d)
    ensures Sized(r)
  {
    StartIs(d, s);
    Finish(Start(d, s))
  }

  lemma {:induction false} NoOneAlive(count: seq<nat>, i: nat)
    requires Alive(count) == 0 && i < |count|
    ensures count[i] == 0
  {
    if i < |count| - 1 { NoOneAlive(count[..|count| - 1], i); }
  }

  lemma {:induction false} OneAlive(count: seq<nat>, r: nat, i: nat)
    requires Alive(count) == 1 && r < |count| && i < |count| && count[r] > 0 && i != r
    ensures count[i] == 0
  {
    AliveUpdate(count, r, 0);
    NoOneAlive(count[r := 0], i);
  }

  lemma {:induction false} MergeOnce(d: Dict, n: nat, base: seq<nat>)
    requires Growing(d, base) && Alive(d.count) == n > 1 && d.cur >= n - 1
    ensures Mergeable(d) && Growing(Combine(d), base) && Alive(Combine(d).count) == n - 1
    ensures Combine(d).count[d.cur] > 0 && MergeAll(d, n) == MergeAll(Combine(d), n - 1)
  {
    var n1, n2 := CombineIs(d);
    CombineGrows(d, base);
  }

  /** The last node made is the root. */
  lemma {:induction false} MergeAllRoot(d: Dict, n: nat, base: seq<nat>)
    requires Growing(d, base) && Alive(d.count) == n > 0 && d.cur >= n - 1
    requires n == 1 ==> d.cur + 1 < MAXNODE && d.count[d.cur + 1] > 0
    ensures MergeAll(d, n).cur + 1 < MAXNODE && MergeAll(d, n).count[MergeAll(d, n).cur + 1] > 0
    decreases n
  {
    if n > 1 {
      MergeOnce(d, n, base);
      hide *;
      MergeAllRoot(Combine(d), n - 1, base);
    }
  }

  lemma {:induction false} GrownIsCoded(d: Dict, base: seq<nat>)
    requires Growing(d, base) && d.cur + 1 < MAXNODE && d.count[d.cur + 1] > 0 && Alive(d.count) == 1
    ensures Coded(d, base)
  {
    assert SlotOk(d, d.cur + 1);
    forall i | d.cur + 1 < i < SLOTS && Used(base, i) ensures Attached(d, i) {
      OneAlive(d.count, d.cur + 1, i);
      assert SlotOk(d, i);
    }
  }

  lemma {:induction false} SingleIsCoded(d: Dict, s: seq<Code>)
    requires Sized(d) && Alive(Start(d, s).count) == 1
    ensures Coded(Analyze(d, s), Start(d, s).count) && Analyze(d, s).cur == MAXNODE - 2
  {
    var d1 := Start(d, s);
    StartIs(d, s);
    SmallestIs(d1.count, -1, SLOTS);
    var n1 := Smallest(d1.count, -1, SLOTS);
    if n1 == -1 { NoneAlive(d1.count); }
    var r := Analyze(d, s);
    assert SlotOf(CodeOf(n1)) == n1 && NodeOk(r, MAXNODE - 1);
    forall i | r.cur + 1 < i < SLOTS && Used(d1.count, i) ensures Attached(r, i) {
      if i != n1 { OneAlive(d1.count, n1, i); }
    }
  }

  lemma {:induction false} SomeAlive(s: seq<Code>)
    requires s != []
    ensures Alive(Counted(Repeat<nat>(0, SLOTS), s)) > 0
  {
    var k := MAXNODE + s[0];
    CountedIs(s, k);
    Occurs(s, s[0]);
    var count := Counted(Repeat<nat>(0, SLOTS), s);
    if Alive(count) == 0 { NoOneAlive(count, k); }
  }

  /** Whatever was counted, the finished dictionary reaches every symbol that occurs. */
  lemma {:induction false} AnalyzeCodes(d: Dict, s: seq<Code>)
    requires Sized(d) && s != []
    ensures Coded(Analyze(d, s), Start(d, s).count)
    ensures Analyze(d, s).cur >= MAXNODE - 1 - (MAXLEAF - 1)
  {
    var d1 := Start(d, s);
    var n := Alive(d1.count);
    StartIs(d, s);
    SomeAlive(s);
    if n == 1 {
      SingleIsCoded(d, s);
    } else {
      assert Growing(d1, d1.count);
      MergeAllGrows(d1, n, d1.count);
      MergeAllRoot(d1, n, d1.count);
      GrownIsCoded(MergeAll(d1, n), d1.count);
    }
  }

  /** All codes of s occur. */
  predicate AllUsed(base: seq<nat>, s: seq<Code>)
    requires |base| == SLOTS
  {
    s == [] || (AllUsed(base, s[..|s| - 1]) && Used(base, MAXNODE + s[|s| - 1]))
  }

  lemma {:induction false} AllUsedIs(base: seq<nat>, s: seq<Code>)
    requires |base| == SLOTS && forall i :: 0 <= i < |s| ==> Used(base, MAXNODE + s[i])
    ensures AllUsed(base, s)
  {
    if s != [] {
      AllUsedIs(base, s[..|s| - 1]);
    }
  }

  lemma {:induction false} AllUsedParts(base: seq<nat>, a: seq<Code>, b: seq<Code>)
    requires |base| == SLOTS && AllUsed(base, a + b)
    ensures AllUsed(base, a) && AllUsed(base, b)
  {
    if b == [] {
      assert a + b == a;
    } else {
      assert (a + b)[..|a + b| - 1] == a + b[..|b| - 1];
      AllUsedParts(base, a, b[..|b| - 1]);
    }
  }

  lemma {:induction false} UsedAt(base: seq<nat>, s: seq<Code>, i: nat)
    requires |base| == SLOTS && AllUsed(base, s) && i < |s|
    ensures Used(base, MAXNODE + s[i])
  {
    if i < |s| - 1 { UsedAt(base, s[..|s| - 1], i); }
  }

  lemma {:induction false} EveryCodeUsed(d0: Dict, s: seq<Code>)
    requires Sized(d0) && s != []
    ensures Coded(Analyze(d0, s), Start(d0, s).count)
    ensures AllUsed(Start(d0, s).count, s)
  {
    AnalyzeCodes(d0, s);
    forall i | 0 <= i < |s| ensures Used(Start(d0, s).count, MAXNODE + s[i]) {
      CountedIs(s, MAXNODE + s[i]);
      Occurs(s, s[i]);
    }
    AllUsedIs(Start(d0, s).count, s);
  }

  // -------------------------------------------------------------- paths

  /** The branches from the root down to slot i: false is left. */
  function Path(d: Dict, base: seq<nat>, i: nat): (r: seq<bool>)
    requires Coded(d, base) && d.cur < i < SLOTS && Used(base, i)
    decreases i
  {
    if i == d.cur + 1 then [] else
    assert Attached(d, i);
    var p := Up(d, i);
    Path(d, base, p) + [d.left[p] != CodeOf(i)]
  }

  /** No path is longer than the number of nodes. */
  lemma {:induction false} PathShort(d: Dict, base: seq<nat>, i: nat)
    requires Coded(d, base) && d.cur < i < SLOTS && Used(base, i)
    ensures |Path(d, base, i)| <= MAXNODE - 1 - d.cur
    ensures i < MAXNODE ==> |Path(d, base, i)| <= i - 1 - d.cur
    decreases i
  {
    if i > d.cur + 1 {
      assert Attached(d, i);
      PathShort(d, base, Up(d, i));
    }
  }

  /** The code of every symbol of s, one after the other. */
  function Encoded(d: Dict, base: seq<nat>, s: seq<Code>): seq<bool>
    requires Coded(d, base) && AllUsed(base, s)
  {
    if s == [] then [] else
    Encoded(d, base, s[..|s| - 1]) + Path(d, base, MAXNODE + s[|s| - 1])
  }

  /** The bit stream for the codes s, with the dictionary made for them. */
  ghost function Stream(d0: Dict, s: seq<Code>): seq<bool>
    requires Sized(d0) && s != []
  {
    EveryCodeUsed(d0, s);
    Encoded(Analyze(d0, s), Start(d0, s).count, s)
  }
}
