/** Moving the options in front of the arguments that are not options, in place. */
module GetoptExchange {
  /** Where position k of the rotated sequence comes from. */
  function RotatedFrom(b: nat, m: nat, t: nat, k: nat): nat
    requires b <= m <= t
  {
    if b <= k < b + (t - m) then m + (k - b) else if b + (t - m) <= k < t then k - (t - m) else k
  }

  /** s with the segments from b to m and from m to t in the other order. */
  function Rotated<T>(s: seq<T>, b: nat, m: nat, t: nat): (r: seq<T>)
    requires b <= m <= t <= |s|
    ensures |r| == |s|
  {
    seq(|s|, k requires 0 <= k < |s| => s[RotatedFrom(b, m, t, k)])
  }

  function SwappedFrom(p: nat, q: nat, n: nat, k: nat): nat
    requires p + n <= q
  {
    if p <= k < p + n then q + (k - p) else if q <= k < q + n then p + (k - q) else k
  }

  /** s with the segments of length n at p and at q swapped. */
  function Swapped<T>(s: seq<T>, p: nat, q: nat, n: nat): (r: seq<T>)
    requires p + n <= q && q + n <= |s|
    ensures |r| == |s|
  {
    seq(|s|, k requires 0 <= k < |s| => s[SwappedFrom(p, q, n, k)])
  }

  /** Each segment is found again, in order, and nothing else has moved. */
  lemma {:induction false} RotatedSegments<T>(s: seq<T>, b: nat, m: nat, t: nat)
    requires b <= m <= t <= |s|
    ensures Rotated(s, b, m, t) == s[..b] + s[m..t] + s[b..m] + s[t..]
    ensures Rotated(s, b, m, t)[b + (t - m)..t] == s[b..m]
  {
  }

  lemma {:induction false} RotatedKeeps<T>(s: seq<T>, b: nat, m: nat, t: nat)
    requires b <= m <= t <= |s|
    ensures multiset(Rotated(s, b, m, t)) == multiset(s)
  {
    hide Rotated;
    RotatedSegments(s, b, m, t);
    assert s == s[..b] + s[b..m] + s[m..t] + s[t..];
  }

  /** Rotating back. */
  lemma {:induction false} RotatedBack<T>(s: seq<T>, b: nat, m: nat, t: nat)
    requires b <= m <= t <= |s|
    ensures Rotated(Rotated(s, b, m, t), b, b + (t - m), t) == s
  {
    var r := Rotated(s, b, m, t);
    forall k | 0 <= k < |s| ensures Rotated(r, b, b + (t - m), t)[k] == s[k] {
      assert RotatedFrom(b, m, t, RotatedFrom(b, b + (t - m), t, k)) == k;
    }
  }

  ghost predicate IsSwapped<T>(s: seq<T>, r: seq<T>, p: nat, q: nat, n: nat) {
    p + n <= q && q + n <= |s| && r == Swapped(s, p, q, n)
  }

  /** Rotating what is left gives the goal. */
  ghost predicate Remains<T>(s: seq<T>, b: nat, m: nat, t: nat, goal: seq<T>) {
    b <= m <= t <= |s| && Rotated(s, b, m, t) == goal
  }

  /** The first segment is the shorter: swapped with the end of the second it is in place. */
  lemma {:induction false} LowRemains<T>(s: seq<T>, s': seq<T>, b: nat, m: nat, t: nat, goal: seq<T>)
    requires b <= m <= t && m - b <= t - m && Remains(s, b, m, t, goal) && IsSwapped(s, s', b, t - (m - b), m - b)
    ensures Remains(s', b, m, t - (m - b), goal)
  {
    var n := m - b;
    forall k | 0 <= k < |s| ensures Rotated(s', b, m, t - n)[k] == goal[k] {
      assert SwappedFrom(b, t - n, n, RotatedFrom(b, m, t - n, k)) == RotatedFrom(b, m, t, k);
    }
  }

  /** The second segment is no longer: swapped with the start of the first it is in place. */
  lemma {:induction false} HighRemains<T>(s: seq<T>, s': seq<T>, b: nat, m: nat, t: nat, goal: seq<T>)
    requires b <= m <= t && t - m <= m - b && Remains(s, b, m, t, goal) && IsSwapped(s, s', b, m, t - m)
    ensures Remains(s', b + (t - m), m, t, goal)
  {
    var n := t - m;
    forall k | 0 <= k < |s| ensures Rotated(s', b + n, m, t)[k] == goal[k] {
      assert SwappedFrom(b, m, n, RotatedFrom(b + n, m, t, k)) == RotatedFrom(b, m, t, k);
    }
  }

  lemma {:induction false} RemainsAtFirst<T>(s: seq<T>, b: nat, m: nat, t: nat)
    requires b <= m <= t <= |s|
    ensures Remains(s, b, m, t, Rotated(s, b, m, t))
  {
  }

  lemma {:induction false} NothingRemains<T>(s: seq<T>, b: nat, m: nat, t: nat, goal: seq<T>)
    requires (b == m || m == t) && Remains(s, b, m, t, goal)
    ensures s == goal
  {
    forall k | 0 <= k < |s| ensures s[k] == goal[k] {
      assert RotatedFrom(b, m, t, k) == k;
    }
  }

  method SwapSegments<T>(argv: array<T>, p: nat, q: nat, n: nat)
    requires p + n <= q && q + n <= argv.Length
    modifies argv
    ensures IsSwapped(old(argv[..]), argv[..], p, q, n)
  {
    ghost var s := argv[..];
    var i: nat := 0;
    while i < n
      invariant i <= n
      invariant forall k: nat | k < argv.Length :: argv[k] == s[SwappedFrom(p, q, i, k)]
    {
      var tem := argv[p + i];
      argv[p + i] := argv[q + i];
      argv[q + i] := tem;
      i := i + 1;
    }
    forall k: nat | k < argv.Length ensures argv[..][k] == Swapped(s, p, q, n)[k] {}
  }

  class GetoptData {
    var first_nonopt: nat
    var last_nonopt: nat
    var optind: nat

    /**
     [non-options][options] become [options][non-options], each in its order,
     and the fields describe where the non-options are now.
    */
    method Exchange<T>(argv: array<T>)
      requires first_nonopt <= last_nonopt <= optind <= argv.Length
      modifies this, argv
      ensures argv[..] == Rotated(old(argv[..]), old(first_nonopt), old(last_nonopt), old(optind))
      ensures optind == old(optind) && last_nonopt == optind && first_nonopt == optind - (old(last_nonopt) - old(first_nonopt))
      ensures argv[first_nonopt..last_nonopt] == old(argv[first_nonopt..last_nonopt])
    {
      RotatedSegments(argv[..], first_nonopt, last_nonopt, optind);
      hide Rotated;
      Rotate(argv, first_nonopt, last_nonopt, optind);
      first_nonopt := first_nonopt + (optind - last_nonopt);
      last_nonopt := optind;
    }
  }

  /** The longer of the two segments is made shorter by what is in place, until nothing is left. */
  method Rotate<T>(argv: array<T>, first: nat, middle: nat, last: nat)
    requires first <= middle <= last <= argv.Length
    modifies argv
    ensures argv[..] == Rotated(old(argv[..]), first, middle, last)
  {
    hide Rotated, Swapped, Remains, IsSwapped;
    var bottom: nat, top: nat := first, last;
    ghost var goal := Rotated(argv[..], bottom, middle, top);
    RemainsAtFirst(argv[..], bottom, middle, top);
    while top > middle && middle > bottom
      invariant bottom <= middle <= top <= last && Remains(argv[..], bottom, middle, top, goal)
      decreases top - bottom
    {
      ghost var s := argv[..];
      if top - middle > middle - bottom {
        var len := middle - bottom;
        SwapSegments(argv, bottom, top - len, len);
        LowRemains(s, argv[..], bottom, middle, top, goal);
        top := top - len;
      } else {
        var len := top - middle;
        SwapSegments(argv, bottom, middle, len);
        HighRemains(s, argv[..], bottom, middle, top, goal);
        bottom := bottom + len;
      }
    }
    NothingRemains(argv[..], bottom, middle, top, goal);
  }
}
