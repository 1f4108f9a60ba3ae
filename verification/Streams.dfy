/** Taking bytes, one step at a time, from something that may run dry. */
module Streams {
  import opened Wrappers
  import opened Bits

  /** Up to n bytes, and the state after them. */
  function Take<S>(step: S -> (Option<byte>, S), s: S, n: nat): (r: (seq<byte>, S))
    ensures |r.0| <= n
    decreases n
  {
    if n == 0 then ([], s) else
    var (b, s') := step(s);
    if b.None? then ([], s') else
    var (out, s'') := Take(step, s', n - 1);
    ([b.value] + out, s'')
  }

  /** A source that has run dry stays dry. */
  ghost predicate StaysDry<S(!new)>(step: S -> (Option<byte>, S)) {
    forall s :: DryAt(step, s)
  }

  ghost predicate DryAt<S(!new)>(step: S -> (Option<byte>, S), s: S) {
    step(s).0.None? ==> step(step(s).1) == (None, step(s).1)
  }

  /** Taking m and then n bytes is taking m+n. */
  lemma {:induction false} TakeSplit<S(!new)>(step: S -> (Option<byte>, S), s: S, m: nat, n: nat)
    requires StaysDry(step)
    ensures var (a, s1) := Take(step, s, m); var (b, s2) := Take(step, s1, n);
            Take(step, s, m + n) == (a + b, s2)
    decreases m
  {
    var (a, s1) := Take(step, s, m);
    var (b, s2) := Take(step, s1, n);
    if m == 0 {
      assert a + b == b;
    } else if step(s).0.None? {
      assert DryAt(step, s);
      assert a + b == [];
    } else {
      var (x, s') := step(s);
      TakeSplit(step, s', m - 1, n);
      Associate([x.value], Take(step, s', m - 1).0, b);
    }
  }

  lemma {:induction false} TakeOne<S>(step: S -> (Option<byte>, S), s: S)
    requires step(s).0.Some?
    ensures Take(step, s, 1) == ([step(s).0.value], step(s).1)
  {
    assert Take(step, step(s).1, 0) == ([], step(s).1);
    assert [step(s).0.value] + [] == [step(s).0.value];
  }

  lemma {:induction false} TakeAlike<S>(step: S -> (Option<byte>, S), s: S, s': S, n: nat)
    requires step(s) == step(s') && n > 0
    ensures Take(step, s, n) == Take(step, s', n)
  {
  }

  /** Taking in two goes, with what each of them gives. */
  lemma {:induction false} TakeTwice<S(!new)>(step: S -> (Option<byte>, S), s: S, m: nat, a: seq<byte>, s1: S,
                                              n: nat, b: seq<byte>, s2: S)
    requires StaysDry(step) && Take(step, s, m) == (a, s1) && Take(step, s1, n) == (b, s2)
    ensures Take(step, s, m + n) == (a + b, s2)
  {
    TakeSplit(step, s, m, n);
  }

  /** A request for n bytes from state s0 has delivered out so far, and is now in state s. */
  ghost predicate Progress<S>(step: S -> (Option<byte>, S), s0: S, n: nat, out: seq<byte>, s: S) {
    |out| <= n && var (rest, end) := Take(step, s, n - |out|); Take(step, s0, n) == (out + rest, end)
  }

  lemma {:induction false} ProgressStart<S>(step: S -> (Option<byte>, S), s0: S, n: nat)
    ensures Progress(step, s0, n, [], s0)
  {
    assert [] + Take(step, s0, n).0 == Take(step, s0, n).0;
  }

  lemma {:induction false} ProgressByte<S>(step: S -> (Option<byte>, S), s0: S, n: nat, out: seq<byte>, s: S)
    requires Progress(step, s0, n, out, s) && |out| < n && step(s).0.Some?
    ensures Progress(step, s0, n, out + [step(s).0.value], step(s).1)
  {
    var b, s' := step(s).0.value, step(s).1;
    var (o, e) := Take(step, s', n - |out| - 1);
    assert out + ([b] + o) == (out + [b]) + o;
  }

  /** Changing to a state that steps the same changes nothing. */
  lemma {:induction false} ProgressAlike<S>(step: S -> (Option<byte>, S), s0: S, n: nat, out: seq<byte>, s: S, s': S)
    requires Progress(step, s0, n, out, s) && |out| < n && step(s) == step(s')
    ensures Progress(step, s0, n, out, s')
  {
    TakeAlike(step, s, s', n - |out|);
  }

  lemma {:induction false} ProgressDry<S>(step: S -> (Option<byte>, S), s0: S, n: nat, out: seq<byte>, s: S)
    requires Progress(step, s0, n, out, s) && |out| < n && step(s).0.None?
    ensures Take(step, s0, n) == (out, step(s).1)
  {
    assert out + [] == out;
  }

  lemma {:induction false} ProgressDone<S>(step: S -> (Option<byte>, S), s0: S, n: nat, out: seq<byte>, s: S)
    requires Progress(step, s0, n, out, s) && |out| == n
    ensures Take(step, s0, n) == (out, s)
  {
    assert out + [] == out;
  }

  /** One turn of a decoder in state s: a byte c, the end (-1), or no byte yet (-2). */
  ghost predicate Advances<S>(step: S -> (Option<byte>, S), s: S, c: int, s': S) {
    if c == -2 then step(s') == step(s)
    else if 0 <= c < 256 then step(s) == (Some(c), s')
    else step(s) == (None, s')
  }

  lemma {:induction false} ProgressAdvances<S>(step: S -> (Option<byte>, S), s0: S, n: nat, out: seq<byte>, s: S, c: int, s': S)
      returns (out': seq<byte>)
    requires Progress(step, s0, n, out, s) && |out| < n && Advances(step, s, c, s') && -2 <= c < 256
    ensures c == -1 ==> out' == out && Take(step, s0, n) == (out, s')
    ensures c == -2 ==> out' == out && Progress(step, s0, n, out, s')
    ensures c >= 0 ==> out' == out + [c] && Progress(step, s0, n, out', s')
  {
    out' := out;
    if c == -2 {
      ProgressAlike(step, s0, n, out, s, s');
    } else if c == -1 {
      ProgressDry(step, s0, n, out, s);
    } else {
      ProgressByte(step, s0, n, out, s);
      out' := out + [c];
    }
  }

  function Sum(lens: seq<nat>): nat {
    if lens == [] then 0 else lens[0] + Sum(lens[1..])
  }

  /** Successive requests, their outputs run together. */
  function TakeAll<S>(step: S -> (Option<byte>, S), s: S, lens: seq<nat>): (r: (seq<byte>, S))
    decreases |lens|
  {
    if lens == [] then ([], s) else
    var (a, s1) := Take(step, s, lens[0]);
    var (b, s2) := TakeAll(step, s1, lens[1..]);
    (a + b, s2)
  }

  /** However the requests are cut, the bytes are the same. */
  lemma {:induction false} ChunkIndependence<S(!new)>(step: S -> (Option<byte>, S), s: S, lens: seq<nat>)
    requires StaysDry(step)
    ensures TakeAll(step, s, lens) == Take(step, s, Sum(lens))
    decreases |lens|
  {
    if lens != [] {
      var n, rest := lens[0], lens[1..];
      ChunkIndependence(step, Take(step, s, n).1, rest);
      TakeSplit(step, s, n, Sum(rest));
    }
  }
}
