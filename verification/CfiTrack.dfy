/** The CFI disk image: each track is a sequence of runs and of uncompressed blocks. */
module CfiTrack {
  import opened Wrappers
  import opened Bits

  const MAXBLOCK := 0x7FFF

  datatype Block = Run(n: nat, b: byte) | Plain(bytes: seq<byte>)

  predicate BlockOk(b: Block) {
    match b
    case Run(n, _) => n <= MAXBLOCK
    case Plain(s) => 0 < |s| <= MAXBLOCK
  }

  predicate BlocksOk(bs: seq<Block>) { forall i :: 0 <= i < |bs| ==> BlockOk(bs[i]) }

  function Expand(b: Block): seq<byte> {
    match b
    case Run(n, x) => Repeat(x, n)
    case Plain(s) => s
  }

  /** The bytes the blocks stand for. */
  function Meaning(bs: seq<Block>): seq<byte> {
    if bs == [] then [] else Expand(bs[0]) + Meaning(bs[1..])
  }

  /** A number below 0x10000, low byte first. */
  function Le2(n: nat): (r: seq<byte>)
    ensures |r| == 2
  {
    [n % 256, n / 256 % 256]
  }

  function Wire1(b: Block): (r: seq<byte>)
    ensures |r| >= 2
  {
    match b
    case Run(n, x) => Le2(n % 0x8000 + 0x8000) + [x]
    case Plain(s) => Le2(|s|) + s
  }

  function Wire(bs: seq<Block>): seq<byte> {
    if bs == [] then [] else Wire1(bs[0]) + Wire(bs[1..])
  }

  // ------------------------------------------------------------ uncompressing

  function Peek2(c: seq<byte>): (n: nat)
    requires |c| >= 2
    ensures n < 0x10000
  {
    c[0] + 256 * c[1] as int
  }

  /** The first block of c and how long it is; None if c does not start with one. */
  function First(c: seq<byte>): (r: Option<(Block, nat)>)
    ensures r.Some? ==> 3 <= r.value.1 <= |c| && BlockOk(r.value.0)
  {
    if |c| < 2 then None
    else
      var n := Peek2(c);
      if n >= 0x8000 then
        if |c| < 3 then None else Some((Run(n - 0x8000, c[2]), 3))
      else if |c| < 2 + n || n == 0 then None
      else Some((Plain(c[2..2 + n]), 2 + n))
  }

  /** What compressed bytes stand for. */
  function Uncompressed(c: seq<byte>): Option<seq<byte>>
    decreases |c|
  {
    if c == [] then Some([])
    else
      match First(c)
      case None => None
      case Some((b, n)) =>
        (match Uncompressed(c[n..])
         case None => None
         case Some(rest) => Some(Expand(b) + rest))
  }

  lemma {:induction false} FirstWire(b: Block, rest: seq<byte>)
    requires BlockOk(b)
    ensures First(Wire1(b) + rest) == Some((b, |Wire1(b)|)) && (Wire1(b) + rest)[|Wire1(b)|..] == rest
  {
    match b
    case Run(n, x) => FirstRun(n, x, rest);
    case Plain(s) => FirstPlain(s, rest);
  }

  lemma {:induction false} FirstRun(n: nat, x: byte, rest: seq<byte>)
    requires n <= MAXBLOCK
    ensures First(Wire1(Run(n, x)) + rest) == Some((Run(n, x), 3))
  {
    var c := Wire1(Run(n, x)) + rest;
    assert c[0] == Le2(n + 0x8000)[0] && c[1] == Le2(n + 0x8000)[1] && c[2] == x;
    Le2Back(n + 0x8000);
  }

  lemma {:induction false} FirstPlain(s: seq<byte>, rest: seq<byte>)
    requires 0 < |s| <= MAXBLOCK
    ensures First(Wire1(Plain(s)) + rest) == Some((Plain(s), 2 + |s|))
  {
    var c := Wire1(Plain(s)) + rest;
    assert c[0] == Le2(|s|)[0] && c[1] == Le2(|s|)[1] && c[2..2 + |s|] == s;
    Le2Back(|s|);
  }

  lemma {:induction false} Le2Back(n: nat)
    requires n < 0x10000
    ensures n % 256 + 256 * (n / 256 % 256) == n
  {
  }

  lemma {:induction false} Parsed(bs: seq<Block>)
    requires BlocksOk(bs)
    ensures Uncompressed(Wire(bs)) == Some(Meaning(bs))
  {
    if bs != [] {
      FirstWire(bs[0], Wire(bs[1..]));
      Parsed(bs[1..]);
    }
  }

  // -------------------------------------------------------------- compressing

  /** The m bytes from i on are all the same. */
  predicate Same(u: seq<byte>, i: nat, m: nat)
    requires m > 0
  {
    i + m <= |u| && u[i..i + m] == Repeat(u[i], m)
  }

  lemma {:induction false} SameMore(u: seq<byte>, i: nat, m: nat)
    requires m > 0 && Same(u, i, m) && i + m < |u| && u[i + m] == u[i]
    ensures Same(u, i, m + 1)
  {
    assert u[i..i + m + 1] == u[i..i + m] + [u[i + m]];
    assert Repeat(u[i], m + 1) == Repeat(u[i], m) + [u[i]];
  }

  /** The length of the run at i, at most the longest that a block can hold. */
  function RunAt(u: seq<byte>, i: nat): (m: nat)
    requires i < |u|
    ensures 1 <= m <= MAXBLOCK && i + m <= |u|
  {
    RunFrom(u, i, 1)
  }

  function RunFrom(u: seq<byte>, i: nat, k: nat): (m: nat)
    requires 1 <= k <= MAXBLOCK && i + k <= |u|
    ensures k <= m <= MAXBLOCK && i + m <= |u|
    decreases MAXBLOCK - k
  {
    if k == MAXBLOCK || i + k == |u| || u[i + k] != u[i] then k else RunFrom(u, i, k + 1)
  }

  lemma {:induction false} RunFromIs(u: seq<byte>, i: nat, k: nat)
    requires 1 <= k <= MAXBLOCK && i + k <= |u| && Same(u, i, k)
    ensures var m := RunFrom(u, i, k); Same(u, i, m) && (m < MAXBLOCK && i + m < |u| ==> u[i + m] != u[i])
    decreases MAXBLOCK - k
  {
    if !(k == MAXBLOCK || i + k == |u| || u[i + k] != u[i]) {
      SameMore(u, i, k);
      RunFromIs(u, i, k + 1);
    }
  }

  /** The run is one, and is as long as it can be. */
  lemma {:induction false} RunAtIs(u: seq<byte>, i: nat)
    requires i < |u|
    ensures var m := RunAt(u, i); Same(u, i, m) && (m < MAXBLOCK && i + m < |u| ==> u[i + m] != u[i])
  {
    assert u[i..i + 1] == Repeat(u[i], 1);
    RunFromIs(u, i, 1);
  }

  function PlainPart(u: seq<byte>, base: nat, i: nat): seq<Block>
    requires base <= i <= |u|
  {
    if base < i then [Plain(u[base..i])] else []
  }

  /** The blocks for the bytes from i on, with those from base to i waiting: runs of six and more are compressed. */
  function Blocks(u: seq<byte>, base: nat, i: nat): seq<Block>
    requires base <= i <= |u|
    decreases |u| - i
  {
    if i == |u| then PlainPart(u, base, i)
    else
      var m := RunAt(u, i);
      if m > 5 then PlainPart(u, base, i) + [Run(m, u[i])] + Blocks(u, i + m, i + m) else Blocks(u, base, i + 1)
  }

  lemma {:induction false} MeaningConcat(a: seq<Block>, b: seq<Block>)
    ensures Meaning(a + b) == Meaning(a) + Meaning(b)
  {
    hide Expand;
    if a == [] {
      assert a + b == b;
    } else {
      MeaningConcat(a[1..], b);
      assert (a + b)[1..] == a[1..] + b;
    }
  }

  lemma {:induction false} WireConcat(a: seq<Block>, b: seq<Block>)
    ensures Wire(a + b) == Wire(a) + Wire(b)
  {
    if a == [] {
      assert a + b == b;
    } else {
      WireMore(a[0], a[1..] + b);
      WireMore(a[0], a[1..]);
      assert [a[0]] + (a[1..] + b) == a + b && [a[0]] + a[1..] == a;
      hide Wire, Wire1;
      WireConcat(a[1..], b);
      Associate(Wire1(a[0]), Wire(a[1..]), Wire(b));
    }
  }

  lemma {:induction false} WireMore(x: Block, a: seq<Block>)
    ensures Wire([x] + a) == Wire1(x) + Wire(a)
  {
    assert ([x] + a)[1..] == a;
  }

  lemma {:induction false} PlainPartIs(u: seq<byte>, base: nat, i: nat)
    requires base <= i <= |u|
    ensures Meaning(PlainPart(u, base, i)) == u[base..i]
    ensures |Wire(PlainPart(u, base, i))| == if base < i then i - base + 2 else 0
  {
  }

  lemma {:induction false} OneRun(n: nat, b: byte)
    ensures Meaning([Run(n, b)]) == Repeat(b, n) && Wire([Run(n, b)]) == Wire1(Run(n, b)) && |Wire1(Run(n, b))| == 3
  {
    assert Wire1(Run(n, b)) + [] == Wire1(Run(n, b)) && Repeat(b, n) + [] == Repeat(b, n);
  }

  /** What a run, and the plain bytes that wait before it, add. */
  lemma {:induction false} Step(u: seq<byte>, base: nat, i: nat, m: nat, rest: seq<Block>)
    requires base <= i && m > 0 && Same(u, i, m)
    ensures Meaning(PlainPart(u, base, i) + [Run(m, u[i])] + rest) == u[base..i + m] + Meaning(rest)
    ensures Wire(PlainPart(u, base, i) + [Run(m, u[i])] + rest) == Wire(PlainPart(u, base, i)) + Wire1(Run(m, u[i])) + Wire(rest)
  {
    var p, r := PlainPart(u, base, i), [Run(m, u[i])];
    PlainPartIs(u, base, i);
    OneRun(m, u[i]);
    MeaningConcat(p + r, rest);
    MeaningConcat(p, r);
    WireConcat(p + r, rest);
    WireConcat(p, r);
    assert u[base..i + m] == u[base..i] + u[i..i + m];
  }

  lemma {:induction false} Joined(u: seq<byte>, a: nat, b: nat)
    requires a <= b <= |u|
    ensures u[a..b] + u[b..] == u[a..]
  {
  }

  lemma {:induction false} MeanStep(u: seq<byte>, base: nat, i: nat)
    requires base <= i < |u| && RunAt(u, i) > 5
    ensures var m := RunAt(u, i); Meaning(Blocks(u, base, i)) == u[base..i + m] + Meaning(Blocks(u, i + m, i + m))
  {
    hide Expand, Meaning, Wire1, Wire, Same, RunAt, RunFrom, PlainPart;
    RunAtIs(u, i);
    Step(u, base, i, RunAt(u, i), Blocks(u, i + RunAt(u, i), i + RunAt(u, i)));
  }

  lemma {:induction false} Substitute(x: seq<byte>, a: seq<byte>, y: seq<byte>, b: seq<byte>)
    requires x == a + y && y == b
    ensures x == a + b
  {
  }

  lemma {:induction false} BlocksEnd(u: seq<byte>, base: nat)
    requires base <= |u|
    ensures Meaning(Blocks(u, base, |u|)) == u[base..]
  {
    PlainPartIs(u, base, |u|);
    assert u[base..|u|] == u[base..];
  }

  lemma {:induction false} BlocksOn(u: seq<byte>, base: nat, i: nat)
    requires base <= i < |u| && RunAt(u, i) <= 5
    ensures Blocks(u, base, i) == Blocks(u, base, i + 1)
  {
  }

  lemma {:induction false} BlocksMean(u: seq<byte>, base: nat, i: nat)
    requires base <= i <= |u|
    ensures Meaning(Blocks(u, base, i)) == u[base..]
    decreases |u| - i
  {
    hide Blocks, Meaning, RunAt;
    if i == |u| {
      BlocksEnd(u, base);
    } else if RunAt(u, i) > 5 {
      var k := i + RunAt(u, i);
      MeanStep(u, base, i);
      BlocksMean(u, k, k);
      Substitute(Meaning(Blocks(u, base, i)), u[base..k], Meaning(Blocks(u, k, k)), u[k..]);
      Joined(u, base, k);
    } else {
      BlocksOn(u, base, i);
      BlocksMean(u, base, i + 1);
    }
  }

  lemma {:induction false} BlocksStep(u: seq<byte>, base: nat, i: nat)
    requires base <= i <= |u|
    ensures i == |u| ==> Wire(Blocks(u, base, i)) == Wire(PlainPart(u, base, i))
    ensures i < |u| && RunAt(u, i) <= 5 ==> Blocks(u, base, i) == Blocks(u, base, i + 1)
    ensures i < |u| && RunAt(u, i) > 5 ==> var m := RunAt(u, i);
              Wire(Blocks(u, base, i)) == Wire(PlainPart(u, base, i)) + Wire1(Run(m, u[i])) + Wire(Blocks(u, i + m, i + m))
    ensures i < |u| ==> |Wire1(Run(RunAt(u, i), u[i]))| == 3
  {
    if i < |u| { RunAtIs(u, i); }
    if i < |u| && RunAt(u, i) > 5 { Step(u, base, i, RunAt(u, i), Blocks(u, i + RunAt(u, i), i + RunAt(u, i))); }
  }

  /** The compressed track is at most two bytes longer than the track. */
  lemma {:induction false} WireShort(u: seq<byte>, base: nat, i: nat)
    requires base <= i <= |u|
    ensures |Wire(Blocks(u, base, i))| <= |u| - base + if base < |u| then 2 else 0
    decreases |u| - i
  {
    hide Wire1, Wire, Same, RunAt, RunFrom, PlainPart, Blocks;
    BlocksStep(u, base, i);
    PlainPartIs(u, base, i);
    if i < |u| {
      var m := RunAt(u, i);
      if m > 5 { WireShort(u, i + m, i + m); } else { WireShort(u, base, i + 1); }
    }
  }

  /** With s written, what is left is to write the blocks from base, of which the bytes to i have been looked at. */
  ghost predicate Progress(s: seq<byte>, u: seq<byte>, base: nat, i: nat) {
    base <= i <= |u| && s + Wire(Blocks(u, base, i)) == Wire(Blocks(u, 0, 0))
  }

  lemma {:induction false} Starting(s: seq<byte>, u: seq<byte>)
    requires s == []
    ensures Progress(s, u, 0, 0)
  {
    assert s + Wire(Blocks(u, 0, 0)) == Wire(Blocks(u, 0, 0));
  }

  lemma {:induction false} ByteTaken(s: seq<byte>, u: seq<byte>, base: nat, i: nat)
    requires Progress(s, u, base, i) && i < |u| && RunAt(u, i) <= 5
    ensures Progress(s, u, base, i + 1)
  {
    BlocksStep(u, base, i);
  }

  lemma {:induction false} RunTaken(s: seq<byte>, u: seq<byte>, base: nat, i: nat)
    requires Progress(s, u, base, i) && i < |u| && RunAt(u, i) > 5
    ensures var m := RunAt(u, i);
            && Progress(s + Wire(PlainPart(u, base, i)) + Wire1(Run(m, u[i])), u, i + m, i + m)
            && |s| + |Wire(PlainPart(u, base, i))| + 3 <= |u| + 2
  {
    hide RunAt, Wire, Wire1, Blocks, PlainPart, Same;
    var m := RunAt(u, i);
    BlocksStep(u, base, i);
    WireShort(u, 0, 0);
    TakeOut(s, Wire(PlainPart(u, base, i)), Wire1(Run(m, u[i])), Wire(Blocks(u, i + m, i + m)), Wire(Blocks(u, base, i)), Wire(Blocks(u, 0, 0)));
  }

  lemma {:induction false} AllTaken(s: seq<byte>, u: seq<byte>, base: nat)
    requires Progress(s, u, base, |u|)
    ensures s + Wire(PlainPart(u, base, |u|)) == Wire(Blocks(u, 0, 0)) && |Wire(Blocks(u, 0, 0))| <= |u| + 2
  {
    BlocksStep(u, base, |u|);
    WireShort(u, 0, 0);
  }

  lemma {:induction false} TakeOut(s: seq<byte>, p: seq<byte>, r: seq<byte>, rest: seq<byte>, w: seq<byte>, whole: seq<byte>)
    requires w == p + r + rest && s + w == whole
    ensures s + p + r + rest == whole && |s| + |p| + |r| + |rest| == |whole|
  {
    assert s + (p + r + rest) == s + p + r + rest;
  }

  /** All blocks can be told from their headers if the track is short enough. */
  lemma {:induction false} BlocksFit(u: seq<byte>, base: nat, i: nat)
    requires base <= i <= |u| <= MAXBLOCK
    ensures BlocksOk(Blocks(u, base, i))
    decreases |u| - i
  {
    hide RunAt, RunFrom;
    if i < |u| {
      var m := RunAt(u, i);
      if m > 5 { BlocksFit(u, i + m, i + m); } else { BlocksFit(u, base, i + 1); }
    }
  }

  /** The round trip. */
  lemma {:induction false} TrackRoundTrip(u: seq<byte>)
    requires |u| <= MAXBLOCK
    ensures Uncompressed(Wire(Blocks(u, 0, 0))) == Some(u)
  {
    BlocksMean(u, 0, 0);
    BlocksFit(u, 0, 0);
    Parsed(Blocks(u, 0, 0));
  }
}
