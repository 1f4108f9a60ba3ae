/**
 The run-length layer of Squeeze: runs of 4 to 255 equal bytes become three
 codes, the run marker itself is escaped, and EOF is a code of its own.
*/
module SqueezeRle {
  import opened Bits
  import opened Wrappers

  const RLECODE := 0x90
  const SQ_EOF := 0x100
  const MAXRUN := 0xFF

  type Code = c: int | 0 <= c <= SQ_EOF

  /** The codes of n single occurrences of c. */
  function Singles(c: Code, n: nat): seq<Code> {
    if n == 0 then [] else (if c == RLECODE then [RLECODE, 0] else [c]) + Singles(c, n - 1)
  }

  /** The codes of a finished run. */
  function Flush(c: Code, run: nat): seq<Code>
    requires run <= MAXRUN
  {
    if run > 3 && c != RLECODE then [c, RLECODE, run] else Singles(c, run)
  }

  /** The run being counted: no character yet, or a character and how often it has been seen. */
  datatype Run = Idle | Run(c: byte, n: nat)

  predicate RunOk(r: Run) { r.Run? ==> 1 <= r.n < MAXRUN }

  function FlushRun(r: Run): seq<Code>
    requires RunOk(r)
  {
    if r.Idle? then [] else Flush(r.c, r.n)
  }

  /** The codes of the bytes s, given the run being counted before them. */
  function Codes(r: Run, s: seq<byte>): seq<Code>
    requires RunOk(r)
    decreases |s|
  {
    if s == [] then FlushRun(r)
    else if r.Run? && s[0] == r.c then
      if r.n + 1 == MAXRUN then Flush(r.c, MAXRUN) + Codes(Idle, s[1..])
      else Codes(Run(r.c, r.n + 1), s[1..])
    else FlushRun(r) + Codes(Run(s[0], 1), s[1..])
  }

  /** Everything the compressor encodes for a file. */
  function FileCodes(s: seq<byte>): seq<Code> { Codes(Idle, s) + [SQ_EOF] }

  // ---------------------------------------------------------------- expanding

  /**
   The expander: bytes written, the character held back (-1 for none), and
   whether a run marker has just been seen.
  */
  datatype Expander = Expander(out: seq<byte>, held: int, marked: bool) {
    predicate Ok() { -1 <= held < 256 }

    /** What has been written once the held character is written too. */
    function Text(): seq<byte>
      requires Ok()
    {
      if held == -1 then out else out + [held]
    }
  }

  function StartExpander(): Expander { Expander([], -1, false) }

  /** Take one byte of the expanded stream; None when a run has no character to repeat. */
  function Take(e: Expander, b: byte): (r: Option<Expander>)
    requires e.Ok()
    ensures r.Some? ==> r.value.Ok()
  {
    if e.marked then
      if b == 0 then Some(Expander(e.Text() + [RLECODE], -1, false))
      else if e.held == -1 then None
      else Some(Expander(e.out + Repeat(e.held as byte, b), -1, false))
    else if b == RLECODE then Some(e.(marked := true))
    else Some(Expander(e.Text(), b, false))
  }

  function TakeAll(e: Expander, s: seq<Code>): (r: Option<Expander>)
    requires e.Ok() && forall i :: 0 <= i < |s| ==> s[i] < 256
    ensures r.Some? ==> r.value.Ok()
    decreases |s|
  {
    if s == [] then Some(e) else
    match Take(e, s[0])
    case None => None
    case Some(e') => TakeAll(e', s[1..])
  }

  lemma {:induction false} TakeConcat(e: Expander, a: seq<Code>, b: seq<Code>)
    requires e.Ok() && (forall i :: 0 <= i < |a| ==> a[i] < 256) && (forall i :: 0 <= i < |b| ==> b[i] < 256)
    ensures TakeAll(e, a + b) == match TakeAll(e, a) case None => None case Some(e') => TakeAll(e', b)
    decreases |a|
  {
    if a == [] {
      assert a + b == b;
    } else {
      assert (a + b)[1..] == a[1..] + b;
      match Take(e, a[0])
      case None =>
      case Some(e') => TakeConcat(e', a[1..], b);
    }
  }

  /** e' is e after the bytes t, with nothing half read. */
  ghost predicate Expanded(e: Expander, codes: seq<Code>, t: seq<byte>, e': Expander) {
    && e.Ok() && e'.Ok() && !e'.marked
    && (forall i :: 0 <= i < |codes| ==> codes[i] < 256)
    && TakeAll(e, codes) == Some(e') && e'.Text() == e.Text() + t
  }

  lemma {:induction false} ExpandedConcat(e: Expander, a: seq<Code>, s: seq<byte>, e1: Expander, b: seq<Code>, t: seq<byte>, e2: Expander)
    requires Expanded(e, a, s, e1) && Expanded(e1, b, t, e2)
    ensures Expanded(e, a + b, s + t, e2)
  {
    TakeConcat(e, a, b);
    assert (e.Text() + s) + t == e.Text() + (s + t);
  }

  lemma {:induction false} SinglesExpand(e: Expander, c: byte, n: nat) returns (e': Expander)
    requires e.Ok() && !e.marked
    ensures Expanded(e, Singles(c, n), Repeat(c, n), e')
    decreases n
  {
    if n == 0 {
      e' := e;
      assert e.Text() + Repeat(c, 0) == e.Text();
    } else {
      var head: seq<Code> := if c == RLECODE then [RLECODE, 0] else [c];
      var e1 := if c == RLECODE then Expander(e.Text() + [RLECODE], -1, false) else Expander(e.Text(), c, false);
      assert TakeAll(e, head) == Some(e1) by {
        if c == RLECODE {
          assert head[1..] == [0] && head[1..][1..] == [];
          assert TakeAll(e.(marked := true), [0]) == TakeAll(e1, []);
        } else {
          assert head[1..] == [];
        }
      }
      assert Expanded(e, head, [c], e1);
      e' := SinglesExpand(e1, c, n - 1);
      ExpandedConcat(e, head, [c], e1, Singles(c, n - 1), Repeat(c, n - 1), e');
      assert [c] + Repeat(c, n - 1) == Repeat(c, n);
    }
  }

  lemma {:induction false} FlushExpands(e: Expander, c: byte, n: nat) returns (e': Expander)
    requires e.Ok() && !e.marked && n <= MAXRUN
    ensures Expanded(e, Flush(c, n), Repeat(c, n), e')
  {
    if n > 3 && c != RLECODE {
      var s: seq<Code> := [c, RLECODE, n];
      var e1 := Expander(e.Text(), c, false);
      var e2 := e1.(marked := true);
      e' := Expander(e.Text() + Repeat(c, n), -1, false);
      assert s[1..] == [RLECODE, n] && s[1..][1..] == [n] && s[1..][1..][1..] == [];
      assert TakeAll(e', []) == Some(e');
      assert TakeAll(e2, [n]) == Some(e');
      assert TakeAll(e1, [RLECODE, n]) == Some(e');
    } else {
      e' := SinglesExpand(e, c, n);
    }
  }

  function RunText(r: Run): seq<byte> { if r.Idle? then [] else Repeat(r.c, r.n) }

  lemma {:induction false} RunExpands(e: Expander, r: Run) returns (e': Expander)
    requires e.Ok() && !e.marked && RunOk(r)
    ensures Expanded(e, FlushRun(r), RunText(r), e')
  {
    if r.Idle? {
      e' := e;
      assert e.Text() + [] == e.Text();
    } else {
      e' := FlushExpands(e, r.c, r.n);
    }
  }

  /** Expanding the codes of a byte string gives back the byte string. */
  lemma {:induction false} CodesExpand(e: Expander, r: Run, s: seq<byte>) returns (e': Expander)
    requires e.Ok() && !e.marked && RunOk(r)
    ensures Expanded(e, Codes(r, s), RunText(r) + s, e')
    decreases |s|
  {
    if s == [] {
      e' := RunExpands(e, r);
      assert RunText(r) + s == RunText(r);
    } else if r.Run? && s[0] == r.c {
      assert Repeat(r.c, r.n) + s == Repeat(r.c, r.n + 1) + s[1..];
      if r.n + 1 == MAXRUN {
        var e1 := FlushExpands(e, r.c, MAXRUN);
        e' := CodesExpand(e1, Idle, s[1..]);
        assert RunText(Idle) + s[1..] == s[1..];
        ExpandedConcat(e, Flush(r.c, MAXRUN), Repeat(r.c, MAXRUN), e1, Codes(Idle, s[1..]), s[1..], e');
      } else {
        e' := CodesExpand(e, Run(r.c, r.n + 1), s[1..]);
      }
    } else {
      var e1 := RunExpands(e, r);
      var next := Run(s[0], 1);
      e' := CodesExpand(e1, next, s[1..]);
      assert RunText(next) + s[1..] == s;
      ExpandedConcat(e, FlushRun(r), RunText(r), e1, Codes(next, s[1..]), s, e');
    }
  }

  /** Expanding everything before EOF gives back the file. */
  lemma {:induction false} RleRoundTrip(s: seq<byte>) returns (e: Expander)
    ensures Expanded(StartExpander(), Codes(Idle, s), s, e) && e.Text() == s
  {
    e := CodesExpand(StartExpander(), Idle, s);
    assert RunText(Idle) + s == s;
  }
}
