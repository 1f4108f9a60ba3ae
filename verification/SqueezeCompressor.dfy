/**
 The Squeeze compressor and expander, working step by step on one set of
 arrays.
*/
module SqueezeCompressor {
  import opened SqueezeTree
  import opened SqueezeRle
  import opened SqueezeCode
  import opened SqueezeFile
  import opened Wrappers
  import opened Bits
  import opened LowBits

  const HUFBITS := 520

  /** What is done with the codes of the run-length layer. */
  datatype Writer = Counting | Encoding

  /** The same, with what the proof needs to know of the state at the start. */
  datatype Job = CountJob(start: Dict) | EncodeJob(d: Dict, base: seq<nat>, header: seq<byte>)

  ghost predicate JobOk(job: Job) {
    if job.CountJob? then Sized(job.start) else Coded(job.d, job.base) && job.d.cur >= MAXNODE - MAXLEAF
  }

  ghost predicate Encodable(job: Job, s: seq<Code>)
    requires JobOk(job)
  {
    job.EncodeJob? ==> AllUsed(job.base, s)
  }

  function Reverse(s: seq<bool>): (r: seq<bool>)
    ensures |r| == |s|
  {
    if s == [] then [] else [s[|s| - 1]] + Reverse(s[..|s| - 1])
  }

  lemma {:induction false} ReverseMore(s: seq<bool>, b: bool)
    ensures Reverse(s + [b]) == [b] + Reverse(s)
  {
    assert (s + [b])[..|s|] == s;
  }

  /** flipped, and the rest of pushed turned round, make up the whole of pushed turned round. */
  ghost predicate Flipping(pushed: seq<bool>, flipped: seq<bool>, n: nat) {
    n <= |pushed| && Reverse(pushed) == flipped + Reverse(pushed[..n])
  }

  lemma {:induction false} FlipStart(pushed: seq<bool>, s: seq<bool>)
    ensures Flipping(pushed, [], |pushed|) && s + [] == s
  {
    assert pushed[..|pushed|] == pushed;
  }

  lemma {:induction false} FlipOne(pushed: seq<bool>, flipped: seq<bool>, n: nat, s: seq<bool>)
    requires Flipping(pushed, flipped, n) && n > 0
    ensures Flipping(pushed, flipped + [pushed[n - 1]], n - 1)
    ensures s + flipped + [pushed[n - 1]] == s + (flipped + [pushed[n - 1]])
  {
    assert pushed[..n][..n - 1] == pushed[..n - 1];
    var b := pushed[n - 1];
    assert flipped + ([b] + Reverse(pushed[..n - 1])) == (flipped + [b]) + Reverse(pushed[..n - 1]);
  }

  lemma {:induction false} FlipEnd(pushed: seq<bool>, flipped: seq<bool>)
    requires Flipping(pushed, flipped, 0)
    ensures Reverse(pushed) == flipped
  {
    assert pushed[..0] == [] && flipped + [] == flipped;
  }

  /** Halfway up: the path still above slot i, then the branches already pushed, last one first. */
  ghost predicate Climbing(d: Dict, base: seq<nat>, path: seq<bool>, i: nat, pushed: seq<bool>) {
    && Coded(d, base) && d.cur < i < SLOTS && Used(base, i) && (i > d.cur + 1 ==> Attached(d, i))
    && path == Path(d, base, i) + Reverse(pushed) && |path| <= HUFBITS
  }

  lemma {:induction false} ClimbStart(d: Dict, base: seq<nat>, i: nat)
    requires Coded(d, base) && d.cur >= MAXNODE - MAXLEAF && d.cur < i < SLOTS && Used(base, i)
    ensures Climbing(d, base, Path(d, base, i), i, [])
  {
    PathShort(d, base, i);
    assert Path(d, base, i) + [] == Path(d, base, i);
  }

  lemma {:induction false} ClimbOne(d: Dict, base: seq<nat>, path: seq<bool>, i: nat, pushed: seq<bool>)
    requires Climbing(d, base, path, i, pushed) && i > d.cur + 1
    ensures |pushed| < HUFBITS && d.cur < Up(d, i) < MAXNODE && Up(d, i) < i
    ensures d.left[Up(d, i)] == CodeOf(i) || d.right[Up(d, i)] == CodeOf(i)
    ensures Climbing(d, base, path, Up(d, i), pushed + [d.left[Up(d, i)] != CodeOf(i)])
  {
    var b := d.left[Up(d, i)] != CodeOf(i);
    ReverseMore(pushed, b);
    assert Path(d, base, i) == Path(d, base, Up(d, i)) + [b];
    assert path == Path(d, base, Up(d, i)) + ([b] + Reverse(pushed));
  }

  lemma {:induction false} ClimbEnd(d: Dict, base: seq<nat>, path: seq<bool>, pushed: seq<bool>)
    requires d.cur >= -1 && Climbing(d, base, path, d.cur + 1, pushed)
    ensures Reverse(pushed) == path && |pushed| <= HUFBITS
  {
    assert [] + Reverse(pushed) == Reverse(pushed);
  }

  /** Only the root has no parent. */
  lemma {:induction false} ClimbEnds(d: Dict, base: seq<nat>, path: seq<bool>, i: nat, pushed: seq<bool>)
    requires Climbing(d, base, path, i, pushed)
    ensures Up(d, i) < MAXNODE || i < MAXNODE
    ensures i < MAXNODE ==> (d.parent[i] < MAXNODE <==> i > d.cur + 1)
  {
  }

  lemma {:induction false} CountedMore(count: seq<nat>, s: seq<Code>, c: Code)
    requires |count| == SLOTS
    ensures var r := Counted(count, s); Counted(count, s + [c]) == r[MAXNODE + c := r[MAXNODE + c] + 1]
  {
    assert (s + [c])[..|s|] == s;
  }

  lemma {:induction false} EncodedMore(d: Dict, base: seq<nat>, s: seq<Code>, c: Code)
    requires Coded(d, base) && AllUsed(base, s + [c])
    ensures AllUsed(base, s) && Used(base, MAXNODE + c)
    ensures Encoded(d, base, s + [c]) == Encoded(d, base, s) + Path(d, base, MAXNODE + c)
  {
    assert (s + [c])[..|s|] == s;
  }

  lemma {:induction false} EncodableParts(job: Job, a: seq<Code>, b: seq<Code>)
    requires JobOk(job) && Encodable(job, a + b)
    ensures Encodable(job, a)
  {
    if job.EncodeJob? { AllUsedParts(job.base, a, b); }
  }

  /** n single occurrences of c are still missing from goal. */
  ghost predicate SinglesLeft(goal: seq<Code>, sent: seq<Code>, c: Code, n: nat) {
    goal == sent + Singles(c, n)
  }

  lemma {:induction false} SinglesMore(job: Job, sent: seq<Code>, c: Code, n: nat, goal: seq<Code>)
    requires JobOk(job) && n > 0 && SinglesLeft(goal, sent, c, n) && Encodable(job, goal)
    ensures Encodable(job, sent + [c]) && (c == RLECODE ==> Encodable(job, sent + [c] + [0]))
    ensures SinglesLeft(goal, if c == RLECODE then sent + [c] + [0] else sent + [c], c, n - 1)
  {
    var one: seq<Code> := if c == RLECODE then [RLECODE, 0] else [c];
    assert goal == (sent + one) + Singles(c, n - 1);
    EncodableParts(job, sent + one, Singles(c, n - 1));
    if c == RLECODE {
      assert sent + one == sent + [c] + [0];
      EncodableParts(job, sent + [c], [0]);
    }
  }

  lemma {:induction false} SinglesNone(goal: seq<Code>, c: Code, sent: seq<Code>)
    requires SinglesLeft(goal, sent, c, 0)
    ensures sent == goal
  {
  }

  lemma {:induction false} EofFlush()
    ensures Flush(SQ_EOF, 1) == [SQ_EOF]
  {
    assert Singles(SQ_EOF, 1) == [SQ_EOF] + Singles(SQ_EOF, 0);
  }

  lemma {:induction false} RunMore(job: Job, sent: seq<Code>, c: Code, n: nat, goal: seq<Code>)
    requires JobOk(job) && 3 < n <= MAXRUN && c != RLECODE && goal == sent + Flush(c, n) && Encodable(job, goal)
    ensures Encodable(job, sent + [c]) && Encodable(job, sent + [c] + [RLECODE])
    ensures goal == sent + [c] + [RLECODE] + [n]
  {
    assert goal == sent + [c] + [RLECODE] + [n];
    EncodableParts(job, sent + [c] + [RLECODE], [n]);
    EncodableParts(job, sent + [c], [RLECODE]);
  }

  lemma {:induction false} ReadingStart(text: seq<byte>, from: seq<Code>)
    ensures Completes(from, Idle, text[0..], from + FileCodes(text))
    ensures Checksum(text[..0]) == 0
  {
    assert text[0..] == text;
  }

  /** With the codes to, then those of the rest of the text, the file is complete. */
  ghost predicate Completes(to: seq<Code>, r: Run, rest: seq<byte>, all: seq<Code>)
    requires RunOk(r)
  {
    to + Codes(r, rest) + [SQ_EOF] == all
  }

  lemma {:induction false} CompletesEncodable(job: Job, to: seq<Code>, r: Run, rest: seq<byte>, all: seq<Code>)
    requires RunOk(r) && Completes(to, r, rest, all) && JobOk(job) && Encodable(job, all)
    ensures Encodable(job, to)
  {
    assert to + (Codes(r, rest) + [SQ_EOF]) == all;
    EncodableParts(job, to, Codes(r, rest) + [SQ_EOF]);
  }

  lemma {:induction false} CompletesEnd(to: seq<Code>, r: Run, rest: seq<byte>, all: seq<Code>)
    requires RunOk(r) && rest == [] && Completes(to, r, rest, all)
    ensures to + FlushRun(r) + [SQ_EOF] == all
  {
  }

  /** What one byte does to the codes still to be sent. */
  lemma {:induction false} CompletesByte(to: seq<Code>, r: Run, s: seq<byte>, all: seq<Code>)
    requires RunOk(r) && s != [] && Completes(to, r, s, all)
    ensures if r.Run? && s[0] == r.c then
              if r.n + 1 == MAXRUN then Completes(to + Flush(r.c, MAXRUN), Idle, s[1..], all)
              else Completes(to, Run(r.c, r.n + 1), s[1..], all)
            else Completes(to + FlushRun(r), Run(s[0], 1), s[1..], all)
  {
    if r.Run? && s[0] == r.c {
      if r.n + 1 == MAXRUN {
        assert to + (Flush(r.c, MAXRUN) + Codes(Idle, s[1..])) == to + Flush(r.c, MAXRUN) + Codes(Idle, s[1..]);
      }
    } else {
      assert to + (FlushRun(r) + Codes(Run(s[0], 1), s[1..])) == to + FlushRun(r) + Codes(Run(s[0], 1), s[1..]);
    }
  }

  lemma {:induction false} ChecksumMore(text: seq<byte>, n: nat)
    requires n < |text|
    ensures Checksum(text[..n + 1]) == (Checksum(text[..n]) + text[n]) % 0x10000
  {
    assert text[..n + 1][..n] == text[..n];
  }

  lemma {:induction false} ChecksumWhole(text: seq<byte>)
    ensures Checksum(text[..|text|]) == Checksum(text)
  {
    assert text[..|text|] == text;
  }

  lemma {:induction false} SomeSmallest(count: seq<nat>)
    requires Alive(count) > 0
    ensures Smallest(count, -1, |count|) >= 0
  {
    SmallestIs(count, -1, |count|);
    if Smallest(count, -1, |count|) == -1 { NoneAlive(count); }
  }

  /** Merging the n counts left in d makes the dictionary all. */
  ghost predicate Merging(d: Dict, n: nat, all: Dict) {
    && Sized(d) && Alive(d.count) == n && d.cur >= n - 1 && (forall i :: 0 <= i <= d.cur ==> d.count[i] == 0)
    && MergeAll(d, n) == all
  }

  lemma {:induction false} MergingOne(d: Dict, n: nat, all: Dict)
    requires Merging(d, n, all) && n > 1
    ensures Mergeable(d) && Merging(Combine(d), n - 1, all)
  {
    var n1, n2 := CombineIs(d);
  }

  lemma {:induction false} NodesFirst(d: Dict, n: nat, out: seq<byte>)
    requires Sized(d) && n < MAXNODE
    ensures var l, r := Moved(d.left[n], d.cur + 1), Moved(d.right[n], d.cur + 1);
            out + Nodes(d, n) == out + Word(Unsigned(l)) + Word(Unsigned(r)) + Nodes(d, n + 1)
  {
  }

  lemma {:induction false} NodesEnd(d: Dict)
    requires Sized(d)
    ensures Nodes(d, MAXNODE) == []
  {
  }

  lemma {:induction false} StreamIs(d0: Dict, s: seq<Code>)
    requires Sized(d0) && s != []
    ensures Coded(SqueezeCode.Analyze(d0, s), Start(d0, s).count) && AllUsed(Start(d0, s).count, s)
    ensures Stream(d0, s) == Encoded(SqueezeCode.Analyze(d0, s), Start(d0, s).count, s)
  {
    EveryCodeUsed(d0, s);
  }

  class Squeezer {
    var rleChar: int
    var rleRun: nat
    const parent: array<int>
    const left: array<int>
    const right: array<int>
    const leaves: array<int>
    const count: array<nat>
    var curNode: int
    var nodeCount: nat
    const hufBits: array<bool>
    var nBits: nat
    var hufOut: byte
    var nOut: nat
    var sum: int
    const fpIn: seq<byte>
    var inPos: nat
    var fpOut: seq<byte>
    ghost var sent: seq<Code>

    ghost predicate Wired()
      reads `curNode
    {
      && parent.Length == left.Length == right.Length == MAXNODE && leaves.Length == MAXLEAF && count.Length == SLOTS
      && parent != left && parent != right && parent != leaves && left != right && left != leaves && right != leaves
      && (count as object) !in {parent, left, right, leaves}
      && hufBits.Length == HUFBITS
      && -1 <= curNode < MAXNODE
    }

    constructor (text: seq<byte>)
      ensures Wired() && fpIn == text && inPos == 0 && fpOut == []
      ensures fresh(parent) && fresh(left) && fresh(right) && fresh(leaves) && fresh(count) && fresh(hufBits)
    {
      parent, left, right := new int[MAXNODE](_ => 0), new int[MAXNODE](_ => 0), new int[MAXNODE](_ => 0);
      leaves, count, hufBits := new int[MAXLEAF](_ => 0), new nat[SLOTS](_ => 0), new bool[HUFBITS](_ => false);
      rleChar, rleRun, curNode, nodeCount, nBits, hufOut, nOut, sum := -1, 0, MAXNODE - 1, 0, 0, 0, 0, 0;
      inPos, fpIn, fpOut, sent := 0, text, [], [];
    }

    ghost function Now(): (d: Dict)
      requires Wired()
      reads `curNode, parent, left, right, leaves, count
      ensures Sized(d)
    {
      Dict(parent[..], left[..], right[..], leaves[..], count[..], curNode)
    }

    // ------------------------------------------------------- the dictionary

    /** The slot with the least positive count, other than skip. */
    method HufSmallest(skip: int) returns (mi: int)
      requires Wired()
      ensures mi == Smallest(count[..], skip, SLOTS)
    {
      mi := -1;
      var n := 0;
      while n < MAXLEAF + MAXNODE
        invariant 0 <= n <= SLOTS && mi == Smallest(count[..], skip, n)
      {
        if n != skip && count[n] > 0 && (mi == -1 || count[n] < count[mi]) {
          mi := n;
        }
        n := n + 1;
      }
    }

    method HufAddNode(n1: nat, n2: nat)
      requires Wired() && curNode >= 0 && n1 < SLOTS && n2 < SLOTS
      modifies parent, left, right, leaves
      ensures Now() == AddNode(old(Now()), n1, n2)
    {
      parent[curNode] := MAXNODE;
      left[curNode] := if n1 < MAXNODE then n1 else MAXNODE - 1 - n1;
      right[curNode] := if n2 < MAXNODE then n2 else MAXNODE - 1 - n2;
      if n1 >= MAXNODE { leaves[n1 - MAXNODE] := curNode; } else { parent[n1] := curNode; }
      if n2 >= MAXNODE { leaves[n2 - MAXNODE] := curNode; } else { parent[n2] := curNode; }
    }

    // ---------------------------------------------------------- writing bits

    /** The output is file, then the complete bytes of s; the bits after them are pending. */
    ghost predicate Emitted(file: seq<byte>, s: seq<bool>)
      reads `fpOut, `hufOut, `nOut
    {
      fpOut == file + Whole(s) && nOut == |Rest(s)| && hufOut == ByteOf(Rest(s))
    }

    method PushBit(bit: bool)
      requires Wired() && nBits < HUFBITS
      modifies hufBits, `nBits
      ensures nBits == old(nBits) + 1
      ensures hufBits[..nBits] == old(hufBits[..nBits]) + [bit]
    {
      if nBits >= HUFBITS { return; }
      hufBits[nBits] := bit;
      nBits := nBits + 1;
    }

    method EmitBit(bit: bool, ghost file: seq<byte>, ghost s: seq<bool>)
      requires Emitted(file, s)
      modifies `fpOut, `hufOut, `nOut
      ensures Emitted(file, s + [bit])
    {
      WholeMore(s, bit);
      LowFirstMore(Rest(s), bit);
      MaskIsPow2(nOut);
      Pow2Of8(|Rest(s)| + 1);
      if bit { hufOut := hufOut + MASKS[nOut]; }
      nOut := nOut + 1;
      if nOut == 8 {
        fpOut := fpOut + [hufOut];
        nOut := 0;
        hufOut := 0;
      }
    }

    /** Write the bits pushed, last one first. */
    method FlipBits(ghost file: seq<byte>, ghost s: seq<bool>)
      requires Wired() && nBits <= HUFBITS && Emitted(file, s)
      modifies `fpOut, `hufOut, `nOut
      ensures Emitted(file, s + Reverse(hufBits[..nBits]))
    {
      ghost var pushed := hufBits[..nBits];
      ghost var flipped: seq<bool> := [];
      FlipStart(pushed, s);
      var n: int := nBits - 1;
      hide *;
      while n >= 0
        invariant -1 <= n < nBits == |pushed|
        invariant Emitted(file, s + flipped)
        invariant Flipping(pushed, flipped, n + 1)
      {
        EmitBit(hufBits[n], file, s + flipped);
        FlipOne(pushed, flipped, n + 1, s);
        flipped := flipped + [pushed[n]];
        n := n - 1;
      }
      FlipEnd(pushed, flipped);
    }

    // ------------------------------------------------------------- the codes

    /** Everything sent so far has been counted, or has been encoded. */
    ghost predicate InStep(job: Job)
      reads `curNode, parent, left, right, leaves, count, `fpOut, `hufOut, `nOut, `sent
    {
      && Wired() && JobOk(job) && Encodable(job, sent)
      && if job.CountJob? then Now() == job.start.(count := Counted(job.start.count, sent))
         else Now() == job.d && Emitted(job.header, Encoded(job.d, job.base, sent))
    }

    lemma {:induction false} JobIsOk(job: Job)
      requires InStep(job)
      ensures JobOk(job)
    {
    }

    method HufCounter(ch: int) returns (ok: bool)
      requires Wired()
      modifies count
      ensures ok == (0 <= ch <= SQ_EOF)
      ensures count[..] == if ok then old(count[..])[ch + MAXNODE := old(count[ch + MAXNODE]) + 1] else old(count[..])
    {
      if 0 <= ch <= SQ_EOF {
        count[ch + MAXNODE] := count[ch + MAXNODE] + 1;
        return true;
      }
      return false;
    }

    /** Push the branches from the leaf of ch up to the root. */
    method Climb(ch: Code, ghost base: seq<nat>) returns (ok: bool)
      requires Wired() && Coded(Now(), base) && curNode >= MAXNODE - MAXLEAF && Used(base, MAXNODE + ch)
      modifies hufBits, `nBits
      ensures ok && nBits <= HUFBITS && Reverse(hufBits[..nBits]) == Path(Now(), base, MAXNODE + ch)
    {
      ghost var d := Now();
      ghost var i: nat := MAXNODE + ch;
      ghost var path := Path(d, base, i);
      ClimbStart(d, base, i);
      var nodePos := leaves[ch];
      nBits := 0;
      var child := -1 - ch;
      var climbing := true;
      while climbing
        invariant Now() == d && nBits <= HUFBITS && d.cur < i < SLOTS && child == CodeOf(i)
        invariant Climbing(d, base, path, i, hufBits[..nBits])
        invariant climbing ==> i > d.cur + 1 && nodePos == Up(d, i)
        invariant !climbing ==> i == d.cur + 1
        decreases i, climbing
      {
        ClimbOne(d, base, path, i, hufBits[..nBits]);
        if left[nodePos] == child {
          PushBit(false);
        } else if right[nodePos] == child {
          PushBit(true);
        } else {
          return false;
        }
        i := nodePos;
        ClimbEnds(d, base, path, i, hufBits[..nBits]);
        child := nodePos;
        nodePos := parent[nodePos];
        climbing := nodePos < MAXNODE;
      }
      ClimbEnd(d, base, path, hufBits[..nBits]);
      return true;
    }

    method HufEncode(ch: int, ghost job: Job) returns (ok: bool)
      requires job.EncodeJob? && InStep(job) && (0 <= ch <= SQ_EOF ==> Used(job.base, MAXNODE + ch))
      modifies hufBits, `nBits, `fpOut, `hufOut, `nOut
      ensures ok == (0 <= ch <= SQ_EOF)
      ensures Now() == old(Now())
      ensures ok ==> Emitted(job.header, Encoded(job.d, job.base, sent) + Path(job.d, job.base, MAXNODE + ch))
    {
      if ch < 0 || ch > SQ_EOF { return false; }
      ok := Climb(ch, job.base);
      if !ok { return; }
      FlipBits(job.header, Encoded(job.d, job.base, sent));
    }

    method Write(writer: Writer, ch: int, ghost job: Job) returns (ok: bool)
      requires InStep(job) && writer.Counting? == job.CountJob? && 0 <= ch <= SQ_EOF && Encodable(job, sent + [ch])
      modifies count, hufBits, `nBits, `fpOut, `hufOut, `nOut, `sent
      ensures ok && InStep(job) && sent == old(sent) + [ch]
      ensures job.CountJob? ==> fpOut == old(fpOut)
    {
      hide Wired, Emitted, Used, Coded, Counted, AllUsed, Path, Encoded;
      if writer.Counting? {
        CountedMore(job.start.count, sent, ch);
        ok := HufCounter(ch);
      } else {
        EncodedMore(job.d, job.base, sent, ch);
        ok := HufEncode(ch, job);
      }
      sent := sent + [ch];
    }

    // -------------------------------------------------------- run lengths

    predicate RunReady()
      reads `rleChar, `rleRun
    {
      if rleRun == 0 then -1 <= rleChar <= SQ_EOF else 0 <= rleChar <= SQ_EOF && rleRun <= MAXRUN
    }

    /** The codes still due for the run being counted. */
    function Due(): seq<Code>
      requires RunReady()
      reads `rleChar, `rleRun
    {
      if rleRun == 0 then [] else Flush(rleChar, rleRun)
    }

    method RleReset()
      modifies `rleChar, `rleRun
      ensures rleChar == -1 && rleRun == 0
    {
      rleChar := -1;
      rleRun := 0;
    }

    /** Write the character of the run once, escaped if it is the run marker. */
    method WriteSingle(writer: Writer, ghost job: Job) returns (ok: bool)
      requires InStep(job) && writer.Counting? == job.CountJob? && 0 <= rleChar <= SQ_EOF
      requires Encodable(job, sent + [rleChar]) && (rleChar == RLECODE ==> Encodable(job, sent + [rleChar] + [0]))
      modifies count, hufBits, `nBits, `fpOut, `hufOut, `nOut, `sent
      ensures ok && InStep(job)
      ensures sent == if rleChar == RLECODE then old(sent) + [rleChar] + [0] else old(sent) + [rleChar]
      ensures job.CountJob? ==> fpOut == old(fpOut)
    {
      hide *;
      ok := Write(writer, rleChar, job);
      if rleChar == RLECODE && ok { ok := Write(writer, 0, job); }
    }

    /** Write a run of length up to 3, or one of the run marker, code by code. */
    method WriteSingles(writer: Writer, ghost job: Job, ghost goal: seq<Code>)
      returns (ok: bool)
      requires InStep(job) && writer.Counting? == job.CountJob? && Encodable(job, goal)
      requires 0 <= rleChar <= SQ_EOF && SinglesLeft(goal, sent, rleChar, rleRun)
      modifies count, hufBits, `nBits, `fpOut, `hufOut, `nOut, `sent, `rleRun
      ensures ok && InStep(job) && sent == goal && rleRun == 0
      ensures job.CountJob? ==> fpOut == old(fpOut)
    {
      hide InStep, Encodable, JobOk, SinglesLeft;
      ok := true;
      JobIsOk(job);
      while rleRun != 0
        invariant ok && InStep(job) && 0 <= rleChar <= SQ_EOF && SinglesLeft(goal, sent, rleChar, rleRun)
        invariant job.CountJob? ==> fpOut == old(fpOut)
        decreases rleRun
      {
        SinglesMore(job, sent, rleChar, rleRun, goal);
        if ok { ok := WriteSingle(writer, job); }
        rleRun := rleRun - 1;
      }
      SinglesNone(goal, rleChar, sent);
    }

    /** Write the codes of the run counted so far. */
    method RleFlush(writer: Writer, ghost job: Job, ghost goal: seq<Code>) returns (ok: bool)
      requires RunReady() && InStep(job) && writer.Counting? == job.CountJob?
      requires goal == sent + Due() && Encodable(job, goal)
      modifies count, hufBits, `nBits, `fpOut, `hufOut, `nOut, `sent, `rleRun
      ensures ok && InStep(job) && sent == goal && rleRun == 0
      ensures job.CountJob? ==> fpOut == old(fpOut)
    {
      hide JobOk, Encodable, Wired, Emitted, Coded, Singles, Counted, AllUsed, Encoded;
      ok := true;
      if rleRun > 3 && rleChar != RLECODE {
        RunMore(job, sent, rleChar, rleRun, goal);
        ok := Write(writer, rleChar, job);
        if ok { ok := Write(writer, RLECODE, job); }
        if ok { ok := Write(writer, rleRun, job); }
      } else if rleRun != 0 {
        ok := WriteSingles(writer, job, goal);
      }
      rleRun := 0;
    }

    // ------------------------------------------------------ the whole file

    /** The run being counted, as the specification sees it. */
    function RunOf(): (r: Run)
      requires RunReady()
      reads `rleChar, `rleRun
    {
      if rleRun == 0 || rleChar == SQ_EOF then Idle else Run(rleChar, rleRun)
    }

    /** Reading the file: the codes sent, and those of the rest of it, make up all its codes. */
    ghost predicate Reading(from: seq<Code>)
      reads `rleChar, `rleRun, `inPos, `sent
    {
      && RunReady() && inPos <= |fpIn| && RunOk(RunOf()) && (rleRun == 0 ==> rleChar == -1) && rleChar < SQ_EOF
      && Completes(sent, RunOf(), fpIn[inPos..], from + FileCodes(fpIn))
    }

    /** Send the last run, and EOF. */
    method RleEnd(writer: Writer, ghost job: Job, ghost all: seq<Code>) returns (ok: bool)
      requires InStep(job) && writer.Counting? == job.CountJob? && RunReady()
      requires all == sent + Due() + [SQ_EOF] && Encodable(job, all)
      modifies count, hufBits, `nBits, `fpOut, `hufOut, `nOut, `sent, `rleRun, `rleChar
      ensures ok && InStep(job) && sent == all
      ensures job.CountJob? ==> fpOut == old(fpOut)
    {
      ghost var goal := sent + Due();
      assert JobOk(job);
      EncodableParts(job, goal, [SQ_EOF]);
      EofFlush();
      hide InStep, JobOk, Encodable, Flush;
      ok := RleFlush(writer, job, goal);
      if !ok { return; }
      rleChar := SQ_EOF;
      rleRun := 1;
      ok := RleFlush(writer, job, all);
    }

    /** Send the codes of the whole file, and EOF. */
    method RleStream(writer: Writer, ghost job: Job) returns (ok: bool)
      requires InStep(job) && writer.Counting? == job.CountJob? && Encodable(job, sent + FileCodes(fpIn))
      requires rleChar == -1 && rleRun == 0 && inPos == 0
      modifies count, hufBits, `nBits, `fpOut, `hufOut, `nOut, `sent, `rleRun, `rleChar, `inPos, `sum
      ensures ok && InStep(job) && sent == old(sent) + FileCodes(fpIn)
      ensures inPos == 0 && (old(sum) == 0 ==> sum == Checksum(fpIn))
      ensures job.CountJob? ==> fpOut == old(fpOut)
    {
      ghost var from := sent;
      ok := true;
      ReadingStart(fpIn, from);
      hide InStep, JobOk, Encodable, Codes, FileCodes, Checksum;
      while inPos < |fpIn|
        invariant ok && InStep(job) && Reading(from)
        invariant old(sum) == 0 ==> sum == Checksum(fpIn[..inPos])
        invariant job.CountJob? ==> fpOut == old(fpOut)
        decreases |fpIn| - inPos
      {
        ok := RleByte(writer, job, from);
        if !ok { return; }
      }
      CompletesEnd(sent, RunOf(), fpIn[inPos..], from + FileCodes(fpIn));
      ok := RleEnd(writer, job, from + FileCodes(fpIn));
      if !ok { return; }
      ChecksumWhole(fpIn);
      inPos := 0;
    }

    /** Write the codes of the run, when those of r and the rest of the file complete them. */
    method RleFlushPart(writer: Writer, ghost job: Job, ghost r: Run, ghost rest: seq<byte>, ghost all: seq<Code>)
      returns (ok: bool)
      requires RunReady() && InStep(job) && writer.Counting? == job.CountJob? && Encodable(job, all)
      requires RunOk(r) && Completes(sent + Due(), r, rest, all)
      modifies count, hufBits, `nBits, `fpOut, `hufOut, `nOut, `sent, `rleRun
      ensures ok && InStep(job) && Completes(sent, r, rest, all) && rleRun == 0
      ensures job.CountJob? ==> fpOut == old(fpOut)
    {
      assert JobOk(job);
      ghost var goal := sent + Due();
      CompletesEncodable(job, goal, r, rest, all);
      hide InStep, Completes, JobOk, Encodable;
      ok := RleFlush(writer, job, goal);
    }

    /** Take one byte of the file. */
    method RleByte(writer: Writer, ghost job: Job, ghost from: seq<Code>) returns (ok: bool)
      requires InStep(job) && writer.Counting? == job.CountJob? && Encodable(job, from + FileCodes(fpIn))
      requires Reading(from) && inPos < |fpIn|
      modifies count, hufBits, `nBits, `fpOut, `hufOut, `nOut, `sent, `rleRun, `rleChar, `inPos, `sum
      ensures ok && InStep(job) && Reading(from) && inPos == old(inPos) + 1
      ensures old(sum) == Checksum(fpIn[..old(inPos)]) ==> sum == Checksum(fpIn[..inPos])
      ensures job.CountJob? ==> fpOut == old(fpOut)
    {
      ghost var all := from + FileCodes(fpIn);
      hide InStep, JobOk, Encodable, Codes, FileCodes, Flush, Completes;
      CompletesByte(sent, RunOf(), fpIn[inPos..], all);
      ChecksumMore(fpIn, inPos);
      ghost var rest := fpIn[inPos + 1..];
      assert fpIn[inPos..][1..] == rest;
      ok := true;
      var c := fpIn[inPos];
      inPos := inPos + 1;
      sum := (sum + c) % 0x10000;
      if c == rleChar {
        rleRun := rleRun + 1;
        if rleRun == MAXRUN {
          ok := RleFlushPart(writer, job, Idle, rest, all);
          if !ok { return; }
          RleReset();
        }
      } else {
        ok := RleFlushPart(writer, job, Run(c, 1), rest, all);
        if !ok { return; }
        rleChar := c;
        rleRun := 1;
      }
    }

    // ---------------------------------------------------------- analysing

    method ZeroCounts()
      requires Wired()
      modifies count
      ensures count[..] == Repeat<nat>(0, SLOTS)
    {
      var n := 0;
      while n < MAXNODE + MAXLEAF
        invariant 0 <= n <= SLOTS && forall i :: 0 <= i < n ==> count[i] == 0
      {
        count[n] := 0;
        n := n + 1;
      }
    }

    method CountNodes() returns (k: nat)
      requires Wired()
      ensures k == Alive(count[..])
    {
      k := 0;
      var n := 0;
      assert count[..0] == [];
      while n < MAXNODE + MAXLEAF
        invariant 0 <= n <= SLOTS && k == Alive(count[..n])
      {
        assert count[..n + 1][..n] == count[..n];
        if count[n] != 0 { k := k + 1; }
        n := n + 1;
      }
      assert count[..SLOTS] == count[..];
    }

    /** Merge the two smallest counts. */
    method MergePair()
      requires Wired() && Mergeable(Now())
      modifies parent, left, right, leaves, count, `curNode
      ensures Wired() && Now() == Combine(old(Now()))
    {
      var n1 := HufSmallest(-1);
      var n2 := HufSmallest(n1);
      ghost var d := Now();
      HufAddNode(n1, n2);
      count[curNode] := count[n1] + count[n2];
      assert count[..] == d.count[d.cur := d.count[n1] + d.count[n2]];
      count[n1] := 0;
      count[n2] := 0;
      curNode := curNode - 1;
      assert Now() == MergeSlots(d, n1, n2);
    }

    /** Count the codes of the file. */
    method CountFile() returns (ok: bool)
      requires Wired() && inPos == 0
      modifies count, `sum, `sent, `rleChar, `rleRun, `inPos, `fpOut, `hufOut, `nOut, `nBits, hufBits
      ensures ok && Wired() && inPos == 0
      ensures Now() == old(Now()).(count := Counted(Repeat<nat>(0, SLOTS), FileCodes(fpIn)))
      ensures sum == Checksum(fpIn) && fpOut == old(fpOut)
    {
      sum := 0;
      ZeroCounts();
      RleReset();
      sent := [];
      ghost var d0 := Now();
      assert [] + FileCodes(fpIn) == FileCodes(fpIn);
      ok := RleStream(Counting, CountJob(d0));
    }

    /** The dictionary when only one symbol occurs. */
    method SingleNode()
      requires Wired() && curNode == MAXNODE - 1 && Smallest(count[..], -1, SLOTS) >= 0
      modifies parent, left, right, leaves, `curNode, `nodeCount
      ensures Wired() && nodeCount == 0
      ensures Now() == AddNode(old(Now()), Smallest(old(Now()).count, -1, SLOTS), Smallest(old(Now()).count, -1, SLOTS))
                         .(cur := MAXNODE - 2)
    {
      var n1 := HufSmallest(-1);
      HufAddNode(n1, n1);
      nodeCount := 0;
      curNode := curNode - 1;
    }

    /** Merge until one node is left. */
    method MergeNodes()
      requires Wired() && nodeCount == Alive(Now().count) && curNode >= nodeCount - 1
      requires forall i :: 0 <= i <= curNode ==> count[i] == 0
      modifies parent, left, right, leaves, count, `curNode, `nodeCount
      ensures Wired() && Now() == MergeAll(old(Now()), old(nodeCount))
    {
      ghost var all := MergeAll(Now(), nodeCount);
      assert Merging(Now(), nodeCount, all);
      while nodeCount > 1
        invariant Wired() && Merging(Now(), nodeCount, all)
        decreases nodeCount
      {
        MergingOne(Now(), nodeCount, all);
        hide Merging, Combine, Mergeable;
        MergePair();
        nodeCount := nodeCount - 1;
      }
    }

    /** Count the codes of the file and make the dictionary for them. */
    method Analyze() returns (ok: bool)
      requires Wired() && inPos == 0
      modifies this, parent, left, right, leaves, count, hufBits
      ensures ok && Wired() && inPos == 0
      ensures Now() == SqueezeCode.Analyze(old(Now()), FileCodes(fpIn))
      ensures sum == Checksum(fpIn) && fpOut == old(fpOut)
    {
      StartIs(Now(), FileCodes(fpIn));
      SomeAlive(FileCodes(fpIn));
      hide Counted, FileCodes, Checksum, Alive, Smallest, AddNode, MergeAll;
      ok := CountFile();
      if !ok { return; }
      curNode := MAXNODE - 1;
      nodeCount := CountNodes();
      assert Now() == Start(old(Now()), FileCodes(fpIn));
      if nodeCount == 1 {
        SomeSmallest(count[..]);
        SingleNode();
      }
      if nodeCount > 1 {
        MergeNodes();
      }
    }

    // --------------------------------------------------------- compressing

    method Writec(c: byte)
      modifies `fpOut
      ensures fpOut == old(fpOut) + [c]
    {
      fpOut := fpOut + [c];
    }

    /** Write a 16-bit word, low byte first. */
    method Writes(s: int)
      requires 0 <= s < 0x10000
      modifies `fpOut
      ensures fpOut == old(fpOut) + Word(s)
    {
      Writec(s % 256);
      Writec(s / 256 % 256);
    }

    /** Write the dictionary from its root on. */
    method WriteNodes(ghost base: seq<nat>)
      requires Wired() && Coded(Now(), base)
      modifies `fpOut
      ensures fpOut == old(fpOut) + Nodes(Now(), curNode + 1)
    {
      hide Nodes, NodeOk, Attached, Used;
      ghost var d := Now();
      ghost var before := fpOut;
      var dictBase := curNode + 1;
      var dn := dictBase;
      while dn < MAXNODE
        invariant dictBase <= dn <= MAXNODE && Now() == d
        invariant before + Nodes(d, dictBase) == fpOut + Nodes(d, dn)
      {
        EntryFits(d, base, dn);
        var l := left[dn];
        var r := right[dn];
        if l >= 0 { l := l - dictBase; }
        if r >= 0 { r := r - dictBase; }
        ghost var out := fpOut;
        Writes(if l < 0 then l + 0x10000 else l);
        Writes(if r < 0 then r + 0x10000 else r);
        NodesFirst(d, dn, out);
        dn := dn + 1;
      }
      NodesEnd(d);
    }

    method WriteHeader(name: seq<byte>, ghost base: seq<nat>)
      requires Wired() && Coded(Now(), base) && 0 <= sum < 0x10000 && fpOut == []
      modifies `fpOut
      ensures fpOut == Header(sum, name, Now())
    {
      Writes(MAGIC);
      Writes(sum);
      WriteName(name);
      Writes(MAXNODE - (curNode + 1));
      WriteNodes(base);
    }

    /** Write header, name, dictionary and bit stream. */
    method Compress(name: seq<byte>, ghost d0: Dict) returns (ok: bool)
      requires Wired() && Sized(d0) && Now() == SqueezeCode.Analyze(d0, FileCodes(fpIn))
      requires sum == Checksum(fpIn) && inPos == 0 && fpOut == []
      modifies this, hufBits, count
      ensures ok && fpOut == Squeezed(d0, fpIn, name)
    {
      ghost var all := FileCodes(fpIn);
      ghost var base := Start(d0, all).count;
      EveryCodeUsed(d0, all);
      AnalyzeCodes(d0, all);
      StreamIs(d0, all);
      PackedIs(Stream(d0, all));
      hide Coded, AllUsed, Whole, Rest, Packed, Encoded, Stream, SqueezeCode.Analyze, FileCodes, Header, Start, Checksum;
      WriteHeader(name, base);
      ghost var header := fpOut;
      ok := WriteStream(header, base);
      if !ok { return; }
      if nOut != 0 { Writec(hufOut); }
    }

    method WriteName(name: seq<byte>)
      modifies `fpOut
      ensures fpOut == old(fpOut) + name + [0]
    {
      var i := 0;
      while i < |name|
        invariant 0 <= i <= |name| && fpOut == old(fpOut) + name[..i]
      {
        Writec(name[i]);
        i := i + 1;
      }
      assert name[..|name|] == name;
      Writec(0);
    }

    /** Encode the whole file. */
    method WriteStream(ghost header: seq<byte>, ghost base: seq<nat>) returns (ok: bool)
      requires Wired() && Coded(Now(), base) && curNode >= MAXNODE - MAXLEAF && AllUsed(base, FileCodes(fpIn))
      requires inPos == 0 && fpOut == header
      modifies this, hufBits, count
      ensures ok && Wired() && Emitted(header, Encoded(old(Now()), base, FileCodes(fpIn)))
    {
      nOut := 0;
      hufOut := 0;
      RleReset();
      sent := [];
      ghost var job := EncodeJob(Now(), base, header);
      assert header + Whole([]) == header;
      assert InStep(job);
      assert [] + FileCodes(fpIn) == FileCodes(fpIn);
      ok := RleStream(Encoding, job);
    }

    /** Analyse the file, then write it squeezed. */
    method Squeeze(name: seq<byte>) returns (ok: bool)
      requires Wired() && inPos == 0 && fpOut == [] && 0 !in name
      modifies this, parent, left, right, leaves, count, hufBits
      ensures ok && fpOut == Squeezed(old(Now()), fpIn, name)
      ensures forall l: seq<int>, r: seq<int> :: |l| == |r| == MAXNODE ==> SqueezeFile.Unsqueeze(l, r, fpOut) == Ok(fpIn)
    {
      ghost var d0 := Now();
      ok := Analyze();
      if !ok { return; }
      ok := Compress(name, d0);
      forall l: seq<int>, r: seq<int> | |l| == |r| == MAXNODE
        ensures SqueezeFile.Unsqueeze(l, r, fpOut) == Ok(fpIn)
      {
        SqueezeRoundTrip(d0, fpIn, name, l, r);
      }
    }
  }
}
