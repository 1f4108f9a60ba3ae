/** Squeezed files and run codes, byte by byte. */
module SqueezeExample {
  import opened Bits
  import opened LowBits
  import opened SqueezeRle
  import opened SqueezeTree
  import opened SqueezeCode
  import opened SqueezeFile

  // --------------------------------------------------------------- run codes

  /** A run of more than three bytes is the byte, the mark and the length; the mark itself is a mark and a zero; the end is 256. */
  lemma {:induction false} RunsCoded()
    ensures FileCodes([65, 65, 65, 65, 65]) == [65, 0x90, 5, 256]
    ensures FileCodes([65, 65, 65]) == [65, 65, 65, 256]
    ensures FileCodes([0x90, 66]) == [0x90, 0, 66, 256]
  {
    hide Codes, Singles;
    var s5, s4, s3, s2, s1: seq<byte> := [65, 65, 65, 65, 65], [65, 65, 65, 65], [65, 65, 65], [65, 65], [65];
    assert s5[1..] == s4 && s4[1..] == s3 && s3[1..] == s2 && s2[1..] == s1 && s1[1..] == [];
    RunOn(65, 1, s4); RunOn(65, 2, s3); RunOn(65, 3, s2); RunOn(65, 4, s1); RunEnds(65, 5);
    RunOn(65, 1, s2); RunOn(65, 2, s1); RunEnds(65, 3);
    RunBegins(65, s5);
    RunBegins(65, s3);
    assert Flush(65, 5) == [65, 0x90, 5];
    ThreeSingles();
    MarkCoded();
  }

  /** A run is sent when it is 255 bytes long, and the next byte begins a new one. */
  lemma {:induction false} LongRun(c: byte, s: seq<byte>)
    requires c != 0x90
    ensures Codes(Run(c, 254), [c] + s) == [c, 0x90, 255] + Codes(Idle, s)
  {
    hide Singles;
    assert ([c] + s)[1..] == s;
  }

  lemma {:induction false} ThreeSingles()
    ensures Flush(65, 3) == [65, 65, 65]
  {
    assert Singles(65, 0) == [] && Singles(65, 1) == [65] && Singles(65, 2) == [65, 65] && Singles(65, 3) == [65, 65, 65];
  }

  lemma {:induction false} MarkCoded()
    ensures FileCodes([0x90, 66]) == [0x90, 0, 66, 256]
  {
    var s2, s1: seq<byte> := [0x90, 66], [66];
    assert s2[1..] == s1 && s1[1..] == [];
    RunBegins(0x90, s2);
    assert Codes(Run(0x90, 1), s1) == Flush(0x90, 1) + Codes(Run(66, 1), []);
    RunEnds(66, 1);
    assert Singles(0x90, 0) == [] && Singles(0x90, 1) == [0x90, 0] && Singles(66, 0) == [] && Singles(66, 1) == [66];
  }

  lemma {:induction false} RunBegins(c: byte, s: seq<byte>)
    requires s != [] && s[0] == c
    ensures Codes(Idle, s) == Codes(Run(c, 1), s[1..])
  {
    assert FlushRun(Idle) == [];
  }

  lemma {:induction false} RunOn(c: byte, n: nat, s: seq<byte>)
    requires 1 <= n < MAXRUN - 1 && s != [] && s[0] == c
    ensures Codes(Run(c, n), s) == Codes(Run(c, n + 1), s[1..])
  {
  }

  lemma {:induction false} RunEnds(c: byte, n: nat)
    requires 1 <= n < MAXRUN
    ensures Codes(Run(c, n), []) == Flush(c, n)
  {
  }

  // ---------------------------------------------------------- the empty text

  lemma {:induction false} OnlyEnd(d0: Dict, i: nat)
    requires Sized(d0) && i < SLOTS
    ensures Start(d0, [256]).count[i] == if i == 770 then 1 else 0
  {
    var s: seq<Code> := [256];
    CountedIs(s, i);
    assert s[..0] == [];
  }

  lemma {:induction false} OneCode(d0: Dict)
    requires Sized(d0)
    ensures var d := Start(d0, [256]); Alive(d.count) == 1 && Smallest(d.count, -1, SLOTS) == 770
  {
    var c := Start(d0, [256]).count;
    forall i | 0 <= i < SLOTS ensures c[i] == if i == 770 then 1 else 0 { OnlyEnd(d0, i); }
    hide Start, Alive, Smallest;
    AliveUpdate(c, 770, 0);
    NoneAlive(c[770 := 0]);
    SmallestIs(c, -1, SLOTS);
  }

  /** The only node is the root, with the end code on both sides. */
  lemma {:induction false} OneNode(d0: Dict)
    requires Sized(d0)
    ensures var d := Analyze(d0, [256]); d.cur == 512 && d.left[513] == -257 && d.right[513] == -257 && d.leaves[256] == 513
  {
    OneCode(d0);
    StartIs(d0, [256]);
    hide Alive, Smallest, Counted;
  }

  /** The end code is the one bit false. */
  lemma {:induction false} OneBit(d0: Dict)
    requires Sized(d0)
    ensures Stream(d0, [256]) == [false]
  {
    hide Analyze, Start, Coded, Path;
    var s: seq<Code> := [256];
    OneNode(d0);
    EveryCodeUsed(d0, s);
    var d, base := Analyze(d0, s), Start(d0, s).count;
    assert s[..0] == [];
    UsedOne(base);
    PathOne(d, base);
    assert AllUsed(base, s[..0]) && Encoded(d, base, s[..0]) == [];
    assert Encoded(d, base, s) == [] + Path(d, base, 770);
  }

  lemma {:induction false} UsedOne(base: seq<nat>)
    requires |base| == SLOTS && AllUsed(base, [256])
    ensures Used(base, 770)
  {
    var s: seq<Code> := [256];
    assert s[..0] == [];
  }

  lemma {:induction false} PathOne(d: Dict, base: seq<nat>)
    requires Coded(d, base) && d.cur == 512 && d.left[513] == -257 && d.leaves[256] == 513 && Used(base, 770)
    ensures Path(d, base, 770) == [false]
  {
    assert Attached(d, 770);
    assert Path(d, base, 513) == [];
  }

  lemma {:induction false} OneNodeWritten(d: Dict)
    requires Sized(d) && d.cur == 512 && d.left[513] == -257 && d.right[513] == -257
    ensures Nodes(d, 513) == [0xFF, 0xFE, 0xFF, 0xFE] && Packed([false]) == [0]
  {
    assert Nodes(d, 514) == [];
    assert Nodes(d, 513) == [0xFF, 0xFE] + [0xFF, 0xFE] + [];
  }

  /** The file of the empty text: magic number, sum, name, one node with the end code on both sides, and its bit. */
  lemma {:induction false} EmptyFile(d0: Dict, name: seq<byte>)
    requires Sized(d0)
    ensures Squeezed(d0, [], name) == [0x76, 0xFF, 0, 0] + name + [0, 1, 0, 0xFF, 0xFE, 0xFF, 0xFE, 0]
  {
    hide Analyze, Stream, Nodes, Packed;
    assert FileCodes([]) == [256];
    OneNode(d0);
    OneBit(d0);
    OneNodeWritten(Analyze(d0, [256]));
  }
}
