/**
 The squeezed file: header, dictionary and bit stream, and how they are read
 back.
*/
module SqueezeFile {
  import opened SqueezeTree
  import opened SqueezeRle
  import opened SqueezeCode
  import opened Wrappers
  import opened Bits
  import opened LowBits

  // ------------------------------------------------------------ bits in bytes

  /** The bytes of a bit stream, the last one filled up with zero bits. */
  function Packed(s: seq<bool>): seq<byte> {
    if s == [] then [] else if |s| <= 8 then [ByteOf(s)] else [ByteOf(s[..8])] + Packed(s[8..])
  }

  lemma {:induction false} ByteFlat(s: seq<bool>)
    requires |s| <= 8
    ensures BitsOf(ByteOf(s))[..|s|] == s
  {
    forall k | 0 <= k < |s| ensures BitOf(ByteOf(s), k) == s[k] { BitOfLowFirst(s, k); }
  }

  /** The bytes of a bit stream that are complete. */
  function Whole(s: seq<bool>): seq<byte> {
    if |s| < 8 then [] else [ByteOf(s[..8])] + Whole(s[8..])
  }

  /** The bits after the complete bytes. */
  function Rest(s: seq<bool>): (r: seq<bool>)
    ensures |r| < 8
  {
    if |s| < 8 then s else Rest(s[8..])
  }

  /** One more bit either stays pending or completes a byte. */
  lemma {:induction false} WholeMore(s: seq<bool>, b: bool)
    ensures if |Rest(s)| < 7 then Whole(s + [b]) == Whole(s) && Rest(s + [b]) == Rest(s) + [b]
            else Whole(s + [b]) == Whole(s) + [ByteOf(Rest(s) + [b])] && Rest(s + [b]) == []
  {
    if |s| < 8 {
      if |s| == 7 { assert (s + [b])[..8] == s + [b] && (s + [b])[8..] == []; }
    } else {
      assert (s + [b])[..8] == s[..8] && (s + [b])[8..] == s[8..] + [b];
      WholeMore(s[8..], b);
    }
  }

  /** Finishing a stream: the complete bytes, then one padded byte if bits are pending. */
  lemma {:induction false} PackedIs(s: seq<bool>)
    ensures Packed(s) == Whole(s) + if Rest(s) == [] then [] else [ByteOf(Rest(s))]
  {
    if |s| == 8 {
      assert s[..8] == s && s[8..] == [];
    } else if |s| > 8 {
      PackedIs(s[8..]);
    }
  }

  /** Unpacking gives the bit stream back, and some padding. */
  lemma {:induction false} FlatPacked(s: seq<bool>)
    ensures |s| <= |Flat(Packed(s))| && Flat(Packed(s))[..|s|] == s
  {
    if s == [] {
    } else if |s| <= 8 {
      ByteFlat(s);
      assert [ByteOf(s)][1..] == [];
    } else {
      ByteFlat(s[..8]);
      FlatPacked(s[8..]);
      assert Packed(s)[1..] == Packed(s[8..]);
      assert s == s[..8] + s[8..];
    }
  }

  // -------------------------------------------------------------- walking down

  datatype Error = NotSqueezed | ReadError | WildNode

  datatype Outcome = Done(e: Expander) | Failed(error: Error)

  /** Follow the bits through the dictionary, expanding every symbol met, until EOF is met. */
  function Decode(left: seq<int>, right: seq<int>, node: nat, e: Expander, bits: seq<bool>): (r: Outcome)
    requires |left| == |right| == MAXNODE && node < MAXNODE && e.Ok()
    ensures r.Done? ==> r.e.Ok()
    decreases |bits|
  {
    if bits == [] then Failed(ReadError) else
    var code := if bits[0] then right[node] else left[node];
    if code >= MAXNODE then Failed(WildNode)
    else if code >= 0 then Decode(left, right, code, e, bits[1..])
    else if -1 - code == SQ_EOF then Done(e)
    else
      match Take(e, (-1 - code) % 256)
      case None => Failed(ReadError)
      case Some(e') => Decode(left, right, 0, e', bits[1..])
  }

  /** An entry as it is written: node numbers count from the root. */
  function Moved(e: int, root: nat): int { if e >= 0 then e - root else e }

  /** The arrays left and right hold the dictionary d from its root on. */
  ghost predicate Loaded(d: Dict, left: seq<int>, right: seq<int>, upto: nat) {
    && Sized(d) && |left| == |right| == MAXNODE
    && forall n {:trigger LoadedAt(d, left, right, n)} :: d.cur < n < upto ==> LoadedAt(d, left, right, n)
  }

  ghost predicate LoadedAt(d: Dict, left: seq<int>, right: seq<int>, n: nat)
    requires Sized(d) && |left| == |right| == MAXNODE
  {
    d.cur < n < MAXNODE
    && left[n - (d.cur + 1)] == Moved(d.left[n], d.cur + 1) && right[n - (d.cur + 1)] == Moved(d.right[n], d.cur + 1)
  }

  /** One branch, from the node above slot i. */
  lemma {:induction false} DecodeBranch(d: Dict, base: seq<nat>, left: seq<int>, right: seq<int>, i: nat)
    requires Coded(d, base) && Loaded(d, left, right, MAXNODE) && d.cur + 1 < i < SLOTS && Used(base, i)
    ensures var p := Up(d, i); var b := d.left[p] != CodeOf(i);
            && d.cur < p < MAXNODE && p < i
            && Path(d, base, i) == Path(d, base, p) + [b]
            && (if b then right[p - (d.cur + 1)] else left[p - (d.cur + 1)]) == Moved(CodeOf(i), d.cur + 1)
  {
    assert Attached(d, i);
    assert LoadedAt(d, left, right, Up(d, i));
  }

  lemma {:induction false} Root(d: Dict, base: seq<nat>, left: seq<int>, right: seq<int>)
    requires Coded(d, base) && Loaded(d, left, right, MAXNODE)
    ensures Sized(d) && d.cur + 1 < MAXNODE && |left| == |right| == MAXNODE && Path(d, base, d.cur + 1) == []
  {
  }

  /** One bit of decoding. */
  lemma {:induction false} DecodeBit(left: seq<int>, right: seq<int>, node: nat, e: Expander, b: bool, rest: seq<bool>)
    requires |left| == |right| == MAXNODE && node < MAXNODE && e.Ok()
    ensures var code := if b then right[node] else left[node];
            var o := Decode(left, right, node, e, [b] + rest);
            && (0 <= code < MAXNODE ==> o == Decode(left, right, code, e, rest))
            && (code == -1 - SQ_EOF ==> o == Done(e))
            && (-1 - SQ_EOF < code < 0 ==>
                  o == match Take(e, -1 - code) case None => Failed(ReadError) case Some(e') => Decode(left, right, 0, e', rest))
  {
    assert ([b] + rest)[1..] == rest;
  }

  /** The path of a node leads to that node. */
  lemma {:induction false} DecodeDown(d: Dict, base: seq<nat>, left: seq<int>, right: seq<int>, i: nat, e: Expander,
                                      rest: seq<bool>)
    requires Coded(d, base) && Loaded(d, left, right, MAXNODE) && d.cur < i < MAXNODE && e.Ok()
    ensures Decode(left, right, 0, e, Path(d, base, i) + rest) == Decode(left, right, i - (d.cur + 1), e, rest)
    decreases i
  {
    hide Coded, Loaded, Decode, Path, Take;
    Root(d, base, left, right);
    if i == d.cur + 1 {
      assert [] + rest == rest;
    } else {
      DecodeBranch(d, base, left, right, i);
      var p := Up(d, i);
      var b := d.left[p] != CodeOf(i);
      DecodeDown(d, base, left, right, p, e, [b] + rest);
      Associate(Path(d, base, p), [b], rest);
      DecodeBit(left, right, p - (d.cur + 1), e, b, rest);
    }
  }

  /** The path of a symbol is read as that symbol. */
  lemma {:induction false} DecodeSymbol(d: Dict, base: seq<nat>, left: seq<int>, right: seq<int>, c: Code, e: Expander,
                                        rest: seq<bool>)
    requires Coded(d, base) && Loaded(d, left, right, MAXNODE) && Used(base, MAXNODE + c) && e.Ok()
    ensures Decode(left, right, 0, e, Path(d, base, MAXNODE + c) + rest)
         == if c == SQ_EOF then Done(e) else
            match Take(e, c) case None => Failed(ReadError) case Some(e') => Decode(left, right, 0, e', rest)
  {
    hide Coded, Loaded, Decode, Path, Take;
    var i := MAXNODE + c;
    Root(d, base, left, right);
    DecodeBranch(d, base, left, right, i);
    var p := Up(d, i);
    var b := d.left[p] != CodeOf(i);
    DecodeDown(d, base, left, right, p, e, [b] + rest);
    Associate(Path(d, base, p), [b], rest);
    DecodeBit(left, right, p - (d.cur + 1), e, b, rest);
  }

  lemma {:induction false} TakeLast(e: Expander, s: seq<Code>, e': Expander) returns (e1: Expander)
    requires e.Ok() && s != [] && (forall i :: 0 <= i < |s| ==> s[i] < 256) && TakeAll(e, s) == Some(e')
    ensures e1.Ok() && TakeAll(e, s[..|s| - 1]) == Some(e1) && Take(e1, s[|s| - 1]) == Some(e')
  {
    var n := |s| - 1;
    assert s == s[..n] + [s[n]];
    TakeConcat(e, s[..n], [s[n]]);
    e1 := TakeAll(e, s[..n]).value;
    assert [s[n]][1..] == [];
  }

  lemma {:induction false} DecodeText(d: Dict, base: seq<nat>, left: seq<int>, right: seq<int>, s: seq<Code>,
                                      e: Expander, e': Expander, rest: seq<bool>)
    requires Coded(d, base) && Loaded(d, left, right, MAXNODE) && e.Ok()
    requires AllUsed(base, s)
    requires (forall i :: 0 <= i < |s| ==> s[i] < 256) && TakeAll(e, s) == Some(e')
    ensures Decode(left, right, 0, e, Encoded(d, base, s) + rest) == Decode(left, right, 0, e', rest)
    decreases |s|
  {
    if s == [] {
      assert [] + rest == rest;
    } else {
      var n := |s| - 1;
      var e1 := TakeLast(e, s, e');
      var path := Path(d, base, MAXNODE + s[n]);
      DecodeText(d, base, left, right, s[..n], e, e1, path + rest);
      assert Encoded(d, base, s) + rest == Encoded(d, base, s[..n]) + (path + rest);
      DecodeSymbol(d, base, left, right, s[n], e1, rest);
    }
  }

  /** What the expander makes of a whole encoded file. */
  lemma {:induction false} DecodeFile(d: Dict, base: seq<nat>, left: seq<int>, right: seq<int>, text: seq<byte>,
                                      rest: seq<bool>) returns (e: Expander)
    requires Coded(d, base) && Loaded(d, left, right, MAXNODE)
    requires AllUsed(base, FileCodes(text))
    ensures e.Ok() && e.Text() == text
    ensures Decode(left, right, 0, StartExpander(), Encoded(d, base, FileCodes(text)) + rest) == Done(e)
  {
    e := RleRoundTrip(text);
    var s, all := Codes(Idle, text), FileCodes(text);
    assert all[..|s|] == s && all[|s|] == SQ_EOF;
    var path := Path(d, base, MAXNODE + SQ_EOF);
    assert Encoded(d, base, all) + rest == Encoded(d, base, s) + (path + rest);
    DecodeText(d, base, left, right, s, StartExpander(), e, path + rest);
    DecodeSymbol(d, base, left, right, SQ_EOF, e, rest);
  }

  // ---------------------------------------------------------------- the header

  const MAGIC := 0xFF76

  /** A 16-bit word, low byte first. */
  function Word(v: int): seq<byte> { [v % 256, v / 256 % 256] }

  function Unsigned(s: int): int { if s < 0 then s + 0x10000 else s }
  function Signed(u: int): int { if u >= 0x8000 then u - 0x10000 else u }

  function Checksum(text: seq<byte>): (c: int)
    ensures 0 <= c < 0x10000
  {
    if text == [] then 0 else (Checksum(text[..|text| - 1]) + text[|text| - 1]) % 0x10000
  }

  /** The dictionary from node n on, as it is written. */
  function Nodes(d: Dict, n: nat): seq<byte>
    requires Sized(d)
    decreases MAXNODE - n
  {
    if n >= MAXNODE then [] else
    Word(Unsigned(Moved(d.left[n], d.cur + 1))) + Word(Unsigned(Moved(d.right[n], d.cur + 1))) + Nodes(d, n + 1)
  }

  function Header(sum: int, name: seq<byte>, d: Dict): seq<byte>
    requires Sized(d)
  {
    Word(MAGIC) + Word(sum) + name + [0] + Word(MAXNODE - (d.cur + 1)) + Nodes(d, d.cur + 1)
  }

  /** What the compressor writes; d0 is whatever its arrays held before. */
  ghost function Squeezed(d0: Dict, text: seq<byte>, name: seq<byte>): seq<byte>
    requires Sized(d0)
  {
    var s := FileCodes(text);
    Header(Checksum(text), name, Analyze(d0, s)) + Packed(Stream(d0, s))
  }

  // ----------------------------------------------------------------- reading

  function ReadWord(f: seq<byte>): Option<(nat, seq<byte>)> {
    if |f| < 2 then None else
    var v: nat := f[0] as int + 256 * f[1] as int;
    Some((v, f[2..]))
  }

  function SkipName(f: seq<byte>): Option<seq<byte>> {
    if f == [] then None else if f[0] == 0 then Some(f[1..]) else SkipName(f[1..])
  }

  /** Read dictionary entries k..n-1. */
  function ReadNodes(f: seq<byte>, left: seq<int>, right: seq<int>, k: nat, n: nat): (r: Option<(seq<int>, seq<int>, seq<byte>)>)
    requires k <= n <= MAXNODE && |left| == |right| == MAXNODE
    ensures r.Some? ==> |r.value.0| == |r.value.1| == MAXNODE
    decreases n - k
  {
    if k == n then Some((left, right, f)) else
    match ReadWord(f)
    case None => None
    case Some((l, f1)) =>
      match ReadWord(f1)
      case None => None
      case Some((r, f2)) => ReadNodes(f2, left[k := Signed(l)], right[k := Signed(r)], k + 1, n)
  }

  datatype Result = Ok(text: seq<byte>) | Err(error: Error)

  /** Expand a file; left and right are whatever the arrays held before. */
  function Unsqueeze(left: seq<int>, right: seq<int>, f: seq<byte>): Result
    requires |left| == |right| == MAXNODE
  {
    match ReadWord(f)
    case None => Err(ReadError)
    case Some((magic, f1)) =>
      if magic != MAGIC then Err(NotSqueezed) else
      match ReadWord(f1)
      case None => Err(ReadError)
      case Some((sum, f2)) =>
        match SkipName(f2)
        case None => Err(ReadError)
        case Some(f3) =>
          match ReadWord(f3)
          case None => Err(ReadError)
          case Some((n, f4)) => if n > MAXNODE then Err(NotSqueezed) else UnsqueezeData(left, right, sum, n, f4)
  }

  function UnsqueezeData(left: seq<int>, right: seq<int>, sum: int, n: nat, f: seq<byte>): Result
    requires |left| == |right| == MAXNODE && n <= MAXNODE
  {
    match ReadNodes(f, left, right, 0, n)
    case None => Err(ReadError)
    case Some((l, r, data)) =>
      var o := if n == 0 then Done(StartExpander()) else Decode(l, r, 0, StartExpander(), Flat(data));
      match o
      case Failed(error) => Err(error)
      case Done(e) => if Checksum(e.Text()) == sum then Ok(e.Text()) else Err(NotSqueezed)
  }

  lemma {:induction false} WordRead(v: int, rest: seq<byte>)
    requires 0 <= v < 0x10000
    ensures ReadWord(Word(v) + rest) == Some((v, rest))
  {
    assert (Word(v) + rest)[2..] == rest;
  }

  lemma {:induction false} NameSkipped(name: seq<byte>, rest: seq<byte>)
    requires 0 !in name
    ensures SkipName(name + [0] + rest) == Some(rest)
    decreases |name|
  {
    var f := name + [0] + rest;
    if name == [] {
      assert f == [0] + rest && f[1..] == rest;
    } else {
      assert f[0] == name[0] && f[1..] == name[1..] + [0] + rest;
      NameSkipped(name[1..], rest);
    }
  }

  /** Written dictionary entries fit a signed word. */
  lemma {:induction false} EntryFits(d: Dict, base: seq<nat>, n: nat)
    requires Coded(d, base) && d.cur < n < MAXNODE
    ensures -MAXLEAF <= Moved(d.left[n], d.cur + 1) < MAXNODE
    ensures -MAXLEAF <= Moved(d.right[n], d.cur + 1) < MAXNODE
  {
    assert NodeOk(d, n);
  }

  lemma {:induction false} NodesRead(d: Dict, base: seq<nat>, n: nat, rest: seq<byte>, left: seq<int>, right: seq<int>)
      returns (l: seq<int>, r: seq<int>)
    requires Coded(d, base) && d.cur < n <= MAXNODE && Loaded(d, left, right, n)
    ensures Loaded(d, l, r, MAXNODE)
    ensures ReadNodes(Nodes(d, n) + rest, left, right, n - (d.cur + 1), MAXNODE - (d.cur + 1)) == Some((l, r, rest))
    decreases MAXNODE - n
  {
    hide Moved, Word, Unsigned, Signed, ReadWord, NodeOk, Attached, Used, Coded;
    if n == MAXNODE {
      l, r := left, right;
      assert Nodes(d, n) + rest == rest;
    } else {
      EntryFits(d, base, n);
      var a, b := Moved(d.left[n], d.cur + 1), Moved(d.right[n], d.cur + 1);
      var k := n - (d.cur + 1);
      var left', right' := left[k := a], right[k := b];
      forall m | d.cur < m < n + 1 ensures LoadedAt(d, left', right', m) {
        if m < n { assert LoadedAt(d, left, right, m); }
      }
      l, r := NodesRead(d, base, n + 1, rest, left', right');
      assert Nodes(d, n) + rest == Word(Unsigned(a)) + (Word(Unsigned(b)) + (Nodes(d, n + 1) + rest));
      EntriesRead(a, b, Nodes(d, n + 1) + rest, left, right, k, MAXNODE - (d.cur + 1));
    }
  }

  lemma {:induction false} EntriesRead(a: int, b: int, rest: seq<byte>, left: seq<int>, right: seq<int>, k: nat, n: nat)
    requires k < n <= MAXNODE && |left| == |right| == MAXNODE && -0x8000 <= a < 0x8000 && -0x8000 <= b < 0x8000
    ensures ReadNodes(Word(Unsigned(a)) + (Word(Unsigned(b)) + rest), left, right, k, n)
         == ReadNodes(rest, left[k := a], right[k := b], k + 1, n)
  {
    WordRead(Unsigned(a), Word(Unsigned(b)) + rest);
    WordRead(Unsigned(b), rest);
    assert Signed(Unsigned(a)) == a && Signed(Unsigned(b)) == b;
  }

  /** Reading back the data part of a file. */
  lemma {:induction false} DataRead(d: Dict, base: seq<nat>, text: seq<byte>, left: seq<int>, right: seq<int>)
    requires Coded(d, base) && |left| == |right| == MAXNODE
    requires AllUsed(base, FileCodes(text))
    ensures var data := Packed(Encoded(d, base, FileCodes(text)));
            UnsqueezeData(left, right, Checksum(text), MAXNODE - (d.cur + 1), Nodes(d, d.cur + 1) + data) == Ok(text)
  {
    var bits := Encoded(d, base, FileCodes(text));
    var data := Packed(bits);
    var l, r := NodesRead(d, base, d.cur + 1, data, left, right);
    FlatPacked(bits);
    assert Flat(data) == bits + Flat(data)[|bits|..];
    var e := DecodeFile(d, base, l, r, text, Flat(data)[|bits|..]);
  }

  lemma {:induction false} HeaderRead(sum: nat, name: seq<byte>, d: Dict, data: seq<byte>, left: seq<int>, right: seq<int>)
    requires Sized(d) && 0 !in name && sum < 0x10000 && |left| == |right| == MAXNODE
    ensures Unsqueeze(left, right, Header(sum, name, d) + data)
         == UnsqueezeData(left, right, sum, MAXNODE - (d.cur + 1), Nodes(d, d.cur + 1) + data)
  {
    var n := MAXNODE - (d.cur + 1);
    var f4 := Nodes(d, d.cur + 1) + data;
    var f3 := Word(n) + f4;
    var f2 := name + [0] + f3;
    var f1 := Word(sum) + f2;
    assert Header(sum, name, d) + data == Word(MAGIC) + f1;
    WordRead(MAGIC, f1);
    WordRead(sum, f2);
    NameSkipped(name, f3);
    WordRead(n, f4);
  }

  /** Squeeze loses nothing: every file, the empty one included, comes back whole. */
  lemma {:induction false} SqueezeRoundTrip(d0: Dict, text: seq<byte>, name: seq<byte>, left: seq<int>, right: seq<int>)
    requires Sized(d0) && 0 !in name && |left| == |right| == MAXNODE
    ensures Unsqueeze(left, right, Squeezed(d0, text, name)) == Ok(text)
  {
    var s := FileCodes(text);
    var d := Analyze(d0, s);
    var base := Start(d0, s).count;
    EveryCodeUsed(d0, s);
    HeaderRead(Checksum(text), name, d, Packed(Encoded(d, base, s)), left, right);
    DataRead(d, base, text, left, right);
  }
}
