/**
 The TeleDisk LZHUF decoder: the tree arrays, updated in place, and the ring
 buffer of already decoded text.
*/
module LzhufDecoder {
  import opened LzhufTree
  import opened LzhufCoding
  import opened LzhufText
  import opened LzText
  import opened Wrappers
  import opened Bits
  import opened Streams
  import Rebuild = LzhufRebuild

  /** Move a[k..j] up by one place; a[k] keeps its value. */
  method MoveUp(a: array<int>, k: nat, j: nat)
    requires k <= j < a.Length
    modifies a
    ensures a[..] == old(a[..k + 1]) + old(a[k..j]) + old(a[j + 1..])
  {
    ghost var s := a[..];
    var n := j;
    while n > k
      invariant k <= n <= j
      invariant a[..] == s[..n + 1] + s[n..j] + s[j + 1..]
    {
      a[n] := a[n - 1];
      n := n - 1;
    }
  }

  /** Make room for x at place k among the first j entries. */
  method InsertAt(a: array<int>, k: nat, j: nat, x: int)
    requires k <= j < a.Length
    modifies a
    ensures a[..j + 1] == Rebuild.Insert(old(a[..j]), k, x)
    ensures forall y :: j < y < a.Length ==> a[y] == old(a[y])
  {
    ghost var s := a[..];
    MoveUp(a, k, j);
    a[k] := x;
    Rebuild.InsertParts(s[..j], k, x);
    assert a[..] == s[..k] + [x] + s[k..j] + s[j + 1..];
    assert s[..j][..k] == s[..k] && s[..j][k..] == s[k..j];
  }

  lemma {:induction false} SearchPastNode(f: seq<int>, c: nat, k: int)
    requires c + 2 < |f| && k <= f[|f| - 1]
    ensures FirstNotBelow(f[c := k], k, c + 2) == FirstNotBelow(f, k, c + 2)
  {
    SearchSame(f[c := k], f, k, c + 2);
  }

  lemma {:induction false} SearchSame(f: seq<int>, g: seq<int>, k: int, l: nat)
    requires l < |f| == |g| && f[l..] == g[l..] && k <= f[|f| - 1] == g[|g| - 1]
    ensures FirstNotBelow(f, k, l) == FirstNotBelow(g, k, l)
    decreases |f| - l
  {
    assert f[l] == f[l..][0] == g[l..][0] == g[l];
    if k > f[l] {
      assert f[l + 1..] == f[l..][1..] == g[l..][1..] == g[l + 1..];
      SearchSame(f, g, k, l + 1);
    }
  }

  class Decoder {
    const freq: array<int>
    const son: array<int>
    const prnt: array<int>
    /** Input bits not yet read. */
    var bits: seq<bool>
    /** The ring buffer, where the next byte goes, and the match being copied: its length, how much is done, where it started. */
    const textBuf: array<byte>
    var r: nat
    var bufcnt: nat
    var bufndx: nat
    var bufpos: nat

    /** Everything before the next byte, and the distance of the match being copied. */
    ghost var hist: History
    ghost var dist: Distance

    ghost predicate Wired() {
      && freq.Length == T + 1 && son.Length == T && prnt.Length == T + N_CHAR
      && freq != son && freq != prnt && son != prnt
    }

    ghost function Tree(): (t: Tree)
      requires Wired()
      reads freq, son, prnt
      ensures Shape(t)
    {
      LzhufTree.Tree.Tree(freq[..], son[..], prnt[..])
    }

    /** The last node whose count is below k, looking from node l on. */
    method LastBelow(k: int, start: nat) returns (l: nat)
      requires Wired() && 0 < start <= T && k <= freq[T]
      ensures l + 1 == FirstNotBelow(freq[..], k, start)
    {
      l := start;
      while k > freq[l]
        invariant start <= l <= T
        invariant FirstNotBelow(freq[..], k, l) == FirstNotBelow(freq[..], k, start)
        decreases T - l
      {
        l := l + 1;
      }
      l := l - 1;
    }

    /** Let the subtrees below nodes c and l change places. */
    method ExchangeSons(c: nat, l: nat)
      requires Wired() && c < l < T && Linked(son[..], prnt[..])
      modifies son, prnt
      ensures son[..] == old(son[..])[l := old(son[c])][c := old(son[l])]
      ensures 0 <= old(son[c]) < T + N_CHAR && 0 <= old(son[l]) < T + N_CHAR
      ensures prnt[..] == Reparent(Reparent(old(prnt[..]), old(son[c]), l), old(son[l]), c)
    {
      assert SonOk(son[..], prnt[..], c) && SonOk(son[..], prnt[..], l);
      var i := son[c];
      prnt[i] := l;
      if i < T { prnt[i + 1] := l; }
      assert prnt[..] == Reparent(old(prnt[..]), i, l);

      var j := son[l];
      son[l] := i;

      prnt[j] := c;
      if j < T { prnt[j + 1] := c; }
      son[c] := j;
    }

    /** Raise the count of node c; swap the node behind its equals. */
    method Bump(c: nat) returns (l: nat)
      requires Wired() && Lagging(Tree(), c)
      modifies freq, son, prnt
      ensures l == Place(old(Tree()), c)
      ensures Tree() == Swap(old(Tree()), c, l)
    {
      hide Linked, Sums, Valid;
      ghost var t := Tree();
      freq[c] := freq[c] + 1;
      var k := freq[c];
      l := c + 1;
      if k > freq[l] {
        assert InOrder(t.freq, c, R);
        l := LastBelow(k, l + 1);
        SearchPastNode(t.freq, c, k);
        freq[c] := freq[l];
        freq[l] := k;
        ExchangeSons(c, l);
      } else {
        l := c;
      }
    }

    /** Raise the counts from node c up to the root. */
    method RaiseFrom(c: nat)
      requires Wired() && Lagging(Tree(), c)
      modifies freq, son, prnt
      ensures Tree() == Climb(old(Tree()), c)
    {
      ghost var goal := Climb(Tree(), c);
      var n, more := c, true;
      while more
        invariant if more then Lagging(Tree(), n) && Climb(Tree(), n) == goal else Tree() == goal
        decreases more, T - n
      {
        ClimbStep(Tree(), n);
        var l := Bump(n);
        n := prnt[l];
        more := n != 0;
      }
    }

    /** Count symbol c once more. */
    method Update(c: nat)
      requires Wired() && Valid(Tree()) && c < N_CHAR
      modifies freq, son, prnt
      ensures Tree() == Rebuild.Update(old(Tree()), c)
    {
      if freq[R] == MAX_FREQ {
        Reconst();
      }
      ghost var u := Tree();
      assert ParentOk(u.son, u.prnt, c + T);
      assert Lagging(u, u.prnt[c + T]) by { Rebuild.LeafLags(u, c); }
      RaiseFrom(prnt[c + T]);
    }

    // ------------------------------------------------------------ rebuilding

    /** Move the leaves down to the front, halving their counts. */
    method HalveLeaves()
      requires Wired() && Valid(Tree())
      modifies freq, son
      ensures |Rebuild.HalvedLeaves(old(Tree()), T).0| == N_CHAR
      ensures freq[..N_CHAR] == Rebuild.HalvedLeaves(old(Tree()), T).0
      ensures son[..N_CHAR] == Rebuild.HalvedLeaves(old(Tree()), T).1
      ensures freq[T] == SENTINEL
    {
      ghost var t := Tree();
      Rebuild.AllLeavesCompacted(t);
      ghost var fs: seq<int>, ss: seq<int> := [], [];
      var i, j := 0, 0;
      while i < T
        invariant 0 <= i <= T && j == |fs| == |ss| <= i
        invariant (fs, ss) == Rebuild.HalvedLeaves(t, i)
        invariant freq[..j] == fs && son[..j] == ss
        invariant forall x :: i <= x <= T ==> freq[x] == t.freq[x]
        invariant forall x :: i <= x < T ==> son[x] == t.son[x]
      {
        if son[i] >= T {
          freq[j] := (freq[i] + 1) / 2;
          son[j] := son[i];
          fs, ss := fs + [freq[j]], ss + [son[j]];
          j := j + 1;
        }
        i := i + 1;
      }
    }

    /** Halve all counts and rebuild the tree. */
    method Reconst()
      requires Wired() && Valid(Tree())
      modifies freq, son, prnt
      ensures Tree() == Rebuild.Reconst(old(Tree()))
    {
      ghost var t := Tree();
      Rebuild.HalvedForest(t);
      assert ParentOk(t.son, t.prnt, R);
      ghost var h := Rebuild.HalvedLeaves(t, T);
      HalveLeaves();
      Rebuild.AscendingPositive(h.0);
      assert Holds(h.0, h.1, N_CHAR);
      ghost var b := Rebuild.PairUp(h.0, h.1, 0);
      PairLeaves(h.0, h.1, b);
      Rebuild.BuildOk(h.0, h.1, t.prnt, Rebuild.Ranks(t), Rebuild.Halves(t), b);
      assert freq[..] == b.0 + [SENTINEL];
      assert son[..] == b.1;
      ConnectParents();
    }

    /** Put a new node of frequency f and son i in place k; the nodes from there on move up. */
    method InsertNode(k: nat, j: nat, f: int, i: int)
      requires Wired() && k <= j < T
      modifies freq, son
      ensures freq[..j + 1] == Rebuild.Insert(old(freq[..j]), k, f)
      ensures son[..j + 1] == Rebuild.Insert(old(son[..j]), k, i)
      ensures freq[T] == old(freq[T])
    {
      InsertAt(freq, k, j, f);
      InsertAt(son, k, j, i);
    }

    /** One past the last of the first j nodes whose frequency does not exceed f. */
    method FindSlot(f: int, j: nat, i: nat) returns (k: nat)
      requires Wired() && i < j < T && freq[i] <= f
      ensures k == Rebuild.Slot(freq[..j], f, j)
    {
      ghost var fs := freq[..j];
      var n := j - 1;
      while f < freq[n]
        invariant i <= n < j
        invariant Rebuild.Slot(fs, f, n + 1) == Rebuild.Slot(fs, f, j)
        decreases n
      {
        assert fs[n] == freq[n];
        n := n - 1;
      }
      assert fs[n] == freq[n];
      k := n + 1;
    }

    /** The first j nodes hold frequencies fs and sons ss. */
    ghost predicate Holds(fs: seq<int>, ss: seq<int>, j: nat)
      requires Wired() && j <= T
      reads freq, son
    {
      fs == freq[..j] && ss == son[..j] && freq[T] == SENTINEL
    }

    /** Give the pair at i its parent: a new node, placed among the first j by frequency. */
    method PairNodes(i: nat, j: nat, ghost fs: seq<int>, ghost ss: seq<int>, ghost goal: (seq<int>, seq<int>))
      returns (ghost fs': seq<int>, ghost ss': seq<int>)
      requires Wired() && Rebuild.Pairing(fs, ss, i, goal) && j == |fs| < T && Holds(fs, ss, j)
      modifies freq, son
      ensures Rebuild.Pairing(fs', ss', i + 2, goal) && j + 1 == |fs'| <= T && Holds(fs', ss', j + 1)
    {
      hide Rebuild.Insert, Rebuild.Slot, Rebuild.PairUp;
      assert fs[i] == freq[i] && fs[i + 1] == freq[i + 1];
      var f := freq[i] + freq[i + 1];
      var k := FindSlot(f, j, i + 1);
      InsertNode(k, j, f, i);
      fs', ss' := Rebuild.PairingStep(fs, ss, i, goal);
    }

    /** Pair up the leaves, keeping the nodes sorted by frequency. */
    method PairLeaves(ghost f0: seq<int>, ghost s0: seq<int>, ghost goal: (seq<int>, seq<int>))
      requires Wired() && Rebuild.Pairing(f0, s0, 0, goal) && Holds(f0, s0, N_CHAR)
      modifies freq, son
      ensures Holds(goal.0, goal.1, T)
    {
      ghost var fs, ss := f0, s0;
      var i, j := 0, N_CHAR;
      while j < T
        invariant Rebuild.Pairing(fs, ss, i, goal) && j == |fs| <= T && Holds(fs, ss, j)
      {
        fs, ss := PairNodes(i, j, fs, ss, goal);
        i, j := i + 2, j + 1;
      }
      Rebuild.PairUpDone(fs, ss, i);
    }

    /** Point every pair and every leaf at its node. */
    method ConnectParents()
      requires Wired() && forall x :: 0 <= x < T ==> 0 <= son[x] < T + N_CHAR && son[x] != R
      modifies prnt
      ensures prnt[..] == Rebuild.Connect(son[..], old(prnt[..]), T)
    {
      for i := 0 to T
        invariant prnt[..] == Rebuild.Connect(son[..], old(prnt[..]), i)
      {
        var k := son[i];
        if k >= T {
          prnt[k] := i;
        } else {
          prnt[k] := i;
          prnt[k + 1] := i;
        }
      }
    }
  
    // -------------------------------------------------------- starting afresh

    /** Give every symbol the count one. */
    method StartLeaves()
      requires Wired()
      modifies freq, son, prnt
      ensures freq[..N_CHAR] == Rebuild.Ones(N_CHAR) && son[..N_CHAR] == Rebuild.StartSons()
      ensures forall x :: T <= x < T + N_CHAR ==> prnt[x] == x - T
    {
      for i := 0 to N_CHAR
        invariant forall x :: 0 <= x < i ==> freq[x] == 1 && son[x] == x + T
        invariant forall x :: T <= x < i + T ==> prnt[x] == x - T
      {
        freq[i] := 1;
        son[i] := i + T;
        prnt[i + T] := i;
      }
    }

    /** Append the parent of the pair at i. */
    method StartPair(i: nat, j: nat, ghost fs: seq<int>, ghost ss: seq<int>) returns (ghost fs': seq<int>, ghost ss': seq<int>)
      requires Wired() && Rebuild.Starting(fs, ss, i) && j == |fs| < T
      requires fs == freq[..j] && ss == son[..j]
      modifies freq, son, prnt
      ensures Rebuild.Starting(fs', ss', i + 2) && j + 1 == |fs'| <= T
      ensures fs' == freq[..j + 1] && ss' == son[..j + 1]
      ensures prnt[..] == old(prnt[..])[i := j][i + 1 := j]
    {
      assert fs[i] == freq[i] && fs[i + 1] == freq[i + 1];
      freq[j] := freq[i] + freq[i + 1];
      son[j] := i;
      prnt[i], prnt[i + 1] := j, j;
      fs', ss' := Rebuild.StartingAppends(fs, ss, i);
    }

    method StartHuff()
      requires Wired()
      modifies freq, son, prnt
      ensures Tree() == Rebuild.Start()
    {
      StartLeaves();
      ghost var fs, ss := freq[..N_CHAR], son[..N_CHAR];
      assert fs == Rebuild.Ones(N_CHAR) && ss == Rebuild.StartSons();
      var i, j := 0, N_CHAR;
      while j <= R
        invariant Rebuild.Starting(fs, ss, i) && j == |fs| <= T
        invariant fs == freq[..j] && ss == son[..j]
        invariant forall x :: T <= x < T + N_CHAR ==> prnt[x] == x - T
        invariant forall x :: 0 <= x < i ==> prnt[x] == N_CHAR + x / 2
        decreases T - j
      {
        fs, ss := StartPair(i, j, fs, ss);
        i, j := i + 2, j + 1;
      }
      freq[T] := SENTINEL;
      prnt[R] := 0;
      Rebuild.StartFinished(fs, ss, i, son[..], prnt[..]);
      assert freq[..] == fs + [SENTINEL] && son[..] == ss;
    }
  
    // ------------------------------------------------------------------ input

    /** The next bit, or -1 at the end of the input. */
    method GetBit() returns (b: int)
      modifies `bits
      ensures old(bits) == [] ==> b == -1 && bits == []
      ensures old(bits) != [] ==> b == (if old(bits)[0] then 1 else 0) && bits == old(bits)[1..]
    {
      if bits == [] { return -1; }
      b := if bits[0] then 1 else 0;
      bits := bits[1..];
    }

    /** The next eight bits as a byte, or -1 (and nothing left) if there are not that many. */
    method GetByte() returns (b: int)
      modifies `bits
      ensures |old(bits)| < 8 ==> b == -1 && bits == []
      ensures |old(bits)| >= 8 ==> 0 <= b < 256 && b == Value(old(bits)[..8]) && bits == old(bits)[8..]
    {
      if |bits| < 8 {
        bits := [];
        return -1;
      }
      PowersOfTwo();
      ValueBound(bits[..8]);
      b := Value(bits[..8]);
      bits := bits[8..];
    }

    /** Decode a symbol and count it; -1 when the input ends first. */
    method DecodeChar() returns (c: int)
      requires Wired() && Valid(Tree())
      modifies freq, son, prnt, `bits
      ensures var (s, t, rest) := ReadSymbol(old(Tree()), old(bits));
              Tree() == t && bits == rest && c == if s.None? then -1 else s.value
    {
      hide Sorted, Sums, Rebuild.Update;
      ghost var t := Tree();
      RootIsInner(t);
      var n: nat := son[R];
      while n < T
        invariant Tree() == t && (n < R || T <= n < T + N_CHAR)
        invariant Descend(t, n, bits) == Descend(t, t.son[R], old(bits))
        decreases if n < T then n + 1 else 0
      {
        var bit := GetBit();
        if bit < 0 { return -1; }
        n := n + bit;
        assert SonOk(t.son, t.prnt, n);
        n := son[n];
      }
      c := n - T;
      Update(c);
    }

    /** Decode a match position; -1 when the input ends first. */
    method DecodePosition() returns (pos: int)
      modifies `bits
      ensures match ReadPosition(old(bits))
              case None => pos == -1 && bits == []
              case Some((p, rest)) => pos == p && bits == rest
    {
      var b := GetByte();
      if b < 0 { return -1; }
      var i, c, j := b, DCode(b) * 64, DLen(b) - 2;
      ghost var input, n := old(bits), 8;
      while j > 0
        invariant 0 <= j && n + j == DLen(b) + 6 && n <= |input|
        invariant bits == input[n..] && i == Value(input[..n])
      {
        var bit := GetBit();
        if bit < 0 { return -1; }
        assert input[..n + 1][..n] == input[..n];
        i := 2 * i + bit;
        j, n := j - 1, n + 1;
      }
      // The lower six bits of c are clear, so or-ing in those of i adds them.
      pos := c + i % 64;
    }
  
    // ------------------------------------------------------------ text buffer

    ghost predicate RingAt(k: nat)
      requires textBuf.Length >= WINDOW && 1 <= k <= WINDOW
      reads `r, `hist, textBuf
    {
      textBuf[RingIndex(r, k)] == hist[|hist| - k]
    }

    /** The ring buffer holds the last WINDOW bytes of the history; r is where the next one goes. */
    ghost predicate Ring()
      reads this, textBuf
    {
      && textBuf.Length == WINDOW + F - 1 && r < WINDOW
      && (forall k :: 1 <= k <= WINDOW ==> RingAt(k))
      && (if bufcnt == 0 then bufndx == 0
          else bufndx < bufcnt && (bufpos + bufndx) % WINDOW == RingIndex(r, dist))
    }

    ghost predicate Ready()
      reads this, freq, son, prnt, textBuf
    {
      Wired() && Valid(Tree()) && Ring()
    }

    ghost function Now(): State<Coder>
      requires Ready()
      reads this, freq, son, prnt, textBuf
    {
      State(Coder(Tree(), bits), hist, dist, bufcnt - bufndx)
    }

    /** Append c to the text. */
    method PutByte(c: byte)
      requires textBuf.Length == WINDOW + F - 1 && r < WINDOW
      requires forall k :: 1 <= k <= WINDOW ==> RingAt(k)
      modifies textBuf, `r, `hist
      ensures r == (old(r) + 1) % WINDOW && hist == old(hist) + [c]
      ensures forall k :: 1 <= k <= WINDOW ==> RingAt(k)
    {
      ghost var h, r0 := hist, r;
      textBuf[r] := c;
      r := (r + 1) % WINDOW;
      hist := hist + [c];
      forall k | 1 <= k <= WINDOW ensures RingAt(k) {
        RingMoves(r0, k - 1);
        if k > 1 { assert old(RingAt(k - 1)); }
      }
    }

    /** Decode the position of the match of symbol c and set up copying; -2, or -1 when the input ends. */
    method DecodeMatch(c: nat) returns (result: int)
      requires Ready() && bufcnt == 0 && 256 <= c < N_CHAR
      modifies `bits, `bufcnt, `bufndx, `bufpos, `dist
      ensures Ready()
      ensures var s := old(Now());
              match ReadPosition(s.coder.bits)
              case None => result == -1 && Now() == s.(coder := s.coder.(bits := []))
              case Some((pos, rest)) =>
                && result == -2 && bufcnt > 0
                && Now() == s.(coder := s.coder.(bits := rest), dist := pos + 1, left := c - 255 + THRESHOLD)
    {
      var pos := DecodePosition();
      if pos < 0 { return -1; }
      bufpos := (r - pos - 1) % WINDOW;
      bufcnt := c - 255 + THRESHOLD;
      bufndx := 0;
      dist := pos + 1;
      result := -2;
    }

    /** Decode a literal or set up a match: the literal, -1 at the end of the input, or -2. */
    method DecodeToken() returns (c: int)
      requires Ready() && bufcnt == 0
      modifies freq, son, prnt, textBuf, `bits, `r, `bufcnt, `bufndx, `bufpos, `hist, `dist
      ensures Ready() && (c == -2 ==> bufcnt > 0)
      ensures -2 <= c < 256 && Advances(Next<Coder>(ReadToken), old(Now()), c, Now())
    {
      ghost var s := Now();
      c := DecodeChar();
      ghost var s1 := s.(coder := Coder(Tree(), bits));
      assert Now() == s1;
      if c >= 256 {
        c := DecodeMatch(c);
      } else if c >= 0 {
        PutByte(c);
        assert Now() == Push(s1, c);
      }
      TokenAdvances(s, c, Now());
    }

    /** Copy a byte of the pending match. */
    method CopyOne() returns (c: byte)
      requires Ready() && bufcnt > 0
      modifies textBuf, `r, `bufcnt, `bufndx, `hist
      ensures Ready() && (Some(c), Now()) == NextByte<Coder>(ReadToken, old(Now()))
    {
      hide Tree, RingIndex, Linked, Sorted, Sums, Valid, ReadSymbol, ReadPosition, ReadToken;
      assert RingAt(dist);
      c := textBuf[(bufpos + bufndx) % WINDOW];
      RingNext(r, dist);
      bufndx := bufndx + 1;
      PutByte(c);
      if bufndx >= bufcnt {
        bufcnt, bufndx := 0, 0;
      }
    }

    /** Decode a token or copy a byte: a byte of text, -1 at the end, -2 when a match has been set up. */
    method Advance() returns (c: int)
      requires Ready()
      modifies freq, son, prnt, textBuf, this
      ensures Ready() && (c == -2 ==> bufcnt > 0 && old(bufcnt) == 0)
      ensures -2 <= c < 256 && Advances(Next<Coder>(ReadToken), old(Now()), c, Now())
    {
      if bufcnt == 0 {
        c := DecodeToken();
      } else {
        c := CopyOne();
      }
    }

    /** Decode up to len bytes of text into buf. */
    method Decode(buf: array<byte>, len: nat) returns (count: nat)
      requires Ready() && len <= buf.Length && buf != textBuf
      modifies freq, son, prnt, textBuf, buf, this
      ensures Ready() && count <= len
      ensures (buf[..count], Now()) == Take(Next<Coder>(ReadToken), old(Now()), len)
    {
      hide Decoder.Ready, Decoder.Now, Progress, Advances, ReadToken, Valid;
      ghost var s0, step, out: seq<byte> := Now(), Next<Coder>(ReadToken), [];
      count := 0;
      ProgressStart(step, s0, len);
      while count < len
        invariant Ready() && count == |out| <= len && buf[..count] == out
        invariant Progress(step, s0, len, out, Now())
        decreases len - count, if bufcnt == 0 then 1 else 0
      {
        ghost var s := Now();
        var c := Advance();
        out := ProgressAdvances(step, s0, len, out, s, c, Now());
        if c == -1 { return; }
        if c >= 0 {
          buf[count] := c;
          count := count + 1;
        }
      }
      ProgressDone(step, s0, len, out, Now());
    }

    constructor (input: seq<bool>)
      ensures Ready() && Now() == Fresh(input)
      ensures fresh(freq) && fresh(son) && fresh(prnt) && fresh(textBuf)
    {
      freq, son, prnt := new int[T + 1], new int[T], new int[T + N_CHAR];
      textBuf := new byte[WINDOW + F - 1](_ => 0);
      bits := input;
      r, bufcnt, bufndx, bufpos := 0, 0, 0, 0;
      hist, dist := Before(), 1;
      new;
      InitDecode();
    }

    /** init_Decode: a fresh tree, and spaces everywhere but at the end of the ring. */
    method InitDecode()
      requires Wired() && textBuf.Length == WINDOW + F - 1 && bufndx == 0
      requires forall i :: 0 <= i < WINDOW ==> textBuf[i] == 0
      modifies freq, son, prnt, textBuf, `bufcnt, `r, `hist, `dist
      ensures Ready() && Now() == Fresh(bits)
    {
      bufcnt := 0;
      StartHuff();
      for i := 0 to WINDOW - F
        invariant Tree() == Rebuild.Start() && bufcnt == 0
        invariant forall k :: 0 <= k < WINDOW ==> textBuf[k] == if k < i then 32 else 0
      {
        textBuf[i] := 32;
      }
      r := WINDOW - F;
      hist, dist := Before(), 1;
      forall k | 1 <= k <= WINDOW ensures RingAt(k) { }
    }
  }

  /** The place in the ring k bytes before place r. */
  function RingIndex(r: nat, k: nat): (i: nat)
    ensures i < WINDOW
  {
    (r - k) % WINDOW
  }

  lemma {:induction false} RingMoves(r: nat, k: nat)
    requires r < WINDOW && k < WINDOW
    ensures RingIndex((r + 1) % WINDOW, k + 1) == RingIndex(r, k)
    ensures RingIndex(r, 0) == r && (k > 0 ==> RingIndex(r, k) != r)
  {
  }

  lemma {:induction false} RingNext(r: nat, k: nat)
    requires r < WINDOW && k <= WINDOW
    ensures RingIndex((r + 1) % WINDOW, k) == (RingIndex(r, k) + 1) % WINDOW
  {
  }
}
