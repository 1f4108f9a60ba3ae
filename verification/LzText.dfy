/**
 Text as a sequence of literals and copies: the bytes a token reader stands for,
 over a history that is never forgotten.
*/
module LzText {
  import opened Wrappers
  import opened Bits
  import opened LzCopy
  import opened Streams

  const WINDOW := 4096

  type Distance = d: int | 1 <= d <= WINDOW witness 1

  /** The text so far, preceded by at least a window of earlier bytes. */
  type History = h: seq<byte> | |h| >= WINDOW witness seq(WINDOW, _ => 0)

  datatype Token = Literal(b: byte) | Match(dist: Distance, len: nat) | End

  /** Between two bytes: left bytes are still to be copied from dist bytes back. */
  datatype State<+C> = State(coder: C, hist: History, dist: Distance, left: nat)

  function Push<C>(s: State<C>, b: byte): State<C> { s.(hist := s.hist + [b]) }

  /** Copy one byte of a pending match. */
  function CopyByte<C>(s: State<C>): (byte, State<C>)
    requires s.left > 0
  {
    var b := s.hist[|s.hist| - s.dist];
    (b, Push(s, b).(left := s.left - 1))
  }

  /** The next byte of text; None once there are no more tokens. */
  function NextByte<C>(read: C -> (Token, C), s: State<C>): (Option<byte>, State<C>) {
    if s.left > 0 then
      var (b, s') := CopyByte(s);
      (Some(b), s')
    else
      var (k, c) := read(s.coder);
      if k.Literal? then (Some(k.b), Push(s.(coder := c), k.b))
      else if k.Match? && k.len > 0 then
        var (b, s') := CopyByte(s.(coder := c, dist := k.dist, left := k.len));
        (Some(b), s')
      else (None, s.(coder := c))
  }

  function Next<C>(read: C -> (Token, C)): State<C> -> (Option<byte>, State<C>) {
    s => NextByte(read, s)
  }

  ghost predicate EndsForGood<C(!new)>(read: C -> (Token, C)) {
    forall c :: EndsAt(read, c)
  }

  ghost predicate EndsAt<C(!new)>(read: C -> (Token, C), c: C) {
    var (k, c') := read(c);
    (k.Match? ==> k.len > 0) && (k.End? ==> read(c') == (End, c'))
  }

  lemma {:induction false} NextStaysDry<C(!new)>(read: C -> (Token, C))
    requires EndsForGood(read)
    ensures StaysDry(Next(read))
  {
    forall s: State<C> ensures DryAt(Next(read), s) {
      assert EndsAt(read, s.coder);
      var (b, s') := NextByte(read, s);
      assert Next(read)(s) == (b, s') && Next(read)(s') == NextByte(read, s');
      if b.None? {
        assert s'.left == 0 && s' == s.(coder := read(s.coder).1);
        assert read(s'.coder) == (End, s'.coder);
        assert s'.(coder := s'.coder) == s';
      }
    }
  }

  /** However the requests are cut, the text is the same. */
  lemma {:induction false} RequestsDoNotMatter<C(!new)>(read: C -> (Token, C), s: State<C>, lens: seq<nat>)
    requires EndsForGood(read)
    ensures TakeAll(Next(read), s, lens) == Take(Next(read), s, Sum(lens))
  {
    NextStaysDry(read);
    ChunkIndependence(Next(read), s, lens);
  }

  // -------------------------------------------------------- the text of tokens

  function ExpandToken(h: History, k: Token): (r: History)
    ensures |r| >= |h| && r[..|h|] == h
  {
    match k
    case Literal(b) => h + [b]
    case Match(d, n) => Copied(h, d, n)
    case End => h
  }

  /** The history after a text. */
  function Expand(h: History, ks: seq<Token>): (r: History)
    ensures |r| >= |h| && r[..|h|] == h
    decreases |ks|
  {
    if ks == [] then h else
    var h' := ExpandToken(h, ks[0]);
    var r := Expand(h', ks[1..]);
    assert r[..|h|] == r[..|h'|][..|h|];
    r
  }

  /** Reading from coder state c gives the tokens ks and leaves coder state c'. */
  ghost predicate Spells<C>(read: C -> (Token, C), c: C, ks: seq<Token>, c': C)
    decreases |ks|
  {
    if ks == [] then c == c' else
    var (k, c1) := read(c);
    k == ks[0] && !k.End? && (k.Match? ==> k.len > 0) && Spells(read, c1, ks[1..], c')
  }

  lemma {:induction false} SpellsMore<C>(read: C -> (Token, C), c: C, ks: seq<Token>, c1: C, c': C)
    requires ks != [] && read(c) == (ks[0], c1) && !ks[0].End? && (ks[0].Match? ==> ks[0].len > 0)
    requires Spells(read, c1, ks[1..], c')
    ensures Spells(read, c, ks, c')
  {
  }

  /** Stepping from s delivers the text up to the history of s', and ends in s'. */
  ghost predicate Delivers<C>(read: C -> (Token, C), s: State<C>, s': State<C>) {
    && |s.hist| <= |s'.hist|
    && Take(Next(read), s, |s'.hist| - |s.hist|) == (s'.hist[|s.hist|..], s')
  }

  lemma {:induction false} DeliversMore<C(!new)>(read: C -> (Token, C), s: State<C>, s': State<C>, s'': State<C>)
    requires EndsForGood(read) && Delivers(read, s, s') && Delivers(read, s', s'')
    requires s''.hist[..|s'.hist|] == s'.hist
    ensures Delivers(read, s, s'')
  {
    NextStaysDry(read);
    var a, b, c := s.hist, s'.hist, s''.hist;
    TakeTwice(Next(read), s, |b| - |a|, b[|a|..], s', |c| - |b|, c[|b|..], s'');
    assert c[|a|..] == b[|a|..] + c[|b|..];
  }

  lemma {:induction false} DeliversCopies<C>(read: C -> (Token, C), s: State<C>)
    ensures Delivers(read, s, s.(hist := Copied(s.hist, s.dist, s.left), left := 0))
    decreases s.left
  {
    if s.left == 0 {
      assert s.hist[|s.hist|..] == [];
    } else {
      var (b, s') := CopyByte(s);
      DeliversCopies(read, s');
      var h, h', r := s.hist, s'.hist, Copied(s.hist, s.dist, s.left);
      assert r[..|h'|] == h' && h'[|h|] == b;
      assert r[|h|..] == [b] + r[|h'|..];
    }
  }

  lemma {:induction false} DeliversToken<C>(read: C -> (Token, C), s: State<C>) returns (s': State<C>)
    requires s.left == 0 && !read(s.coder).0.End? && (read(s.coder).0.Match? ==> read(s.coder).0.len > 0)
    ensures s'.left == 0 && s'.coder == read(s.coder).1 && s'.hist == ExpandToken(s.hist, read(s.coder).0)
    ensures Delivers(read, s, s')
  {
    var (k, c) := read(s.coder);
    if k.Literal? {
      s' := Push(s.(coder := c), k.b);
      TakeOne(Next(read), s);
    } else {
      var s1 := s.(coder := c, dist := k.dist, left := k.len);
      DeliversCopies(read, s1);
      s' := s1.(hist := Copied(s.hist, k.dist, k.len), left := 0);
      assert Next(read)(s) == Next(read)(s1);
      TakeAlike(Next(read), s, s1, k.len);
    }
  }

  /** The bytes delivered are those of the tokens read. */
  lemma {:induction false} DeliversText<C(!new)>(read: C -> (Token, C), s: State<C>, ks: seq<Token>, c': C)
      returns (s': State<C>)
    requires EndsForGood(read) && s.left == 0 && Spells(read, s.coder, ks, c')
    ensures s'.left == 0 && s'.coder == c' && s'.hist == Expand(s.hist, ks)
    ensures Delivers(read, s, s')
    decreases |ks|
  {
    if ks == [] {
      s' := s;
      assert s.hist[|s.hist|..] == [];
    } else {
      var s1 := DeliversToken(read, s);
      s' := DeliversText(read, s1, ks[1..], c');
      DeliversMore(read, s, s1, s');
    }
  }
}
