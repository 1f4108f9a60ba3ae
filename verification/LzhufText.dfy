/**
 The tokens of a TeleDisk stream, the coder that would send them, and the text
 they stand for.
*/
module LzhufText {
  import opened LzhufTree
  import opened LzhufCoding
  import opened LzText
  import opened Wrappers
  import opened Bits
  import opened Streams
  import Rebuild = LzhufRebuild

  const F := 60
  const THRESHOLD := 2

  datatype RawCoder = Coder(tree: Tree, bits: seq<bool>)

  type Coder = c: RawCoder | Valid(c.tree) ghost witness Coder(Rebuild.Start(), [])

  /** The next literal or match; the coder's tree counts its symbol. */
  function ReadToken(c: Coder): (r: (Token, Coder))
    ensures r.0.Match? ==> 1 + THRESHOLD <= r.0.len <= F
    ensures r.0.End? ==> r.1.bits == []
  {
    match ReadSymbol(c.tree, c.bits)
    case (None, t, rest) => (End, Coder(t, rest))
    case (Some(s), t, rest) =>
      if s < 256 then (Literal(s), Coder(t, rest))
      else match ReadPosition(rest)
        case None => (End, Coder(t, []))
        case Some((pos, rest')) => (Match(pos + 1, s - 255 + THRESHOLD), Coder(t, rest'))
  }

  /** What becomes of state s when symbol and position are read step by step: result c, new state s'. */
  ghost predicate TokenRead(s: State<Coder>, c: int, s': State<Coder>) {
    var (sym, t, rest) := ReadSymbol(s.coder.tree, s.coder.bits);
    var s1 := s.(coder := Coder(t, rest));
    if sym.None? then c == -1 && s' == s1
    else if sym.value < 256 then c == sym.value && s' == Push(s1, sym.value)
    else match ReadPosition(rest)
      case None => c == -1 && s' == s1.(coder := Coder(t, []))
      case Some((pos, rest')) =>
        c == -2 && s' == s1.(coder := Coder(t, rest'), dist := pos + 1, left := sym.value - 255 + THRESHOLD)
  }

  lemma {:induction false} TokenAdvances(s: State<Coder>, c: int, s': State<Coder>)
    requires s.left == 0 && TokenRead(s, c, s')
    ensures -2 <= c < 256 && Advances(Next<Coder>(ReadToken), s, c, s')
  {
    assert Next<Coder>(ReadToken)(s) == NextByte<Coder>(ReadToken, s);
    assert Next<Coder>(ReadToken)(s') == NextByte<Coder>(ReadToken, s');
  }

  lemma {:induction false} ReadTokenEnds()
    ensures EndsForGood<Coder>(ReadToken)
  {
    forall c: Coder ensures EndsAt(ReadToken, c) {
      var c' := ReadToken(c).1;
      RootIsInner(c'.tree);
      assert ReadSymbol(c'.tree, []) == (None, c'.tree, []);
    }
  }

  /** What precedes the text: F zero bytes, then spaces. */
  function Before(): (h: History)
    ensures |h| == WINDOW && forall i :: 0 <= i < WINDOW ==> h[i] == if i < F then 0 else 32
  {
    seq(WINDOW, i => if i < F then 0 else 32)
  }

  function Fresh(bits: seq<bool>): State<Coder> {
    State(Coder(Rebuild.Start(), bits), Before(), 1, 0)
  }

  // ------------------------------------------------------ what a coder sends

  predicate Sendable(k: Token) {
    k.Literal? || (k.Match? && 1 + THRESHOLD <= k.len <= F)
  }

  ghost predicate AllSendable(ks: seq<Token>) {
    forall i :: 0 <= i < |ks| ==> Sendable(ks[i])
  }

  function Symbol(k: Token): (c: nat)
    requires Sendable(k)
    ensures c < N_CHAR
  {
    if k.Literal? then k.b else k.len + 255 - THRESHOLD
  }

  function TokenCode(t: Tree, k: Token): seq<bool>
    requires Valid(t) && Sendable(k)
  {
    if k.Match? then SymbolCode(t, Symbol(k)) + PositionCode(k.dist - 1) else SymbolCode(t, Symbol(k))
  }

  lemma {:induction false} TokenRoundTrip(t: Tree, k: Token, rest: seq<bool>)
    requires Valid(t) && Sendable(k)
    ensures ReadToken(Coder(t, TokenCode(t, k) + rest)) == (k, Coder(Rebuild.Update(t, Symbol(k)), rest))
  {
    hide Valid, SymbolCode, PositionCode, ReadSymbol, ReadPosition;
    var c := Symbol(k);
    if k.Match? {
      var p := PositionCode(k.dist - 1);
      Associate(SymbolCode(t, c), p, rest);
      SymbolRoundTrip(t, c, p + rest);
      PositionRoundTrip(k.dist - 1, rest);
    } else {
      SymbolRoundTrip(t, c, rest);
    }
  }

  /** The code of a whole text: every symbol under the tree its predecessors leave behind. */
  function TextCode(t: Tree, ks: seq<Token>): seq<bool>
    requires Valid(t) && AllSendable(ks)
    decreases |ks|
  {
    if ks == [] then [] else TokenCode(t, ks[0]) + TextCode(Rebuild.Update(t, Symbol(ks[0])), ks[1..])
  }

  lemma {:induction false} TextCodeFirst(t: Tree, ks: seq<Token>, rest: seq<bool>) returns (t': Tree, more: seq<bool>)
    requires Valid(t) && AllSendable(ks) && ks != []
    ensures Valid(t') && t' == Rebuild.Update(t, Symbol(ks[0])) && more == TextCode(t', ks[1..])
    ensures TextCode(t, ks) + rest == TokenCode(t, ks[0]) + (more + rest)
  {
    t' := Rebuild.Update(t, Symbol(ks[0]));
    more := TextCode(t', ks[1..]);
  }

  function TreeAfter(t: Tree, ks: seq<Token>): (t': Tree)
    requires Valid(t) && AllSendable(ks)
    ensures Valid(t')
    decreases |ks|
  {
    if ks == [] then t else TreeAfter(Rebuild.Update(t, Symbol(ks[0])), ks[1..])
  }

  /** Reading the first token of a text sent from tree t. */
  lemma {:induction false} FirstToken(t: Tree, ks: seq<Token>, rest: seq<bool>) returns (c: Coder, t': Tree, c': Coder)
    requires Valid(t) && AllSendable(ks) && ks != []
    ensures c == Coder(t, TextCode(t, ks) + rest)
    ensures Valid(t') && c' == Coder(t', TextCode(t', ks[1..]) + rest) && TreeAfter(t, ks) == TreeAfter(t', ks[1..])
    ensures ReadToken(c) == (ks[0], c')
  {
    var u, more := TextCodeFirst(t, ks, rest);
    TokenRoundTrip(t, ks[0], more + rest);
    c, t', c' := Coder(t, TextCode(t, ks) + rest), u, Coder(u, more + rest);
  }

  /** The decoder reads back exactly the tokens sent, across every rebuilding of the tree. */
  lemma {:induction false} InStep(t: Tree, ks: seq<Token>, rest: seq<bool>)
    requires Valid(t) && AllSendable(ks)
    ensures Spells<Coder>(ReadToken, Coder(t, TextCode(t, ks) + rest), ks, Coder(TreeAfter(t, ks), rest))
    decreases |ks|
  {
    hide Valid;
    if ks == [] {
      assert TextCode(t, ks) + rest == rest;
    } else {
      var c, t', c' := FirstToken(t, ks, rest);
      InStep(t', ks[1..], rest);
      SpellsMore<Coder>(ReadToken, c, ks, c', Coder(TreeAfter(t, ks), rest));
    }
  }

  /** Decoding what was sent for a text delivers that text, whatever follows in the stream. */
  lemma {:induction false} TextRoundTrip(s: State<Coder>, ks: seq<Token>, rest: seq<bool>) returns (s': State<Coder>)
    requires s.left == 0 && AllSendable(ks)
    requires s.coder.bits == TextCode(s.coder.tree, ks) + rest
    ensures Delivers<Coder>(ReadToken, s, s')
    ensures s'.hist == Expand(s.hist, ks) && s'.coder.bits == rest && s'.left == 0
  {
    var c': Coder, c'': Coder := s.coder, Coder(TreeAfter(s.coder.tree, ks), rest);
    assert c' == Coder(c'.tree, TextCode(c'.tree, ks) + rest);
    InStep(c'.tree, ks, rest);
    assert Spells<Coder>(ReadToken, c', ks, c'');
    assert EndsForGood<Coder>(ReadToken) by { ReadTokenEnds(); }
    s' := DeliversText<Coder>(ReadToken, s, ks, c'');
  }

  /** However the bytes asked for are split into requests, the bytes delivered in all are the same. */
  lemma {:induction false} RequestsAgree(s: State<Coder>, lens: seq<nat>)
    ensures TakeAll(Next<Coder>(ReadToken), s, lens) == Take(Next<Coder>(ReadToken), s, Sum(lens))
  {
    ReadTokenEnds();
    RequestsDoNotMatter<Coder>(ReadToken, s, lens);
  }
}
