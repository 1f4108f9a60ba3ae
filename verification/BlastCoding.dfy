/**
 The coder the PKWare decoder inverts, and the text that a list of tokens
 stands for.
*/
module BlastCoding {
  import opened Bits
  import opened LowBits
  import opened BlastCode
  import opened BlastText
  import opened LzCopy
  import opened Wrappers

  ghost function SymbolBits(lengths: seq<Length>, s: nat): seq<bool>
    requires s < |lengths|
  {
    Word(CodeOf(lengths, s), lengths[s])
  }

  lemma {:induction false} SymbolRead(t: Table, lengths: seq<Length>, s: nat, rest: seq<bool>)
    requires Complete(t, lengths) && s < |lengths| && AllCoded(lengths)
    ensures ReadSymbol(t, lengths, SymbolBits(lengths, s) + rest) == Parsed(s, rest)
  {
    CompleteFits(lengths);
    DecodesCode(t, lengths, s, rest);
  }

  /** Reading n bits gives the lowest n bits of the number they were taken from. */
  lemma {:induction false} BitsMask(v: nat, n: nat, rest: seq<bool>)
    ensures ReadBits(n, LowToBits(v, n) + rest) == Parsed(Mask(v, n), rest)
  {
    var s := LowToBits(v, n);
    assert (s + rest)[..n] == s && (s + rest)[n..] == rest;
    LowFirstOfBits(v, n);
  }

  lemma {:induction false} BitsRead(v: nat, n: nat, rest: seq<bool>)
    requires v < Pow2(n)
    ensures ReadBits(n, LowToBits(v, n) + rest) == Parsed(v, rest)
  {
    BitsMask(v, n, rest);
    MaskSmall(v, n);
  }

  /** The symbol whose base and extra bits cover a length. */
  function LengthSymbol(len: nat): (x: nat)
    requires 2 <= len <= ENDLENGTH
    ensures x < 16 && BASE[x] <= len < BASE[x] + Pow2(EXTRA[x])
  {
    assert Pow2(2) == 4 && Pow2(4) == 16 && Pow2(6) == 64 && Pow2(8) == 256;
    if len == 2 then 1 else if len == 3 then 0 else if len < 10 then len - 2
    else if len < 12 then 8 else if len < 16 then 9 else if len < 24 then 10 else if len < 40 then 11
    else if len < 72 then 12 else if len < 136 then 13 else if len < 264 then 14 else 15
  }

  ghost function LengthBits(len: nat): seq<bool>
    requires 2 <= len <= ENDLENGTH
  {
    var x := LengthSymbol(len);
    SymbolBits(LengthLengths(), x) + LowToBits(len - BASE[x], EXTRA[x])
  }

  lemma {:induction false} BuiltIs(t: Tables)
    requires Built(t)
    ensures Complete(t.lit, LiteralLengths()) && Complete(t.len, LengthLengths()) && Complete(t.dist, DistanceLengths())
  {
  }

  lemma {:induction false} ExtraRow(x: nat)
    requires x < 16
    ensures EXTRA[x] <= 8
  {
  }

  lemma {:induction false} LengthRows()
    ensures |LengthLengths()| == 16 && |BASE| == 16 && |EXTRA| == 16 && forall x :: 0 <= x < 16 ==> EXTRA[x] <= 8
  {
    hide LengthLengths;
    forall x | 0 <= x < 16 ensures EXTRA[x] <= 8 { ExtraRow(x); }
  }

  /** A length is read in two parts. */
  lemma {:induction false} LengthParts(t: Tables, s: seq<bool>)
    requires Built(t)
    ensures |LengthLengths()| == 16
    ensures var r := ReadSymbol(t.len, LengthLengths(), s);
            if r.Dry? then ReadLength(t, s) == Dry
            else r.value < 16 && EXTRA[r.value] <= 8 &&
                 var e := ReadBits(EXTRA[r.value], r.rest);
                 ReadLength(t, s) == if e.Dry? then Dry else Parsed(BASE[r.value] + e.value, e.rest)
  {
    hide ReadSymbol, LengthLengths, ReadBits, Built, Complete, LiteralLengths, DistanceLengths, BASE, EXTRA, Left, AllCoded;
    LengthRows();
    BuiltIs(t);
  }

  lemma {:induction false} DistanceParts(t: Tables, n: nat, s: seq<bool>)
    requires Built(t)
    ensures var r := ReadSymbol(t.dist, DistanceLengths(), s);
            if r.Dry? then ReadDistance(t, n, s) == Dry
            else var e := ReadBits(n, r.rest);
                 ReadDistance(t, n, s) == if e.Dry? then Dry else Parsed(Shl(r.value, n) + e.value + 1, e.rest)
  {
    hide ReadSymbol, DistanceLengths, ReadBits, Shl, Complete, LiteralLengths, LengthLengths, Built;
    hide ReadSymbol, DistanceLengths, ReadBits, Shl, Complete, LiteralLengths, LengthLengths;
  }

  lemma {:induction false} LengthBitsSplit(len: nat, rest: seq<bool>)
    requires 2 <= len <= ENDLENGTH
    ensures var x := LengthSymbol(len);
            LengthBits(len) + rest == SymbolBits(LengthLengths(), x) + (LowToBits(len - BASE[x], EXTRA[x]) + rest)
  {
    hide LengthSymbol, LengthLengths, SymbolBits, LowToBits, BASE, EXTRA;
    var x := LengthSymbol(len);
    LengthRows();
    Associate(SymbolBits(LengthLengths(), x), LowToBits(len - BASE[x], EXTRA[x]), rest);
  }

  lemma {:induction false} LengthRead(t: Tables, len: nat, rest: seq<bool>)
    requires Built(t) && 2 <= len <= ENDLENGTH
    ensures ReadLength(t, LengthBits(len) + rest) == Parsed(len, rest)
  {
    hide LiteralLengths, LengthLengths, DistanceLengths, Built, Complete, ReadSymbol, ReadBits, SymbolBits, ReadLength, BASE, EXTRA, Left, AllCoded, LengthSymbol, LengthBits, LowToBits, Pow2;
    LengthRows();
    BuiltIs(t);
    var x := LengthSymbol(len);
    LengthParts(t, LengthBits(len) + rest);
    var extra := LowToBits(len - BASE[x], EXTRA[x]);
    LengthBitsSplit(len, rest);
    SymbolRead(t.len, LengthLengths(), x, extra + rest);
    BitsRead(len - BASE[x], EXTRA[x], rest);
  }

  ghost predicate DistanceOk(dist: nat, n: nat) { dist > 0 && Shr(dist - 1, n) < 64 }

  ghost function DistanceCode(dist: nat, n: nat): seq<bool>
    requires DistanceOk(dist, n)
  {
    SymbolBits(DistanceLengths(), Shr(dist - 1, n)) + LowToBits(dist - 1, n)
  }

  lemma {:induction false} DistanceCodeSplit(dist: nat, n: nat, rest: seq<bool>)
    requires DistanceOk(dist, n)
    ensures DistanceCode(dist, n) + rest == SymbolBits(DistanceLengths(), Shr(dist - 1, n)) + (LowToBits(dist - 1, n) + rest)
  {
    hide DistanceLengths, SymbolBits, LowToBits, Shr;
    Associate(SymbolBits(DistanceLengths(), Shr(dist - 1, n)), LowToBits(dist - 1, n), rest);
  }

  lemma {:induction false} DistanceRead(t: Tables, dist: nat, n: nat, rest: seq<bool>)
    requires Built(t) && DistanceOk(dist, n)
    ensures ReadDistance(t, n, DistanceCode(dist, n) + rest) == Parsed(dist, rest)
  {
    hide LiteralLengths, LengthLengths, DistanceLengths, Built, Complete, ReadSymbol, SymbolBits, ReadBits, LowToBits, Mask, Shl, Shr, ReadDistance, DistanceCode, Left, AllCoded;
    BuiltIs(t);
    DistanceParts(t, n, DistanceCode(dist, n) + rest);
    var x := Shr(dist - 1, n);
    var low := LowToBits(dist - 1, n);
    DistanceCodeSplit(dist, n, rest);
    SymbolRead(t.dist, DistanceLengths(), x, low + rest);
    BitsMask(dist - 1, n, rest);
    ShiftBack(dist - 1, n);
  }

  /** Tokens the format can express with this literal mode and dictionary size. */
  ghost predicate Expressible(k: Token, dict: nat) {
    match k
    case Literal(_) => true
    case Copy(len, dist) => 2 <= len < ENDLENGTH && DistanceOk(dist, DistanceBits(len, dict))
    case End => true
  }

  /** A copy can be expressed exactly if six coded bits and the uncoded ones can hold its distance: two for a copy of two bytes. */
  lemma {:induction false} CopyExpressible(len: nat, dist: nat, dict: nat)
    requires 4 <= dict <= 6 && 2 <= len < 519
    ensures Expressible(Copy(len, dist), dict) <==> 1 <= dist <= if len == 2 then 256 else 64 * Pow2(dict)
  {
    hide Shr;
    if dist > 0 { ShrBelow(dist - 1, DistanceBits(len, dict), 64); }
    assert Pow2(2) == 4;
  }

  lemma {:induction false} ShrBelow(v: nat, n: nat, m: nat)
    ensures Shr(v, n) < m <==> v < m * Pow2(n)
  {
    if n > 0 { ShrBelow(v / 2, n - 1, m); }
  }

  ghost function LiteralBits(b: byte, lit: nat): seq<bool> {
    if lit != 0 then SymbolBits(LiteralLengths(), b) else BitsOf(b)
  }

  ghost function TokenBits(k: Token, lit: nat, dict: nat): seq<bool>
    requires Expressible(k, dict)
  {
    match k
    case Literal(b) => [false] + LiteralBits(b, lit)
    case Copy(len, dist) => [true] + LengthBits(len) + DistanceCode(dist, DistanceBits(len, dict))
    case End => [true] + LengthBits(ENDLENGTH)
  }

  lemma {:induction false} LiteralRead(t: Tables, b: byte, lit: nat, rest: seq<bool>)
    requires Built(t)
    ensures ReadLiteral(t, lit, LiteralBits(b, lit) + rest) == Parsed(b, rest)
  {
    if lit != 0 {
      SymbolRead(t.lit, LiteralLengths(), b, rest);
    } else {
      BitsOfIs(b);
      assert Pow2(2) == 4 && Pow2(4) == 16 && Pow2(6) == 64 && Pow2(8) == 256;
      BitsRead(b, 8, rest);
    }
  }

  /** A token that begins with a false bit is a literal. */
  lemma {:induction false} ReadsLiteral(t: Tables, lit: nat, dict: nat, s: seq<bool>, b: byte, rest: seq<bool>)
    requires Built(t) && s != [] && !s[0] && ReadLiteral(t, lit, s[1..]) == Parsed(b, rest)
    ensures ReadToken(t, lit, dict, s) == Parsed(Literal(b), rest)
  {
    hide Built, ReadLiteral, ReadLength, ReadDistance;
  }

  lemma {:induction false} ReadsCopy(t: Tables, lit: nat, dict: nat, s: seq<bool>, len: nat, s1: seq<bool>, dist: nat, rest: seq<bool>)
    requires Built(t) && s != [] && s[0] && ReadLength(t, s[1..]) == Parsed(len, s1) && len != ENDLENGTH
    requires ReadDistance(t, DistanceBits(len, dict), s1) == Parsed(dist, rest)
    ensures ReadToken(t, lit, dict, s) == Parsed(Copy(len, dist), rest)
  {
    hide Built, ReadLiteral, ReadLength, ReadDistance;
  }

  lemma {:induction false} ReadsEnd(t: Tables, lit: nat, dict: nat, s: seq<bool>, rest: seq<bool>)
    requires Built(t) && s != [] && s[0] && ReadLength(t, s[1..]) == Parsed(ENDLENGTH, rest)
    ensures ReadToken(t, lit, dict, s) == Parsed(End, rest)
  {
    hide Built, ReadLiteral, ReadLength, ReadDistance;
  }

  /** Every token is read back from the bits that stand for it. */
  lemma {:induction false} TokenRead(t: Tables, k: Token, lit: nat, dict: nat, rest: seq<bool>)
    requires Built(t) && Expressible(k, dict)
    ensures ReadToken(t, lit, dict, TokenBits(k, lit, dict) + rest) == Parsed(k, rest)
  {
    hide Built, ReadLiteral, ReadLength, ReadDistance, ReadToken, LengthBits, LiteralBits, DistanceCode, DistanceOk;
    var s := TokenBits(k, lit, dict) + rest;
    match k
    case Literal(b) =>
      Tail(false, LiteralBits(b, lit), [], rest);
      LiteralRead(t, b, lit, rest);
      ReadsLiteral(t, lit, dict, s, b, rest);
    case Copy(len, dist) =>
      var d := DistanceCode(dist, DistanceBits(len, dict));
      Tail(true, LengthBits(len), d, rest);
      LengthRead(t, len, d + rest);
      DistanceRead(t, dist, DistanceBits(len, dict), rest);
      ReadsCopy(t, lit, dict, s, len, d + rest, dist, rest);
    case End =>
      Tail(true, LengthBits(ENDLENGTH), [], rest);
      LengthRead(t, ENDLENGTH, rest);
      ReadsEnd(t, lit, dict, s, rest);
  }

  lemma {:induction false} Tail(x: bool, a: seq<bool>, b: seq<bool>, rest: seq<bool>)
    ensures ([x] + a + b + rest)[0] == x && ([x] + a + b + rest)[1..] == a + (b + rest)
    ensures ([x] + a + rest)[0] == x && ([x] + a + rest)[1..] == a + rest
  {
  }

  /** The answers to a header: which first and second bytes are refused, and how. */
  lemma {:induction false} Headers(t: Tables, lit: byte, dict: byte, rest: seq<bool>)
    requires Built(t)
    ensures Blast(t, LowToBits(lit, 8) + LowToBits(dict, 8) + rest) ==
              if lit > 1 then ([], -1) else if dict < 4 || dict > 6 then ([], -2) else Inflate(t, lit, dict, [], rest)
    ensures Blast(t, []) == ([], 2) && Blast(t, LowToBits(0, 8)) == ([], 2)
  {
    hide Built, Inflate, ReadBits, LowToBits;
    assert Pow2(2) == 4 && Pow2(4) == 16 && Pow2(6) == 64 && Pow2(8) == 256;
    Associate(LowToBits(lit, 8), LowToBits(dict, 8), rest);
    BitsRead(lit, 8, LowToBits(dict, 8) + rest);
    BitsRead(dict, 8, rest);
    BitsRead(0, 8, []);
    assert LowToBits(0, 8) + [] == LowToBits(0, 8);
    NoBits();
  }

  lemma {:induction false} NoBits()
    ensures ReadBits(8, []) == Dry
  {
  }

  /** A copy from before the beginning ends the text. */
  lemma {:induction false} CopyTooFar(t: Tables, lit: nat, dict: nat, out: seq<byte>, s: seq<bool>)
    requires Built(t) && ReadToken(t, lit, dict, s).Parsed? && ReadToken(t, lit, dict, s).value.Copy?
    requires ReadToken(t, lit, dict, s).value.dist > |out|
    ensures Inflate(t, lit, dict, out, s) == (out, -3)
  {
    hide Built, ReadToken;
  }

  // ------------------------------------------------------------------- text

  /** Tokens that can follow the text out: no End among them, no copy from before the beginning. */
  ghost predicate Follows(out: seq<byte>, ks: seq<Token>, dict: nat)
    decreases |ks|
  {
    ks == [] ||
    (Expressible(ks[0], dict) && !ks[0].End? && (ks[0].Copy? ==> ks[0].dist <= |out|)
     && Follows(After(out, ks[0]), ks[1..], dict))
  }

  /** The text after one more token. */
  function After(out: seq<byte>, k: Token): seq<byte>
    requires k.Copy? ==> 0 < k.dist <= |out|
  {
    match k
    case Literal(b) => out + [b]
    case Copy(len, dist) => Copied(out, dist, len)
    case End => out
  }

  ghost function Expand(out: seq<byte>, ks: seq<Token>, dict: nat): seq<byte>
    requires Follows(out, ks, dict)
    decreases |ks|
  {
    if ks == [] then out else Expand(After(out, ks[0]), ks[1..], dict)
  }

  ghost function TextBits(out: seq<byte>, ks: seq<Token>, lit: nat, dict: nat): seq<bool>
    requires Follows(out, ks, dict)
    decreases |ks|
  {
    if ks == [] then TokenBits(End, lit, dict)
    else TokenBits(ks[0], lit, dict) + TextBits(After(out, ks[0]), ks[1..], lit, dict)
  }

  lemma {:induction false} InflateOne(t: Tables, lit: nat, dict: nat, out: seq<byte>, s: seq<bool>, k: Token, rest: seq<bool>)
    requires Built(t) && ReadToken(t, lit, dict, s) == Parsed(k, rest) && !k.End?
    requires k.Copy? ==> 0 < k.dist <= |out|
    ensures Inflate(t, lit, dict, out, s) == Inflate(t, lit, dict, After(out, k), rest)
  {
    hide Built, ReadToken, Copied;
  }

  lemma {:induction false} InflateEnd(t: Tables, lit: nat, dict: nat, out: seq<byte>, s: seq<bool>, rest: seq<bool>)
    requires Built(t) && ReadToken(t, lit, dict, s) == Parsed(End, rest)
    ensures Inflate(t, lit, dict, out, s) == (out, 0)
  {
    hide Built, ReadToken, Copied;
  }

  /** The first token of a text, and what follows it. */
  lemma {:induction false} FirstToken(out: seq<byte>, ks: seq<Token>, lit: nat, dict: nat, rest: seq<bool>)
    requires Follows(out, ks, dict) && ks != []
    ensures Expressible(ks[0], dict) && !ks[0].End? && (ks[0].Copy? ==> 0 < ks[0].dist <= |out|)
    ensures Follows(After(out, ks[0]), ks[1..], dict)
    ensures Expand(out, ks, dict) == Expand(After(out, ks[0]), ks[1..], dict)
    ensures TextBits(out, ks, lit, dict) + rest == TokenBits(ks[0], lit, dict) + (TextBits(After(out, ks[0]), ks[1..], lit, dict) + rest)
  {
    hide TokenBits, After;
    var a, b := TokenBits(ks[0], lit, dict), TextBits(After(out, ks[0]), ks[1..], lit, dict);
    assert TextBits(out, ks, lit, dict) == a + b;
    assert (a + b) + rest == a + (b + rest);
  }

  /** A stream of tokens inflates to the text they stand for. */
  lemma {:induction false} InflateTokens(t: Tables, lit: nat, dict: nat, out: seq<byte>, ks: seq<Token>, rest: seq<bool>)
    requires Built(t) && Follows(out, ks, dict)
    ensures Inflate(t, lit, dict, out, TextBits(out, ks, lit, dict) + rest) == (Expand(out, ks, dict), 0)
    decreases |ks|
  {
    if ks == [] {
      assert Expressible(End, dict);
      TokenRead(t, End, lit, dict, rest);
      InflateEnd(t, lit, dict, out, TokenBits(End, lit, dict) + rest, rest);
    } else {
      FirstToken(out, ks, lit, dict, rest);
      hide *;
      var more := TextBits(After(out, ks[0]), ks[1..], lit, dict) + rest;
      TokenRead(t, ks[0], lit, dict, more);
      InflateOne(t, lit, dict, out, TokenBits(ks[0], lit, dict) + more, ks[0], more);
      InflateTokens(t, lit, dict, After(out, ks[0]), ks[1..], rest);
    }
  }

  /** A whole file: literal mode, dictionary size, tokens, end. */
  ghost function FileBits(ks: seq<Token>, lit: nat, dict: nat): seq<bool>
    requires lit <= 1 && 4 <= dict <= 6 && Follows([], ks, dict)
  {
    LowToBits(lit, 8) + LowToBits(dict, 8) + TextBits([], ks, lit, dict)
  }

  /** Every list of valid tokens can be sent, and is inflated to the text it stands for. */
  lemma {:induction false} BlastRoundTrip(t: Tables, ks: seq<Token>, lit: nat, dict: nat, rest: seq<bool>)
    requires Built(t) && lit <= 1 && 4 <= dict <= 6 && Follows([], ks, dict)
    ensures Blast(t, FileBits(ks, lit, dict) + rest) == (Expand([], ks, dict), 0)
  {
    hide Built, Inflate, TextBits, Follows, ReadBits, LowToBits;
    var text := TextBits([], ks, lit, dict) + rest;
    assert Pow2(2) == 4 && Pow2(4) == 16 && Pow2(6) == 64 && Pow2(8) == 256;
    assert FileBits(ks, lit, dict) + rest == LowToBits(lit, 8) + (LowToBits(dict, 8) + text);
    BitsRead(lit, 8, LowToBits(dict, 8) + text);
    BitsRead(dict, 8, text);
    InflateTokens(t, lit, dict, [], ks, rest);
  }

  /** A copy reaches no further back than its uncoded bits allow, of which a copy of two bytes has two; so never beyond the window. */
  lemma {:induction false} DistanceInWindow(t: Tables, lit: nat, dict: nat, s: seq<bool>)
    requires Built(t) && dict <= 6 && ReadToken(t, lit, dict, s).Parsed? && ReadToken(t, lit, dict, s).value.Copy?
    ensures var k := ReadToken(t, lit, dict, s).value;
            && 2 <= k.len < 519 && 0 < k.dist <= MAXWIN && (k.len == 2 ==> k.dist <= 256)
            && (k.len > 2 ==> k.dist <= 64 * Pow2(dict))
  {
    hide LiteralLengths, LengthLengths, DistanceLengths, Complete, ReadSymbol, Decode, ReadLength;
    var s1 := ReadLength(t, s[1..]);
    var n := DistanceBits(s1.value, dict);
    var x := ReadSymbol(t.dist, DistanceLengths(), s1.rest);
    ShlBound(x.value, 64, n);
    WindowBits(n);
    LengthBounds(t, s[1..]);
  }

  lemma {:induction false} ShlBound(v: nat, m: nat, n: nat)
    requires v < m
    ensures Shl(v, n) + Pow2(n) <= Shl(m, n) == m * Pow2(n)
  {
    if n > 0 { ShlBound(v, m, n - 1); }
  }

  lemma {:induction false} WindowBits(n: nat)
    requires n <= 6
    ensures Pow2(n) <= 64 && Pow2(2) == 4
    decreases 6 - n
  {
    assert Pow2(4) == 16 && Pow2(6) == 64;
    if n < 6 { WindowBits(n + 1); }
  }

  lemma {:induction false} Row(x: nat)
    requires x < 16
    ensures BASE[x] >= 2 && BASE[x] + Pow2(EXTRA[x]) <= 520
  {
    assert Pow2(2) == 4 && Pow2(4) == 16 && Pow2(6) == 64 && Pow2(8) == 256;
  }

  lemma {:induction false} BitsBelow(n: nat, s: seq<bool>)
    ensures ReadBits(n, s).Parsed? ==> ReadBits(n, s).value < Pow2(n)
  {
  }

  lemma {:induction false} LengthBounds(t: Tables, s: seq<bool>)
    requires Built(t) && ReadLength(t, s).Parsed?
    ensures 2 <= ReadLength(t, s).value <= ENDLENGTH
  {
    hide LiteralLengths, LengthLengths, DistanceLengths, Complete, ReadSymbol, ReadBits, ReadLength, BASE, EXTRA, Pow2;
    LengthRows();
    LengthParts(t, s);
    var r := ReadSymbol(t.len, LengthLengths(), s);
    Row(r.value);
    BitsBelow(EXTRA[r.value], r.rest);
  }
}
