/** One file of the format, byte by byte. */
module BlastExample {
  import opened Bits
  import opened LowBits
  import opened LzCopy
  import opened BlastCode
  import opened BlastTables
  import opened BlastConstruct
  import opened BlastText
  import opened BlastCoding

  // ------------------------------------------- how many codes of each length

  /** How many symbols a compact table gives codes of length l. */
  function CodesOf(rep: seq<byte>, l: int): nat {
    if rep == [] then 0 else
    var b := rep[|rep| - 1];
    CodesOf(rep[..|rep| - 1], l) + if b % 16 == l then b / 16 + 1 else 0
  }

  lemma {:induction false} CountRepeat(a: seq<Length>, k: Length, n: nat, l: int)
    ensures CountOf(a + Repeat(k, n), l) == CountOf(a, l) + if k == l then n else 0
  {
    if n == 0 {
      assert a + Repeat(k, 0) == a;
    } else {
      var s := a + Repeat(k, n);
      assert s[..|s| - 1] == a + Repeat(k, n - 1) && s[|s| - 1] == k;
      CountRepeat(a, k, n - 1, l);
    }
  }

  lemma {:induction false} CountLengths(rep: seq<byte>, l: int)
    requires Sum(rep).bad == 0
    ensures CountOf(Lengths(rep), l) == CodesOf(rep, l)
  {
    if rep != [] {
      var b := rep[|rep| - 1];
      CountLengths(rep[..|rep| - 1], l);
      CountRepeat(Lengths(rep[..|rep| - 1]), b % 16, b / 16 + 1, l);
    }
  }

  /** The first symbols of a compact table are those of its first bytes. */
  lemma {:induction false} LengthsFirst(rep: seq<byte>, n: nat)
    requires Sum(rep).bad == 0 && n <= |rep|
    ensures Sum(rep[..n]).bad == 0 && |Lengths(rep[..n])| <= |Lengths(rep)|
    ensures Lengths(rep)[..|Lengths(rep[..n])|] == Lengths(rep[..n])
    decreases |rep|
  {
    if n == |rep| {
      assert rep[..n] == rep;
    } else {
      var m := |rep| - 1;
      LengthsFirst(rep[..m], n);
      assert rep[..m][..n] == rep[..n];
    }
  }

  lemma {:induction false} CodesMore(rep: seq<byte>, n: nat, l: int)
    requires n < |rep|
    ensures CodesOf(rep[..n + 1], l) == CodesOf(rep[..n], l) + if rep[n] % 16 == l then rep[n] / 16 + 1 else 0
    ensures CodesOf(rep[..0], l) == 0
  {
    assert rep[..n + 1][..n] == rep[..n];
  }

  // ------------------------------------------------------- the codes needed

  lemma {:induction false} LengthCodes(l: nat)
    requires 0 < l < 7
    ensures CodesOf(LENLEN, l) == if l == 1 then 0 else if l == 2 then 1 else if l == 5 then 4 else 3
    ensures CodesOf(LENLEN[..5], 7) == 0
  {
    hide CodesOf;
    assert LENLEN[..6] == LENLEN;
    CodesMore(LENLEN, 0, l); CodesMore(LENLEN, 1, l); CodesMore(LENLEN, 2, l);
    CodesMore(LENLEN, 3, l); CodesMore(LENLEN, 4, l); CodesMore(LENLEN, 5, l);
    CodesMore(LENLEN, 0, 7); CodesMore(LENLEN, 1, 7); CodesMore(LENLEN, 2, 7); CodesMore(LENLEN, 3, 7); CodesMore(LENLEN, 4, 7);
  }

  lemma {:induction false} LengthCount(l: nat)
    requires 0 < l < 7
    ensures CountOf(LengthLengths(), l) == if l == 1 then 0 else if l == 2 then 1 else if l == 5 then 4 else 3
  {
    TablesComplete();
    hide Sum, Left, AllCoded, CodesOf, CountOf;
    CountLengths(LENLEN, l);
    LengthCodes(l);
  }

  lemma {:induction false} LengthFirsts()
    ensures First(LengthLengths(), 3) == 2 && First(LengthLengths(), 7) == 126
  {
    hide CountOf, LengthLengths, First;
    var s := LengthLengths();
    LengthCount(1); LengthCount(2); LengthCount(3); LengthCount(4); LengthCount(5); LengthCount(6);
    FirstMore(s, 2); FirstMore(s, 3); FirstMore(s, 4); FirstMore(s, 5); FirstMore(s, 6); FirstMore(s, 7);
  }

  lemma {:induction false} FirstMore(s: seq<Length>, l: nat)
    requires l > 1
    ensures First(s, 1) == 0 && First(s, l) == 2 * (First(s, l - 1) + CountOf(s, l - 1))
  {
  }

  lemma {:induction false} LengthsStart()
    ensures LengthLengths()[..1] == [2] && LengthLengths()[1] == 3
  {
    TablesComplete();
    hide Sum, Left, AllCoded;
    var one, two := LENLEN[..1], LENLEN[..2];
    LengthsFirst(LENLEN, 1);
    LengthsFirst(LENLEN, 2);
    assert two[..1] == one && one[..0] == [];
    assert Lengths(one) == [] + Repeat<Length>(2, 1);
    assert Lengths(two) == Lengths(one) + Repeat<Length>(3, 3);
    assert LengthLengths()[..4][1] == LengthLengths()[1];
  }

  /** The symbol for length 2: three bits. */
  lemma {:induction false} LengthTwo()
    ensures SymbolBits(LengthLengths(), 1) == [true, false, true]
  {
    hide LengthLengths, First, Word, LENLEN;
    LengthsStart();
    LengthFirsts();
    var one: seq<Length> := [2];
    assert one[..0] == [];
    assert CountOf(one, 3) == 0;
    WordTwo();
  }

  lemma {:induction false} WordTwo()
    ensures Word(2, 3) == [true, false, true] && Word(0, 2) == [true, true]
  {
    assert ToBits(2, 3) == [false, true, false] && ToBits(0, 2) == [false, false];
  }

  lemma {:induction false} LengthsEnd()
    ensures LengthLengths()[14] == LengthLengths()[15] == 7 && CountOf(LengthLengths()[..14], 7) == 0
  {
    TablesComplete();
    hide Sum, Left, AllCoded, CodesOf, CountOf;
    LengthsFirst(LENLEN, 5);
    var front := Lengths(LENLEN[..5]);
    assert LengthLengths() == front + Repeat<Length>(7, 2) && |front| == 14;
    assert LengthLengths()[..14] == front;
    CountLengths(LENLEN[..5], 7);
    LengthCodes(1);
  }

  /** The last symbol, for the end: seven bits. */
  lemma {:induction false} LengthEnd()
    ensures SymbolBits(LengthLengths(), 15) == [false, false, false, false, false, false, false]
  {
    hide LengthLengths, First, Word, LENLEN;
    LengthsEnd();
    LengthFirsts();
    assert LengthLengths()[..15][..14] == LengthLengths()[..14];
    WordEnd();
  }

  lemma {:induction false} WordEnd()
    ensures Word(127, 7) == [false, false, false, false, false, false, false]
  {
    assert ToBits(127, 7) == [true, true, true, true, true, true, true];
  }

  lemma {:induction false} DistancesStart()
    ensures DistanceLengths()[0] == 2
  {
    TablesComplete();
    hide Sum, Left, AllCoded;
    var one := DISTLEN[..1];
    LengthsFirst(DISTLEN, 1);
    assert one[..0] == [];
    assert Lengths(one) == [] + Repeat<Length>(2, 1);
    assert DistanceLengths()[..1][0] == DistanceLengths()[0];
  }

  lemma {:induction false} DistanceFirst()
    ensures First(DistanceLengths(), 2) == 0
  {
    TablesComplete();
    hide Sum, Left, AllCoded, CodesOf, CountOf, First;
    NoShortDistance();
    CountLengths(DISTLEN, 1);
    FirstMore(DistanceLengths(), 2);
  }

  /** The first distance symbol: two bits. */
  lemma {:induction false} DistanceNear()
    ensures SymbolBits(DistanceLengths(), 0) == [true, true]
  {
    hide DistanceLengths, First, Word, DISTLEN;
    DistancesStart();
    DistanceFirst();
    assert DistanceLengths()[..0] == [];
    WordTwo();
  }

  lemma {:induction false} NoShortDistance()
    ensures CodesOf(DISTLEN, 1) == 0
  {
    hide CodesOf;
    assert DISTLEN[..7] == DISTLEN;
    CodesMore(DISTLEN, 0, 1); CodesMore(DISTLEN, 1, 1); CodesMore(DISTLEN, 2, 1); CodesMore(DISTLEN, 3, 1);
    CodesMore(DISTLEN, 4, 1); CodesMore(DISTLEN, 5, 1); CodesMore(DISTLEN, 6, 1);
  }

  // -------------------------------------------------------------- the file

  const FILE: seq<byte> := [0x00, 0x04, 0x82, 0x24, 0xED, 0x05, 0xFC, 0x03]

  /** The letters A and I, two letters copied from two back, and the end. */
  const TOKENS: seq<Token> := [Literal(65), Literal(73), Copy(2, 2)]
  function One(b: bool): nat { if b then 1 else 0 }

  lemma {:induction false} LowestBit(v: nat, b: bool, n: nat)
    ensures LowToBits(2 * v + One(b), n + 1) == [b] + LowToBits(v, n)
  {
    assert (2 * v + One(b)) / 2 == v;
  }

  lemma {:induction false} FourBits(v: nat, a: bool, b: bool, c: bool, d: bool, n: nat)
    ensures LowToBits(16 * v + 8 * One(d) + 4 * One(c) + 2 * One(b) + One(a), n + 4) == [a, b, c, d] + LowToBits(v, n)
  {
    hide LowToBits, One;
    LowestBit(v, d, n);
    LowestBit(2 * v + One(d), c, n + 1);
    LowestBit(4 * v + 2 * One(d) + One(c), b, n + 2);
    LowestBit(8 * v + 4 * One(d) + 2 * One(c) + One(b), a, n + 3);
    assert [a] + ([b] + ([c] + ([d] + LowToBits(v, n)))) == [a, b, c, d] + LowToBits(v, n);
  }

  /** The bits of a byte, by its two halves. */
  lemma {:induction false} ByteIs(x: byte, a: bool, b: bool, c: bool, d: bool, e: bool, f: bool, g: bool, h: bool)
    requires x == One(a) + 2 * One(b) + 4 * One(c) + 8 * One(d) + 16 * One(e) + 32 * One(f) + 64 * One(g) + 128 * One(h)
    ensures LowToBits(x, 8) == [a, b, c, d] + [e, f, g, h]
  {
    hide LowToBits, One;
    FourBits(0, e, f, g, h, 0);
    FourBits(One(e) + 2 * One(f) + 4 * One(g) + 8 * One(h), a, b, c, d, 4);
    NoBit();
    assert [e, f, g, h] + [] == [e, f, g, h];
  }

  lemma {:induction false} NoBit()
    ensures LowToBits(0, 0) == []
  {
  }

  lemma {:induction false} LetterBits()
    ensures LowToBits(0, 8) == [false, false, false, false] + [false, false, false, false]
    ensures LowToBits(4, 8) == [false, false, true, false] + [false, false, false, false]
    ensures LowToBits(65, 8) == [true, false, false, false] + [false, false, true, false]
    ensures LowToBits(73, 8) == [true, false, false, true] + [false, false, true, false]
    ensures LowToBits(255, 8) == [true, true, true, true] + [true, true, true, true]
  {
    hide LowToBits;
    ByteIs(0, false, false, false, false, false, false, false, false);
    ByteIs(4, false, false, true, false, false, false, false, false);
    ByteIs(65, true, false, false, false, false, false, true, false);
    ByteIs(73, true, false, false, true, false, false, true, false);
    ByteIs(255, true, true, true, true, true, true, true, true);
  }

  lemma {:induction false} CodedBits()
    ensures LowToBits(0x82, 8) == [false, true, false, false] + [false, false, false, true]
    ensures LowToBits(0x24, 8) == [false, false, true, false] + [false, true, false, false]
    ensures LowToBits(0xED, 8) == [true, false, true, true] + [false, true, true, true]
    ensures LowToBits(0x05, 8) == [true, false, true, false] + [false, false, false, false]
    ensures LowToBits(0xFC, 8) == [false, false, true, true] + [true, true, true, true]
    ensures LowToBits(0x03, 8) == [true, true, false, false] + [false, false, false, false]
  {
    hide LowToBits;
    ByteIs(0x82, false, true, false, false, false, false, false, true);
    ByteIs(0x24, false, false, true, false, false, true, false, false);
    ByteIs(0xED, true, false, true, true, false, true, true, true);
    ByteIs(0x05, true, false, true, false, false, false, false, false);
    ByteIs(0xFC, false, false, true, true, true, true, true, true);
    ByteIs(0x03, true, true, false, false, false, false, false, false);
  }

  lemma {:induction false} FlatConcat(a: seq<byte>, b: seq<byte>)
    ensures Flat(a + b) == Flat(a) + Flat(b)
    decreases |a|
  {
    if a == [] {
      assert a + b == b;
    } else {
      assert (a + b)[1..] == a[1..] + b;
      FlatConcat(a[1..], b);
    }
  }

  lemma {:induction false} FlatTwo(a: byte, b: byte)
    ensures Flat([a, b]) == LowToBits(a, 8) + LowToBits(b, 8)
  {
    BitsOfIs(a);
    BitsOfIs(b);
    var s := [a, b];
    assert s[1..] == [b] && [b][1..] == [];
  }

  lemma {:induction false} FileInBits()
    ensures Flat(FILE) == LowToBits(0, 8) + LowToBits(4, 8) + ((LowToBits(0x82, 8) + LowToBits(0x24, 8))
                          + ((LowToBits(0xED, 8) + LowToBits(0x05, 8)) + (LowToBits(0xFC, 8) + LowToBits(0x03, 8))))
  {
    hide Flat, LowToBits;
    var a: seq<byte>, b: seq<byte>, c: seq<byte>, d: seq<byte> := [0x00, 0x04], [0x82, 0x24], [0xED, 0x05], [0xFC, 0x03];
    assert FILE == a + (b + (c + d));
    FlatConcat(a, b + (c + d));
    FlatConcat(b, c + d);
    FlatConcat(c, d);
    FlatTwo(0x00, 0x04);
    FlatTwo(0x82, 0x24);
    FlatTwo(0xED, 0x05);
    FlatTwo(0xFC, 0x03);
  }

  lemma {:induction false} CopyBits()
    ensures Expressible(Copy(2, 2), 4)
    ensures TokenBits(Copy(2, 2), 0, 4) == [true, true, false, true, true, true, true, false]
  {
    hide SymbolBits, LengthLengths, DistanceLengths;
    LengthTwo();
    DistanceNear();
    assert Shr(1, 2) == 0 && LowToBits(1, 2) == [true, false] && LowToBits(0, 0) == [];
    assert LengthSymbol(2) == 1 && BASE[1] == 2 && EXTRA[1] == 0;
  }

  lemma {:induction false} EndBits()
    ensures TokenBits(End, 0, 4) == [true, false, false, false, false, false, false, false] + LowToBits(255, 8)
  {
    hide SymbolBits, LengthLengths, DistanceLengths, LowToBits;
    LengthEnd();
    assert LengthSymbol(519) == 15 && BASE[15] == 264 && EXTRA[15] == 8;
  }

  lemma {:induction false} LetterTokens()
    ensures TokenBits(Literal(65), 0, 4) == [false] + LowToBits(65, 8)
    ensures TokenBits(Literal(73), 0, 4) == [false] + LowToBits(73, 8)
  {
    BitsOfIs(65);
    BitsOfIs(73);
  }

  lemma {:induction false} OneMoreToken(out: seq<byte>, k: Token, ks: seq<Token>)
    requires Expressible(k, 4) && !k.End? && (k.Copy? ==> k.dist <= |out|) && Follows(After(out, k), ks, 4)
    ensures Follows(out, [k] + ks, 4) && Expand(out, [k] + ks, 4) == Expand(After(out, k), ks, 4)
    ensures TextBits(out, [k] + ks, 0, 4) == TokenBits(k, 0, 4) + TextBits(After(out, k), ks, 0, 4)
  {
    hide After, Expressible, TokenBits;
    assert ([k] + ks)[1..] == ks;
  }

  lemma {:induction false} LettersCopied()
    ensures Copied([65, 73], 2, 2) == [65, 73, 65, 73]
  {
    assert Copied([65, 73], 2, 2) == Copied([65, 73, 65], 2, 1) == Copied([65, 73, 65, 73], 2, 0);
  }

  /** What the tokens stand for: the copy repeats the two letters. */
  lemma {:induction false} TokensMean()
    ensures Follows([], TOKENS, 4) && Expand([], TOKENS, 4) == [65, 73, 65, 73]
    ensures TextBits([], TOKENS, 0, 4) ==
              TokenBits(Literal(65), 0, 4) + (TokenBits(Literal(73), 0, 4) + (TokenBits(Copy(2, 2), 0, 4) + TokenBits(End, 0, 4)))
  {
    CopyBits();
    LettersCopied();
    hide TokenBits, Copied, DistanceOk;
    var i, k := Literal(73), Copy(2, 2);
    assert [] + [65 as byte] == [65] && [65 as byte] + [73] == [65, 73];
    assert After([], Literal(65)) == [65] && After([65], i) == [65, 73];
    OneMoreToken([65, 73], k, []);
    OneMoreToken([65], i, [k] + []);
    OneMoreToken([], Literal(65), [i] + ([k] + []));
    assert TOKENS == [Literal(65)] + ([i] + ([k] + []));
  }

  lemma {:induction false} FileIsTokens()
    ensures Follows([], TOKENS, 4) && Flat(FILE) == FileBits(TOKENS, 0, 4) + [false, false, false, false, false, false]
  {
    hide LowToBits, Flat, Follows, TextBits, TokenBits, FILE, TOKENS;
    TokensMean();
    FileInBits();
    CopyBits();
    EndBits();
    LetterTokens();
    SameBits();
  }

  /** The bits of the file are those of the tokens, and six more. */
  lemma {:induction false} SameBits()
    ensures (LowToBits(0x82, 8) + LowToBits(0x24, 8)) + ((LowToBits(0xED, 8) + LowToBits(0x05, 8)) + (LowToBits(0xFC, 8) + LowToBits(0x03, 8)))
         == (([false] + LowToBits(65, 8)) + (([false] + LowToBits(73, 8)) + ([true, true, false, true, true, true, true, false]
             + ([true, false, false, false, false, false, false, false] + LowToBits(255, 8)))))
            + [false, false, false, false, false, false]
  {
    hide LowToBits;
    LetterBits();
    CodedBits();
  }

  /** The eight bytes inflate to AIAI. */
  lemma {:induction false} Inflates(t: Tables)
    requires Built(t)
    ensures Blast(t, Flat([0x00, 0x04, 0x82, 0x24, 0xED, 0x05, 0xFC, 0x03])) == ([65, 73, 65, 73], 0)
  {
    hide Built, Blast, Flat, Follows, Expand, FileBits;
    FileIsTokens();
    TokensMean();
    BlastRoundTrip(t, TOKENS, 0, 4, [false, false, false, false, false, false]);
  }
}
