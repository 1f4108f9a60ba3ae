/** The three fixed codes of the PKWare format, and that they are complete. */
module BlastTables {
  import opened Bits
  import opened BlastCode

  const LITERALS0: seq<byte> := [11, 124, 8, 7, 28, 7, 188]
  const LITERALS1: seq<byte> := [13, 76, 4, 10, 8, 12, 10]
  const LITERALS2: seq<byte> := [12, 10, 8, 23, 8, 9, 7]
  const LITERALS3: seq<byte> := [6, 7, 8, 7, 6, 55, 8]
  const LITERALS4: seq<byte> := [23, 24, 12, 11, 7, 9, 11]
  const LITERALS5: seq<byte> := [12, 6, 7, 22, 5, 7, 24]
  const LITERALS6: seq<byte> := [6, 11, 9, 6, 7, 22, 7]
  const LITERALS7: seq<byte> := [11, 38, 7, 9, 8, 25, 11]
  const LITERALS8: seq<byte> := [8, 11, 9, 12, 8, 12, 5]
  const LITERALS9: seq<byte> := [38, 5, 38, 5, 11, 7, 5]
  const LITERALS10: seq<byte> := [6, 21, 6, 10, 53, 8, 7]
  const LITERALS11: seq<byte> := [24, 10, 27, 44, 253, 253, 253]
  const LITERALS12: seq<byte> := [252, 252, 252, 13, 12, 45, 12]
  const LITERALS13: seq<byte> := [45, 12, 61, 12, 45, 44, 173]

  /** Bit lengths of the literal codes: the high half of each byte repeats, the low half is the length. */
  const LITLEN: seq<byte> :=
    (LITERALS0 + LITERALS1 + LITERALS2 + LITERALS3 + LITERALS4 + LITERALS5 + LITERALS6)
    + (LITERALS7 + LITERALS8 + LITERALS9 + LITERALS10 + LITERALS11 + LITERALS12 + LITERALS13)
  /** Bit lengths of the length codes 0..15. */
  const LENLEN: seq<byte> := [2, 35, 36, 53, 38, 23]
  /** Bit lengths of the distance codes 0..63. */
  const DISTLEN: seq<byte> := [2, 20, 53, 230, 247, 151, 248]

  /** What a compact table stands for: how many symbols, their share of all codes,
      how many invalid lengths, and how many symbols without a code. */
  datatype Sums = Sums(symbols: nat, share: nat, bad: nat, silent: nat)

  /** c is a and b together. */
  predicate Adds(c: Sums, a: Sums, b: Sums) {
    && c.symbols == a.symbols + b.symbols && c.share == a.share + b.share
    && c.bad == a.bad + b.bad && c.silent == a.silent + b.silent
  }

  function One(b: byte): Sums {
    var l := b % 16;
    Sums(b / 16 + 1, if 0 < l <= MAXBITS then (b / 16 + 1) * Pow2(MAXBITS - l) else 0, if l > MAXBITS then 1 else 0,
         if l == 0 then 1 else 0)
  }

  function Sum(rep: seq<byte>): Sums {
    if rep == [] then Sums(0, 0, 0, 0) else
    var (a, b) := (Sum(rep[..|rep| - 1]), One(rep[|rep| - 1]));
    Sums(a.symbols + b.symbols, a.share + b.share, a.bad + b.bad, a.silent + b.silent)
  }

  lemma {:induction false} SumConcat(a: seq<byte>, b: seq<byte>)
    ensures Adds(Sum(a + b), Sum(a), Sum(b))
  {
    hide One;
    if b == [] {
      assert a + b == a;
    } else {
      assert (a + b)[..|a + b| - 1] == a + b[..|b| - 1];
      SumConcat(a, b[..|b| - 1]);
    }
  }

  lemma {:induction false} SumMore(s: seq<byte>, n: nat)
    requires n < |s|
    ensures Adds(Sum(s[..n + 1]), Sum(s[..n]), One(s[n]))
  {
    hide One;
    assert s[..n + 1][..n] == s[..n];
  }

  lemma {:induction false} SumNone(s: seq<byte>)
    ensures Sum(s[..0]) == Sums(0, 0, 0, 0) && Sum(s[..|s|]) == Sum(s)
  {
    assert s[..|s|] == s;
  }

  lemma {:induction false} SumSeven(s: seq<byte>)
    requires |s| == 7
    ensures Sum(s).symbols == One(s[0]).symbols + One(s[1]).symbols + One(s[2]).symbols + One(s[3]).symbols
          + One(s[4]).symbols + One(s[5]).symbols + One(s[6]).symbols
    ensures Sum(s).share == One(s[0]).share + One(s[1]).share + One(s[2]).share + One(s[3]).share
          + One(s[4]).share + One(s[5]).share + One(s[6]).share
    ensures Sum(s).bad == One(s[0]).bad + One(s[1]).bad + One(s[2]).bad + One(s[3]).bad
          + One(s[4]).bad + One(s[5]).bad + One(s[6]).bad
    ensures Sum(s).silent == One(s[0]).silent + One(s[1]).silent + One(s[2]).silent + One(s[3]).silent
          + One(s[4]).silent + One(s[5]).silent + One(s[6]).silent
  {
    hide One, Sum;
    SumNone(s);
    SumMore(s, 0); SumMore(s, 1); SumMore(s, 2); SumMore(s, 3); SumMore(s, 4); SumMore(s, 5); SumMore(s, 6);
  }

  /** The share of one code of length l. */
  function ShareOf(l: nat): nat {
    if l == 1 then 4096 else if l == 2 then 2048 else if l == 3 then 1024 else if l == 4 then 512
    else if l == 5 then 256 else if l == 6 then 128 else if l == 7 then 64 else if l == 8 then 32
    else if l == 9 then 16 else if l == 10 then 8 else if l == 11 then 4 else if l == 12 then 2
    else if l == 13 then 1 else 0
  }

  lemma {:induction false} ShareIs(l: nat)
    requires 0 < l <= MAXBITS
    ensures Pow2(MAXBITS - l) == ShareOf(l)
    decreases MAXBITS - l
  {
    if l < MAXBITS { ShareIs(l + 1); }
  }

  /** One byte of a table: q+1 symbols with codes of length l. */
  lemma {:induction false} OneIs(b: byte, q: nat, l: nat)
    requires b == 16 * q + l && 0 < l <= MAXBITS
    ensures One(b) == Sums(q + 1, (q + 1) * ShareOf(l), 0, 0)
  {
    ShareIs(l);
  }

  lemma {:induction false} LiteralRows0()
    ensures Sum(LITERALS0) == Sums(26, 208, 0, 0) && Sum(LITERALS1) == Sums(11, 573, 0, 0)
  {
    hide One, Sum;
    SumSeven(LITERALS0);
    OneIs(11, 0, 11); OneIs(124, 7, 12); OneIs(8, 0, 8); OneIs(7, 0, 7); OneIs(28, 1, 12); OneIs(7, 0, 7); OneIs(188, 11, 12);
    SumSeven(LITERALS1);
    OneIs(13, 0, 13); OneIs(76, 4, 12); OneIs(4, 0, 4); OneIs(10, 0, 10); OneIs(8, 0, 8); OneIs(12, 0, 12); OneIs(10, 0, 10);
  }

  lemma {:induction false} LiteralRows1()
    ensures Sum(LITERALS2) == Sums(8, 282, 0, 0) && Sum(LITERALS3) == Sums(10, 704, 0, 0)
  {
    hide One, Sum;
    SumSeven(LITERALS2);
    OneIs(12, 0, 12); OneIs(10, 0, 10); OneIs(8, 0, 8); OneIs(23, 1, 7); OneIs(8, 0, 8); OneIs(9, 0, 9); OneIs(7, 0, 7);
    SumSeven(LITERALS3);
    OneIs(6, 0, 6); OneIs(7, 0, 7); OneIs(8, 0, 8); OneIs(7, 0, 7); OneIs(6, 0, 6); OneIs(55, 3, 7); OneIs(8, 0, 8);
  }

  lemma {:induction false} LiteralRows2()
    ensures Sum(LITERALS4) == Sums(9, 282, 0, 0) && Sum(LITERALS5) == Sums(9, 834, 0, 0)
  {
    hide One, Sum;
    SumSeven(LITERALS4);
    OneIs(23, 1, 7); OneIs(24, 1, 8); OneIs(12, 0, 12); OneIs(11, 0, 11); OneIs(7, 0, 7); OneIs(9, 0, 9); OneIs(11, 0, 11);
    SumSeven(LITERALS5);
    OneIs(12, 0, 12); OneIs(6, 0, 6); OneIs(7, 0, 7); OneIs(22, 1, 6); OneIs(5, 0, 5); OneIs(7, 0, 7); OneIs(24, 1, 8);
  }

  lemma {:induction false} LiteralRows3()
    ensures Sum(LITERALS6) == Sums(8, 660, 0, 0) && Sum(LITERALS7) == Sums(10, 536, 0, 0)
  {
    hide One, Sum;
    SumSeven(LITERALS6);
    OneIs(6, 0, 6); OneIs(11, 0, 11); OneIs(9, 0, 9); OneIs(6, 0, 6); OneIs(7, 0, 7); OneIs(22, 1, 6); OneIs(7, 0, 7);
    SumSeven(LITERALS7);
    OneIs(11, 0, 11); OneIs(38, 2, 6); OneIs(7, 0, 7); OneIs(9, 0, 9); OneIs(8, 0, 8); OneIs(25, 1, 9); OneIs(11, 0, 11);
  }

  lemma {:induction false} LiteralRows4()
    ensures Sum(LITERALS8) == Sums(7, 344, 0, 0) && Sum(LITERALS9) == Sums(11, 1604, 0, 0)
  {
    hide One, Sum;
    SumSeven(LITERALS8);
    OneIs(8, 0, 8); OneIs(11, 0, 11); OneIs(9, 0, 9); OneIs(12, 0, 12); OneIs(8, 0, 8); OneIs(12, 0, 12); OneIs(5, 0, 5);
    SumSeven(LITERALS9);
    OneIs(38, 2, 6); OneIs(5, 0, 5); OneIs(38, 2, 6); OneIs(5, 0, 5); OneIs(11, 0, 11); OneIs(7, 0, 7); OneIs(5, 0, 5);
  }

  lemma {:induction false} LiteralRows5()
    ensures Sum(LITERALS10) == Sums(11, 1896, 0, 0) && Sum(LITERALS11) == Sums(56, 134, 0, 0)
  {
    hide One, Sum;
    SumSeven(LITERALS10);
    OneIs(6, 0, 6); OneIs(21, 1, 5); OneIs(6, 0, 6); OneIs(10, 0, 10); OneIs(53, 3, 5); OneIs(8, 0, 8); OneIs(7, 0, 7);
    SumSeven(LITERALS11);
    OneIs(24, 1, 8); OneIs(10, 0, 10); OneIs(27, 1, 11); OneIs(44, 2, 12); OneIs(253, 15, 13); OneIs(253, 15, 13); OneIs(253, 15, 13);
  }

  lemma {:induction false} LiteralRows6()
    ensures Sum(LITERALS12) == Sums(54, 104, 0, 0) && Sum(LITERALS13) == Sums(26, 31, 0, 0)
  {
    hide One, Sum;
    SumSeven(LITERALS12);
    OneIs(252, 15, 12); OneIs(252, 15, 12); OneIs(252, 15, 12); OneIs(13, 0, 13); OneIs(12, 0, 12); OneIs(45, 2, 13); OneIs(12, 0, 12);
    SumSeven(LITERALS13);
    OneIs(45, 2, 13); OneIs(12, 0, 12); OneIs(61, 3, 13); OneIs(12, 0, 12); OneIs(45, 2, 13); OneIs(44, 2, 12); OneIs(173, 10, 13);
  }

  lemma {:induction false} LiteralsFirst()
    ensures Sum(LITERALS0 + LITERALS1 + LITERALS2 + LITERALS3 + LITERALS4 + LITERALS5 + LITERALS6) == Sums(81, 3543, 0, 0)
  {
    LiteralRows0();
    LiteralRows1();
    LiteralRows2();
    LiteralRows3();
    hide One, Sum;
    SumConcat(LITERALS0, LITERALS1);
    SumConcat(LITERALS0 + LITERALS1, LITERALS2);
    SumConcat(LITERALS0 + LITERALS1 + LITERALS2, LITERALS3);
    SumConcat(LITERALS0 + LITERALS1 + LITERALS2 + LITERALS3, LITERALS4);
    SumConcat(LITERALS0 + LITERALS1 + LITERALS2 + LITERALS3 + LITERALS4, LITERALS5);
    SumConcat(LITERALS0 + LITERALS1 + LITERALS2 + LITERALS3 + LITERALS4 + LITERALS5, LITERALS6);
  }

  lemma {:induction false} LiteralsLast()
    ensures Sum(LITERALS7 + LITERALS8 + LITERALS9 + LITERALS10 + LITERALS11 + LITERALS12 + LITERALS13) == Sums(175, 4649, 0, 0)
  {
    LiteralRows3();
    LiteralRows4();
    LiteralRows5();
    LiteralRows6();
    hide One, Sum;
    SumConcat(LITERALS7, LITERALS8);
    SumConcat(LITERALS7 + LITERALS8, LITERALS9);
    SumConcat(LITERALS7 + LITERALS8 + LITERALS9, LITERALS10);
    SumConcat(LITERALS7 + LITERALS8 + LITERALS9 + LITERALS10, LITERALS11);
    SumConcat(LITERALS7 + LITERALS8 + LITERALS9 + LITERALS10 + LITERALS11, LITERALS12);
    SumConcat(LITERALS7 + LITERALS8 + LITERALS9 + LITERALS10 + LITERALS11 + LITERALS12, LITERALS13);
  }

  lemma {:induction false} LiteralSum()
    ensures Sum(LITLEN) == Sums(256, 8192, 0, 0)
  {
    LiteralsFirst();
    LiteralsLast();
    hide One, Sum;
    SumConcat(LITERALS0 + LITERALS1 + LITERALS2 + LITERALS3 + LITERALS4 + LITERALS5 + LITERALS6, LITERALS7 + LITERALS8 + LITERALS9 + LITERALS10 + LITERALS11 + LITERALS12 + LITERALS13);
  }

  lemma {:induction false} DistanceSum()
    ensures Sum(DISTLEN) == Sums(64, 8192, 0, 0)
  {
    hide One, Sum;
    SumSeven(DISTLEN);
    OneIs(2, 0, 2); OneIs(20, 1, 4); OneIs(53, 3, 5); OneIs(230, 14, 6); OneIs(247, 15, 7); OneIs(151, 9, 7); OneIs(248, 15, 8);
  }

  lemma {:induction false} LengthSum()
    ensures Sum(LENLEN) == Sums(16, 8192, 0, 0)
  {
    hide One, Sum;
    SumNone(LENLEN);
    SumMore(LENLEN, 0); SumMore(LENLEN, 1); SumMore(LENLEN, 2); SumMore(LENLEN, 3); SumMore(LENLEN, 4); SumMore(LENLEN, 5);
    OneIs(2, 0, 2); OneIs(35, 2, 3); OneIs(36, 2, 4); OneIs(53, 3, 5); OneIs(38, 2, 6); OneIs(23, 1, 7);
  }
}
