/**
 What a PKWare stream means: its tokens, and the text they stand for over a
 history that is never forgotten.
*/
module BlastText {
  import opened Bits
  import opened LzCopy
  import opened LowBits
  import opened BlastCode
  import opened BlastTables
  import opened BlastConstruct
  import opened Wrappers

  const MAXWIN := 4096
  const ENDLENGTH := 519

  const BASE: seq<nat> := [3, 2, 4, 5, 6, 7, 8, 9, 10, 12, 16, 24, 40, 72, 136, 264]
  const EXTRA: seq<nat> := [0, 0, 0, 0, 0, 0, 0, 0, 1, 2, 3, 4, 5, 6, 7, 8]

  // ----------------------------------------------------------------- tokens

  /** A byte, a copy of len bytes from dist bytes back, or the end. */
  datatype Token = Literal(b: byte) | Copy(len: nat, dist: nat) | End

  datatype Parsed<T> = Parsed(value: T, rest: seq<bool>) | Dry

  /** The number in the next n bits, lowest first. */
  function ReadBits(n: nat, s: seq<bool>): (r: Parsed<nat>)
    ensures r.Parsed? ==> r.value < Pow2(n) && |r.rest| + n == |s|
  {
    if |s| < n then Dry else Parsed(LowFirst(s[..n]), s[n..])
  }

  /** t is the table of a complete code. */
  ghost predicate Complete(t: Table, lengths: seq<Length>) {
    Sorted(t, lengths) && Left(lengths, MAXBITS) == 0
  }

  /** The code lengths of the literals, the lengths and the distances. */
  ghost function LiteralLengths(): (r: seq<Length>)
    ensures |r| == 256 && Left(r, MAXBITS) == 0 && AllCoded(r)
  {
    TablesComplete();
    Lengths(LITLEN)
  }

  ghost function LengthLengths(): (r: seq<Length>)
    ensures |r| == 16 && Left(r, MAXBITS) == 0 && AllCoded(r)
  {
    TablesComplete();
    Lengths(LENLEN)
  }

  ghost function DistanceLengths(): (r: seq<Length>)
    ensures |r| == 64 && Left(r, MAXBITS) == 0 && AllCoded(r)
  {
    TablesComplete();
    Lengths(DISTLEN)
  }

  /** The tables of the three codes. */
  datatype Tables = Tables(lit: Table, len: Table, dist: Table)

  ghost predicate Built(t: Tables) {
    Complete(t.lit, LiteralLengths()) && Complete(t.len, LengthLengths()) && Complete(t.dist, DistanceLengths())
  }

  /** The next symbol of a complete code: reading it can only fail for lack of bits. */
  function ReadSymbol(t: Table, ghost lengths: seq<Length>, s: seq<bool>): (r: Parsed<nat>)
    requires Complete(t, lengths)
    ensures r.Parsed? ==> r.value < |lengths| && |r.rest| < |s|
  {
    CompleteNeverFails(t, lengths, s);
    match Decode(t, s)
    case Symbol(x, rest) => Parsed(x, rest)
    case Starved => Dry
    case NoCode => assert false; Dry
  }

  function ReadLiteral(t: Tables, lit: nat, s: seq<bool>): (r: Parsed<nat>)
    requires Built(t)
    ensures r.Parsed? ==> r.value < 256 && |r.rest| < |s|
  {
    Pow2Of8(8);
    if lit != 0 then ReadSymbol(t.lit, LiteralLengths(), s) else ReadBits(8, s)
  }

  /** A length: a symbol gives its base, and says how many extra bits follow. */
  function ReadLength(t: Tables, s: seq<bool>): (r: Parsed<nat>)
    requires Built(t)
    ensures r.Parsed? ==> |r.rest| < |s|
  {
    match ReadSymbol(t.len, LengthLengths(), s)
    case Dry => Dry
    case Parsed(x, s1) =>
      match ReadBits(EXTRA[x], s1)
      case Dry => Dry
      case Parsed(e, s2) => Parsed(BASE[x] + e, s2)
  }

  /** How many low bits of the distance are not coded. */
  function DistanceBits(len: nat, dict: nat): nat { if len == 2 then 2 else dict }

  function ReadDistance(t: Tables, n: nat, s: seq<bool>): (r: Parsed<nat>)
    requires Built(t)
    ensures r.Parsed? ==> r.value > 0 && |r.rest| < |s|
  {
    match ReadSymbol(t.dist, DistanceLengths(), s)
    case Dry => Dry
    case Parsed(x, s1) =>
      match ReadBits(n, s1)
      case Dry => Dry
      case Parsed(e, s2) => Parsed(Shl(x, n) + e + 1, s2)
  }

  function ReadToken(t: Tables, lit: nat, dict: nat, s: seq<bool>): (r: Parsed<Token>)
    requires Built(t)
    ensures r.Parsed? ==> |r.rest| < |s| && (r.value.Copy? ==> r.value.dist > 0)
  {
    if s == [] then Dry
    else if s[0] then
      match ReadLength(t, s[1..])
      case Dry => Dry
      case Parsed(len, s1) =>
        if len == ENDLENGTH then Parsed(End, s1) else
        match ReadDistance(t, DistanceBits(len, dict), s1)
        case Dry => Dry
        case Parsed(dist, s2) => Parsed(Copy(len, dist), s2)
    else
      match ReadLiteral(t, lit, s[1..])
      case Dry => Dry
      case Parsed(b, s1) => Parsed(Literal(b), s1)
  }

  // -------------------------------------------------------------------- text

  /** Error codes of the format, and running out of input. */
  const OUTPUT := 1
  const INPUT := 2
  const BADFLAG := -1
  const BADSIZE := -2
  const TOOFAR := -3

  /** The text out so far, and the tokens still to be read: the whole text, and how it ends. */
  function Inflate(t: Tables, lit: nat, dict: nat, out: seq<byte>, s: seq<bool>): (seq<byte>, int)
    requires Built(t)
    decreases |s|
  {
    match ReadToken(t, lit, dict, s)
    case Dry => (out, INPUT)
    case Parsed(End, _) => (out, 0)
    case Parsed(Literal(b), s') => Inflate(t, lit, dict, out + [b], s')
    case Parsed(Copy(len, dist), s') =>
      if dist > |out| then (out, TOOFAR) else Inflate(t, lit, dict, Copied(out, dist, len), s')
  }

  /** The text of a whole stream, and the return code. */
  function Blast(t: Tables, s: seq<bool>): (seq<byte>, int)
    requires Built(t)
  {
    match ReadBits(8, s)
    case Dry => ([], INPUT)
    case Parsed(lit, s1) =>
      if lit > 1 then ([], BADFLAG) else
      match ReadBits(8, s1)
      case Dry => ([], INPUT)
      case Parsed(dict, s2) =>
        if dict < 4 || dict > 6 then ([], BADSIZE) else Inflate(t, lit, dict, [], s2)
  }
}
