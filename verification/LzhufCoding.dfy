/**
 Reading symbols and positions from the bit stream, and the coder they invert.
*/
module LzhufCoding {
  import opened LzhufTree
  import opened Wrappers
  import opened Bits
  import Rebuild = LzhufRebuild

  // ---------------------------------------------------------------- symbols

  /** Follow one bit per level from the pair or leaf c down; the symbol reached and the bits left. */
  function Descend(t: Tree, c: nat, bits: seq<bool>): (r: Option<(nat, seq<bool>)>)
    requires Valid(t) && (c < R || T <= c < T + N_CHAR)
    ensures r.Some? ==> r.value.0 < N_CHAR && |r.value.1| <= |bits|
    ensures r.Some? && c < T ==> |r.value.1| < |bits|
    decreases if c < T then c + 1 else 0
  {
    if c >= T then Some((c - T, bits))
    else if bits == [] then None
    else
      var n := c + if bits[0] then 1 else 0;
      assert SonOk(t.son, t.prnt, n);
      Descend(t, t.son[n], bits[1..])
  }

  /** The path from the root to node x: one bit per level, set for the upper node of a pair. */
  function Path(t: Tree, x: nat): seq<bool>
    requires Valid(t) && x <= R
    decreases R - x
  {
    if x == R then [] else
    assert ParentOk(t.son, t.prnt, x);
    Path(t, t.prnt[x]) + [x % 2 == 1]
  }

  lemma {:induction false} PathLeadsTo(t: Tree, x: nat, rest: seq<bool>)
    requires Valid(t) && x <= R
    ensures SonOk(t.son, t.prnt, R) && SonOk(t.son, t.prnt, x)
    ensures Descend(t, t.son[R], Path(t, x) + rest) == Descend(t, t.son[x], rest)
    decreases R - x
  {
    assert SonOk(t.son, t.prnt, R) && SonOk(t.son, t.prnt, x);
    if x == R {
      assert Path(t, x) + rest == rest;
    } else {
      assert ParentOk(t.son, t.prnt, x);
      var p := t.prnt[x];
      assert SonOk(t.son, t.prnt, p);
      var bit := x % 2 == 1;
      assert Path(t, x) + rest == Path(t, p) + ([bit] + rest);
      PathLeadsTo(t, p, [bit] + rest);
      assert ([bit] + rest)[1..] == rest;
    }
  }

  /** The code of symbol c: climb from its leaf to the root, read backwards. */
  function SymbolCode(t: Tree, c: nat): seq<bool>
    requires Valid(t) && c < N_CHAR
  {
    assert ParentOk(t.son, t.prnt, c + T);
    Path(t, t.prnt[c + T])
  }

  /** Decode a symbol and count it; when the bits run out, nothing is left and the tree is unchanged. */
  function ReadSymbol(t: Tree, bits: seq<bool>): (r: (Option<nat>, Tree, seq<bool>))
    requires Valid(t)
    ensures Valid(r.1) && |r.2| <= |bits|
    ensures r.0.Some? ==> r.0.value < N_CHAR && |r.2| < |bits|
    ensures r.0.None? ==> r.1 == t && r.2 == []
  {
    RootIsInner(t);
    match Descend(t, t.son[R], bits)
    case None => (None, t, [])
    case Some((c, rest)) => (Some(c), Rebuild.Update(t, c), rest)
  }

  lemma {:induction false} RootIsInner(t: Tree)
    requires Valid(t)
    ensures 0 <= t.son[R] < R
  {
    assert SonOk(t.son, t.prnt, R);
    assert ParentOk(t.son, t.prnt, R - 1);
  }

  lemma {:induction false} SymbolFound(t: Tree, c: nat, rest: seq<bool>)
    requires Valid(t) && c < N_CHAR
    ensures 0 <= t.son[R] < R && Descend(t, t.son[R], SymbolCode(t, c) + rest) == Some((c, rest))
  {
    assert ParentOk(t.son, t.prnt, c + T);
    RootIsInner(t);
    PathLeadsTo(t, t.prnt[c + T], rest);
  }

  /** A coder that keeps the same tree stays in step with the decoder, whatever follows. */
  lemma {:induction false} SymbolRoundTrip(t: Tree, c: nat, rest: seq<bool>)
    requires Valid(t) && c < N_CHAR
    ensures ReadSymbol(t, SymbolCode(t, c) + rest) == (Some(c), Rebuild.Update(t, c), rest)
  {
    SymbolFound(t, c, rest);
  }

  // -------------------------------------------------------------- positions

  /** The upper six bits of a position, from the first byte of its code. */
  function DCode(b: byte): (u: nat)
    ensures u < 64
  {
    if b < 0x20 then 0
    else if b < 0x50 then 1 + (b - 0x20) / 16
    else if b < 0x90 then 4 + (b - 0x50) / 8
    else if b < 0xC0 then 12 + (b - 0x90) / 4
    else if b < 0xF0 then 24 + (b - 0xC0) / 2
    else 48 + (b - 0xF0)
  }

  /** How many bits of that byte are code. */
  function DLen(b: byte): (n: nat)
    ensures 3 <= n <= 8
  {
    if b < 0x20 then 3 else if b < 0x50 then 4 else if b < 0x90 then 5
    else if b < 0xC0 then 6 else if b < 0xF0 then 7 else 8
  }

  /** A position, and the bits left; None when the bits run out. */
  function ReadPosition(bits: seq<bool>): (r: Option<(nat, seq<bool>)>)
    ensures r.Some? ==> r.value.0 < 4096 && |r.value.1| <= |bits|
  {
    if |bits| < 8 then None else
    ValueBound(bits[..8]);
    assert Pow2(8) == 256;
    var b := Value(bits[..8]);
    var n := DLen(b) + 6;
    if |bits| < n then None else
    Some((DCode(b) * 64 + Value(bits[..n]) % 64, bits[n..]))
  }

  /** The code for the upper six bits u of a position: PCode(u), in PLen(u) bits. */
  function PLen(u: nat): (n: nat)
    requires u < 64
    ensures 3 <= n <= 8
  {
    if u == 0 then 3 else if u < 4 then 4 else if u < 12 then 5 else if u < 24 then 6 else if u < 48 then 7 else 8
  }

  function PCode(u: nat): nat
    requires u < 64
  {
    if u == 0 then 0 else if u < 4 then u + 1 else if u < 12 then u + 6
    else if u < 24 then u + 24 else if u < 48 then u + 72 else u + 192
  }

  /** The code of a position: the code of its upper part, then its lower six bits. */
  function PositionCode(p: nat): seq<bool>
    requires p < 4096
  {
    ToBits(PCode(p / 64), PLen(p / 64)) + ToBits(p % 64, 6)
  }

  lemma {:induction false} PowersOfTwo()
    ensures Pow2(0) == 1 && Pow2(1) == 2 && Pow2(2) == 4 && Pow2(3) == 8 && Pow2(4) == 16
    ensures Pow2(5) == 32 && Pow2(6) == 64 && Pow2(7) == 128 && Pow2(8) == 256
  {
    assert Pow2(2) == 4;
    assert Pow2(4) == 16;
    assert Pow2(6) == 64;
  }

  /** Every byte that starts with the code of u decodes to u. */
  lemma {:induction false} CodeDecides(u: nat, x: nat)
    requires u < 64 && x < Pow2(8 - PLen(u))
    ensures PCode(u) < Pow2(PLen(u))
    ensures var b := PCode(u) * Pow2(8 - PLen(u)) + x; b < 256 && DCode(b) == u && DLen(b) == PLen(u)
  {
    PowersOfTwo();
    var v, n := PCode(u), PLen(u);
    if n == 3 { assert Pow2(8 - n) == 32; }
    else if n == 4 { assert Pow2(8 - n) == 16; assert v * Pow2(8 - n) == v * 16; }
    else if n == 5 { assert Pow2(8 - n) == 8; assert v * Pow2(8 - n) == v * 8; }
    else if n == 6 { assert Pow2(8 - n) == 4; assert v * Pow2(8 - n) == v * 4; }
    else if n == 7 { assert Pow2(8 - n) == 2; assert v * Pow2(8 - n) == v * 2; }
    else { assert Pow2(8 - n) == 1; }
  }

  lemma {:induction false} PositionBits(p: nat, rest: seq<bool>) returns (x: nat)
    requires p < 4096
    ensures var bits := PositionCode(p) + rest; var (u, n) := (p / 64, PLen(p / 64));
            && |PositionCode(p)| == n + 6 && x < Pow2(8 - n)
            && Value(bits[..8]) == PCode(u) * Pow2(8 - n) + x
            && Value(bits[..n + 6]) == PCode(u) * 64 + p % 64
  {
    var u, low := p / 64, p % 64;
    var v, n := PCode(u), PLen(u);
    var hi, lo := ToBits(v, n), ToBits(low, 6);
    var bits := PositionCode(p) + rest;
    PowersOfTwo();
    x := Value(lo[..8 - n]);
    ValueBound(lo[..8 - n]);
    CodeDecides(u, x);
    ValueToBits(v, n);
    ValueToBits(low, 6);
    assert bits[..8] == hi + lo[..8 - n];
    ValueConcat(hi, lo[..8 - n]);
    assert bits[..n + 6] == hi + lo;
    ValueConcat(hi, lo);
  }

  lemma {:induction false} LowSix(v: nat, p: nat)
    ensures (v * 64 + p % 64) % 64 == p % 64
  {
  }

  /** Reading back a position's code returns the position and consumes exactly the code. */
  lemma {:induction false} PositionRoundTrip(p: nat, rest: seq<bool>)
    requires p < 4096
    ensures ReadPosition(PositionCode(p) + rest) == Some((p, rest))
  {
    var x := PositionBits(p, rest);
    CodeDecides(p / 64, x);
    var bits, n := PositionCode(p) + rest, PLen(p / 64) + 6;
    assert bits[n..] == rest;
    LowSix(PCode(p / 64), p);
  }
}
