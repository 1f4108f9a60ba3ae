/**
 The PKWare decoder: bits from buffered input, canonical codes, and copies
 within a window that is written out whenever it is full.
*/
module BlastDecoder {
  import opened Bits
  import opened LowBits
  import opened BlastCode
  import opened BlastTables
  import opened BlastConstruct
  import opened BlastText
  import opened LzCopy
  import opened BlastCoding
  import opened BlastWindow
  import opened Wrappers

  /** The input that is still to come: chunks up to the first empty one. */
  function Supply(chunks: seq<seq<byte>>): seq<byte> {
    if chunks == [] || chunks[0] == [] then [] else chunks[0] + Supply(chunks[1..])
  }

  lemma {:induction false} ByteBits(b: byte)
    ensures BitsOf(b) == LowToBits(b, 8) && b < Pow2(8)
  {
    BitsOfIs(b);
    assert Pow2(2) == 4 && Pow2(4) == 16 && Pow2(6) == 64 && Pow2(8) == 256;
  }

  lemma {:induction false} NoBits(v: nat, b: byte)
    requires v < Pow2(0)
    ensures v == 0 && Shl(b, 0) == b && LowToBits(v, 0) == [] && [] + BitsOf(b) == BitsOf(b)
  {
  }

  /** The lowest of the n bits does not depend on what is above them. */
  lemma {:induction false} BitBelow(v: nat, n: nat, b: byte)
    requires v < Pow2(n) && n > 0
    ensures var w, w' := v + Shl(b, n), v / 2 + Shl(b, n - 1);
            && v / 2 < Pow2(n - 1)
            && LowToBits(v, n) == [v % 2 == 1] + LowToBits(v / 2, n - 1)
            && LowToBits(w, n + 8) == [v % 2 == 1] + LowToBits(w', n + 7)
            && (w' < Pow2(n + 7) ==> w < Pow2(n + 8))
  {
    var w := v + Shl(b, n);
    assert w / 2 == v / 2 + Shl(b, n - 1) && w % 2 == v % 2;
  }

  /** Eight more bits above the low n bits. */
  lemma {:induction false} ByteAbove(v: nat, n: nat, b: byte)
    requires v < Pow2(n)
    ensures LowToBits(v + Shl(b, n), n + 8) == LowToBits(v, n) + BitsOf(b) && v + Shl(b, n) < Pow2(n + 8)
  {
    hide BitsOf, LowToBits, Shl, Pow2;
    if n == 0 {
      ByteBits(b);
      NoBits(v, b);
    } else {
      BitBelow(v, n, b);
      ByteAbove(v / 2, n - 1, b);
      Associate([v % 2 == 1], LowToBits(v / 2, n - 1), BitsOf(b));
    }
  }

  lemma {:induction false} SplitBits(v: nat, n: nat, k: nat)
    requires k <= n && v < Pow2(n)
    ensures LowFirst(LowToBits(v, n)[..k]) == Mask(v, k)
    ensures LowToBits(v, n)[k..] == LowToBits(Shr(v, k), n - k) && Shr(v, k) < Pow2(n - k)
    decreases k
  {
    var s := LowToBits(v, n);
    if k == 0 {
      assert s[0..] == s && s[..0] == [];
    } else {
      var u := LowToBits(v / 2, n - 1);
      assert s == [v % 2 == 1] + u;
      assert s[..k][1..] == u[..k - 1] && s[k..] == u[k - 1..];
      SplitBits(v / 2, n - 1, k - 1);
    }
  }

  class State {
    var input: seq<byte>
    var chunks: seq<seq<byte>>
    var bitBuf: nat
    var bitCnt: nat
    const out: array<byte>
    const litCount: array<nat>
    const litSymbol: array<nat>
    const lenCount: array<nat>
    const lenSymbol: array<nat>
    const distCount: array<nat>
    const distSymbol: array<nat>
    var next: nat
    var first: bool
    var refusals: seq<bool>
    var written: seq<byte>

    ghost predicate BitsOk()
      reads `bitBuf, `bitCnt
    {
      bitCnt < 8 && bitBuf < Pow2(bitCnt)
    }

    /** All bits still to be read. */
    ghost function Ahead(): seq<bool>
      reads `bitBuf, `bitCnt, `input, `chunks
    {
      LowToBits(bitBuf, bitCnt) + Flat(input + Supply(chunks))
    }

    /** One byte of input; the input function is asked when the buffer is empty. */
    method Fetch() returns (ok: bool, b: byte)
      modifies `input, `chunks
      ensures ok == (old(input + Supply(chunks)) != [])
      ensures ok ==> old(input + Supply(chunks)) == [b] + (input + Supply(chunks))
    {
      b := 0;
      if input == [] {
        if chunks == [] || chunks[0] == [] { return false, 0; }
        input := chunks[0];
        chunks := chunks[1..];
      }
      b := input[0];
      assert input == [b] + input[1..];
      input := input[1..];
      ok := true;
    }

    /** What is ahead when val and cnt stand for the bit buffer. */
    ghost function Behind(val: nat, cnt: nat): seq<bool>
      reads `input, `chunks
    {
      LowToBits(val, cnt) + Flat(input + Supply(chunks))
    }

    /** Put eight more bits on top of the buffer. */
    method Load(val: nat, cnt: nat) returns (ok: bool, val': nat)
      requires val < Pow2(cnt)
      modifies `input, `chunks
      ensures ok == (old(input + Supply(chunks)) != [])
      ensures ok ==> val' < Pow2(cnt + 8) && old(Behind(val, cnt)) == Behind(val', cnt + 8)
    {
      ghost var f := input + Supply(chunks);
      var b;
      val' := val;
      ok, b := Fetch();
      if !ok { return; }
      FlatMore(f, b, input + Supply(chunks), LowToBits(val, cnt));
      ByteAbove(val, cnt, b);
      val' := val + Shl(b, cnt);
    }

    /** The next need bits as a number. */
    method ReadN(need: nat) returns (ok: bool, v: nat)
      requires BitsOk() && need <= 8
      modifies `input, `chunks, `bitBuf, `bitCnt
      ensures var r := ReadBits(need, old(Ahead()));
              ok == r.Parsed? && (ok ==> BitsOk() && r == Parsed(v, Ahead()))
    {
      ghost var s := Ahead();
      var val: nat, cnt: nat := bitBuf, bitCnt;
      while cnt < need
        invariant cnt < need + 8 && val < Pow2(cnt) && s == Behind(val, cnt)
        invariant cnt < 8 || cnt < need + 8
        decreases need - cnt
      {
        ok, val := Load(val, cnt);
        if !ok { return false, 0; }
        cnt := cnt + 8;
      }
      TakeBits(val, cnt, need, Flat(input + Supply(chunks)));
      bitBuf := Shr(val, need);
      bitCnt := cnt - need;
      return true, Mask(val, need);
    }

    /**
     Decode one symbol: the bits of the buffer are taken one by one, and new
     bytes are fetched as needed; sym is -9 if no code fits, and ok is false if
     the input ends first.
    */
    method DecodeSymbol(count: array<nat>, symbol: array<nat>, ghost lengths: seq<Length>) returns (ok: bool, sym: int)
      requires BitsOk() && count.Length == MAXBITS + 1 && Sorted(Table(count[..], symbol[..]), lengths)
      modifies `input, `chunks, `bitBuf, `bitCnt
      ensures var r := Decode(Table(count[..], symbol[..]), old(Ahead()));
              && ok == !r.Starved? && (r.NoCode? ==> sym == -9)
              && (r.Symbol? ==> BitsOk() && sym == r.s && Ahead() == r.rest)
    {
      hide Sorted, LookFrom, Decode, Walking, Index, CountOf, LowToBits, Flat, Pow2;
      ghost var t := Table(count[..], symbol[..]);
      ghost var s := Ahead();
      var w := Walk(bitBuf, bitCnt, bitCnt, 1, 0, 0, 0);
      WalkStart(t, lengths, bitBuf, bitCnt, Flat(input + Supply(chunks)));
      while true
        invariant Walking(t, lengths, s, bitCnt, w, Flat(input + Supply(chunks)))
        decreases MAXBITS + 1 - w.len, if w.left > 0 then 0 else 1
      {
        WalkBounds(t, lengths, s, bitCnt, w, Flat(input + Supply(chunks)));
        if w.left > 0 {
          WalkBit(t, lengths, s, bitCnt, w, Flat(input + Supply(chunks)));
          var code := if w.buf % 2 == 1 then w.code else w.code + 1;
          var n := count[w.len];
          if code < w.first + n {
            bitBuf := w.buf / 2;
            bitCnt := (bitCnt - w.len) % 8;
            return true, symbol[w.index + (code - w.first)];
          }
          w := Walk(w.buf / 2, w.have - 1, w.left - 1, w.len + 1, 2 * code, 2 * (w.first + n), w.index + n);
        } else {
          var left := MAXBITS + 1 - w.len;
          WalkOut(t, lengths, s, bitCnt, w, Flat(input + Supply(chunks)));
          if left == 0 { break; }
          ghost var f := input + Supply(chunks);
          var b;
          ok, b := Fetch();
          if !ok { return false, 0; }
          WalkByte(t, lengths, s, bitCnt, w, f, b, input + Supply(chunks));
          if left > 8 { left := 8; }
          w := w.(buf := b, have := 8, left := left);
        }
      }
      return true, -9;
    }

    // ------------------------------------------------------------- output

    /** The text so far: what has been written out, and the front of the window. */
    ghost predicate Output(text: seq<byte>)
      reads out, `next, `first, `written
    {
      && |written| <= |text| && written == text[..|written|] && next == |text| - |written| < MAXWIN
      && Holds(out[..], text, |written|) && (first <==> written == [])
    }

    /** Hand the front of the window to the output function; it may refuse. */
    method OutFun(len: nat) returns (bad: bool)
      requires len <= out.Length
      modifies `written, `refusals
      ensures bad == (old(refusals) != [] && old(refusals)[0])
      ensures refusals == if old(refusals) == [] then [] else old(refusals)[1..]
      ensures written == if bad then old(written) else old(written) + out[..len]
    {
      bad := false;
      if refusals != [] {
        bad := refusals[0];
        refusals := refusals[1..];
      }
      if !bad { written := written + out[..len]; }
    }

    /** Write the window out if it is full. */
    method FlushFull(ghost text: seq<byte>) returns (bad: bool)
      requires next <= MAXWIN && |written| <= |text| && written == text[..|written|] && next == |text| - |written|
      requires Holds(out[..], text, |written|) && (first <==> written == [])
      modifies `written, `refusals, `next, `first
      ensures !bad ==> Output(text)
      ensures bad ==> written == old(written) && Refuses(old(refusals))
      ensures Refuses(refusals) ==> Refuses(old(refusals))
    {
      bad := false;
      if next == MAXWIN {
        HoldsFront(out[..], text, |written|);
        HoldsFlush(out[..], text, |written|);
        ghost var base := |written|;
        assert text == text[..base] + text[base..];
        bad := OutFun(next);
        if bad { return; }
        assert written == text[..|written|];
        next := 0;
        first := false;
      }
    }

    /** Append a byte to the text. */
    method PutByte(b: byte, ghost text: seq<byte>) returns (bad: bool)
      requires Output(text)
      modifies out, `written, `refusals, `next, `first
      ensures !bad ==> Output(text + [b])
      ensures bad ==> written == old(written) && Refuses(old(refusals))
      ensures Refuses(refusals) ==> Refuses(old(refusals))
    {
      HoldsPut(out[..], text, |written|, b);
      ghost var o := out[..];
      out[next] := b;
      assert out[..] == o[next := b];
      next := next + 1;
      assert (text + [b])[..|written|] == text[..|written|];
      bad := FlushFull(text + [b]);
    }

    /** Copy one byte, from dist places back. */
    method CopyByte(from: nat, to: nat, dist: nat, ghost text: seq<byte>) returns (b: byte)
      requires |written| <= |text| && to == |text| - |written| < MAXWIN && Holds(out[..], text, |written|)
      requires 0 < dist <= MAXWIN && dist <= |text|
      requires from == if to >= dist then to - dist else to - dist + MAXWIN
      modifies out
      ensures b == text[|text| - dist] && Holds(out[..], text + [b], |written|)
    {
      HoldsBack(out[..], text, |written|, dist);
      b := out[from];
      HoldsPut(out[..], text, |written|, b);
      ghost var o := out[..];
      out[to] := b;
      assert out[..] == o[to := b];
    }

    /** Copy within the window without crossing its end. */
    method CopyChunk(copy: nat, from: nat, dist: nat, ghost text: seq<byte>, ghost n: nat) returns (ghost text': seq<byte>)
      requires Output(text) && 0 < dist <= MAXWIN && dist <= |text| && 0 < copy <= n && next + copy <= MAXWIN
      requires from + copy <= MAXWIN && from == if next >= dist then next - dist else next - dist + MAXWIN
      requires next >= dist || copy <= dist - next
      modifies out, `next
      ensures |text'| == |text| + copy && Copied(text, dist, n) == Copied(text', dist, n - copy)
      ensures next == old(next) + copy == |text'| - |written| && written == text'[..|written|]
      ensures Holds(out[..], text', |written|)
    {
      hide Holds, Copied;
      text' := text;
      var k: nat := 0;
      var to := next;
      next := next + copy;
      while k < copy
        invariant k <= copy && |text'| == |text| + k && |written| <= |text| && next == to + copy
        invariant to == |text| - |written| && Copied(text, dist, n) == Copied(text', dist, n - k)
        invariant written == text'[..|written|] && Holds(out[..], text', |written|)
        decreases copy - k
      {
        var b := CopyByte(from + k, to + k, dist, text');
        assert (text' + [b])[..|written|] == text'[..|written|];
        CopiedFirst(text', dist, n - k);
        text' := text' + [b];
        k := k + 1;
      }
    }

    /** Copy len bytes from dist bytes back. */
    method CopyMatch(length: nat, dist: nat, ghost text: seq<byte>) returns (bad: bool)
      requires Output(text) && 0 < dist <= MAXWIN && dist <= |text| && length > 0
      modifies out, `written, `refusals, `next, `first
      ensures !bad ==> Output(Copied(text, dist, length))
      ensures bad ==> written <= Copied(text, dist, length) && Refuses(old(refusals))
      ensures Refuses(refusals) ==> Refuses(old(refusals))
    {
      ghost var t := text;
      ghost var goal := Copied(text, dist, length);
      var len: nat := length;
      bad := false;
      while len != 0
        invariant Output(t) && dist <= |t| && Copied(t, dist, len) == goal
        invariant Refuses(refusals) ==> Refuses(old(refusals))
        decreases len
      {
        var from, copy := next - dist, MAXWIN;
        if next < dist {
          from := from + copy;
          copy := dist;
        }
        copy := copy - next;
        if copy > len { copy := len; }
        t := CopyChunk(copy, from, dist, t, len);
        len := len - copy;
        assert t <= goal;
        bad := FlushFull(t);
        if bad { return; }
      }
    }

    // ------------------------------------------------------------- tokens

    ghost predicate Wired() {
      && out.Length == MAXWIN
      && litCount.Length == lenCount.Length == distCount.Length == MAXBITS + 1
      && litSymbol.Length == 256 && lenSymbol.Length == 16 && distSymbol.Length == 64
      && litCount != litSymbol && lenCount != lenSymbol && distCount != distSymbol
      && litCount !in {lenCount, lenSymbol, distCount, distSymbol} && litSymbol !in {lenCount, lenSymbol, distCount, distSymbol}
      && lenCount !in {distCount, distSymbol} && lenSymbol !in {distCount, distSymbol}
      && (out as object) !in {litCount, litSymbol, lenCount, lenSymbol, distCount, distSymbol}
    }

    ghost function TablesNow(): Tables
      reads litCount, litSymbol, lenCount, lenSymbol, distCount, distSymbol
    {
      Tables(Table(litCount[..], litSymbol[..]), Table(lenCount[..], lenSymbol[..]), Table(distCount[..], distSymbol[..]))
    }

    /** Ready to decode: the tables are built. */
    ghost predicate Ready()
      reads litCount, litSymbol, lenCount, lenSymbol, distCount, distSymbol
    {
      Wired() && Built(TablesNow())
    }

    /** A symbol of a complete code. */
    method GetSymbol(count: array<nat>, symbol: array<nat>, ghost lengths: seq<Length>) returns (ok: bool, sym: nat)
      requires BitsOk() && Complete(Table(count[..], symbol[..]), lengths)
      modifies `input, `chunks, `bitBuf, `bitCnt
      ensures var r := ReadSymbol(Table(count[..], symbol[..]), lengths, old(Ahead()));
              ok == r.Parsed? && (ok ==> BitsOk() && r == Parsed(sym, Ahead()) && sym < |lengths|)
    {
      ghost var s := Ahead();
      CompleteNeverFails(Table(count[..], symbol[..]), lengths, s);
      hide Ahead, BitsOk;
      var x;
      ok, x := DecodeSymbol(count, symbol, lengths);
      sym := if ok then x else 0;
    }

    method GetLengthSymbol() returns (ok: bool, sym: nat)
      requires BitsOk() && Ready()
      modifies `input, `chunks, `bitBuf, `bitCnt
      ensures var r := ReadSymbol(TablesNow().len, LengthLengths(), old(Ahead()));
              ok == r.Parsed? && (ok ==> BitsOk() && r == Parsed(sym, Ahead()) && sym < 16)
    {
      hide BitsOk, Ahead, ReadSymbol, Complete, LengthLengths, LiteralLengths, DistanceLengths;
      ok, sym := GetSymbol(lenCount, lenSymbol, LengthLengths());
    }

    method GetDistanceSymbol() returns (ok: bool, sym: nat)
      requires BitsOk() && Ready()
      modifies `input, `chunks, `bitBuf, `bitCnt
      ensures var r := ReadSymbol(TablesNow().dist, DistanceLengths(), old(Ahead()));
              ok == r.Parsed? && (ok ==> BitsOk() && r == Parsed(sym, Ahead()) && sym < 64)
    {
      hide BitsOk, Ahead, ReadSymbol, Complete, LengthLengths, LiteralLengths, DistanceLengths;
      ok, sym := GetSymbol(distCount, distSymbol, DistanceLengths());
    }

    /** The decoder's tables are complete, as its specification wants them. */
    lemma {:induction false} ReadyIs()
      requires Ready()
      ensures Wired() && Built(TablesNow())
    {
    }

    method GetLength() returns (ok: bool, len: nat)
      requires BitsOk() && Ready()
      modifies `input, `chunks, `bitBuf, `bitCnt
      ensures var r := ReadLength(TablesNow(), old(Ahead()));
              ok == r.Parsed? && (ok ==> BitsOk() && r == Parsed(len, Ahead()))
    {
      hide BitsOk, Ahead, ReadBits, ReadSymbol, Built, Ready, LengthLengths, ReadLength, BASE, EXTRA, TablesNow, Left, AllCoded;
      ReadyIs();
      ghost var t := TablesNow();
      LengthRows();
      LengthParts(t, Ahead());
      var symbol, extra;
      len := 0;
      ok, symbol := GetLengthSymbol();
      if !ok { return; }
      ok, extra := ReadN(EXTRA[symbol]);
      len := BASE[symbol] + extra;
    }

    method GetDistance(n: nat) returns (ok: bool, dist: nat)
      requires BitsOk() && Ready() && n <= 8
      modifies `input, `chunks, `bitBuf, `bitCnt
      ensures var r := ReadDistance(TablesNow(), n, old(Ahead()));
              ok == r.Parsed? && (ok ==> BitsOk() && r == Parsed(dist, Ahead()))
    {
      hide BitsOk, Ahead, ReadBits, ReadSymbol, Built, Ready, DistanceLengths, ReadDistance, Shl, TablesNow, Left, AllCoded;
      ReadyIs();
      ghost var t := TablesNow();
      DistanceParts(t, n, Ahead());
      var symbol, extra;
      dist := 0;
      ok, symbol := GetDistanceSymbol();
      if !ok { return; }
      ok, extra := ReadN(n);
      dist := Shl(symbol, n) + extra + 1;
    }

    method GetLiteral(lit: nat) returns (ok: bool, b: nat)
      requires BitsOk() && Ready()
      modifies `input, `chunks, `bitBuf, `bitCnt
      ensures var r := ReadLiteral(TablesNow(), lit, old(Ahead()));
              ok == r.Parsed? && (ok ==> BitsOk() && r == Parsed(b, Ahead()))
    {
      hide Ahead, BitsOk, Complete, LiteralLengths, ReadSymbol, ReadBits;
      if lit != 0 {
        ok, b := GetSymbol(litCount, litSymbol, LiteralLengths());
      } else {
        ok, b := ReadN(8);
      }
    }

    /** The next literal, copy or end. */
    method GetToken(lit: nat, dict: nat) returns (ok: bool, k: Token)
      requires BitsOk() && Ready() && dict <= 6
      modifies `input, `chunks, `bitBuf, `bitCnt
      ensures var r := ReadToken(TablesNow(), lit, dict, old(Ahead()));
              ok == r.Parsed? && (ok ==> BitsOk() && r == Parsed(k, Ahead()))
    {
      OneBit(Ahead());
      hide Ahead, BitsOk, Ready, ReadLength, ReadDistance, ReadLiteral, ReadBits;
      var bit, b, len, dist;
      k := End;
      ok, bit := ReadN(1);
      if !ok { return; }
      if bit != 0 {
        ok, len := GetLength();
        if !ok || len == ENDLENGTH { return; }
        ok, dist := GetDistance(if len == 2 then 2 else dict);
        k := Copy(len, dist);
      } else {
        ok, b := GetLiteral(lit);
        if !ok { return; }
        k := Literal(b);
      }
    }

    // ------------------------------------------------------- the whole stream

    /** Before the first flush, next says how far back a copy may reach; after it, everything is in reach. */
    lemma {:induction false} OutputReach(text: seq<byte>, dist: nat)
      requires Output(text) && 0 < dist <= MAXWIN
      ensures (first && dist > next) <==> dist > |text|
    {
    }

    /** Decode tokens and write the text until the end, an error, or the end of the input. */
    method DecodeText(lit: nat, dict: nat) returns (err: int, ghost text: seq<byte>)
      requires BitsOk() && Ready() && 4 <= dict <= 6 && Output([])
      modifies this, out
      ensures var r := Inflate(TablesNow(), lit, dict, [], old(Ahead()));
              if err == OUTPUT then written <= r.0 && Refuses(old(refusals)) else err == r.1 && text == r.0 && Output(text)
      ensures Refuses(refusals) ==> Refuses(old(refusals))
    {
      hide Built, TablesNow, ReadToken, Inflate, Copied, BitsOk, Ahead;
      ghost var t := TablesNow();
      ghost var r := Inflate(t, lit, dict, [], Ahead());
      text := [];
      assert Wired();
      while true
        invariant BitsOk() && Ready() && TablesNow() == t && Built(t) && Output(text)
        invariant Inflate(t, lit, dict, text, Ahead()) == r
        invariant Refuses(refusals) ==> Refuses(old(refusals))
        decreases |Ahead()|
      {
        ghost var s := Ahead();
        InflateCases(t, lit, dict, text, s);
        var ok, k := GetToken(lit, dict);
        if !ok { return INPUT, text; }
        var bad := false;
        match k {
          case End => return 0, text;
          case Literal(b) =>
            bad := PutByte(b, text);
            text := text + [b];
          case Copy(len, dist) =>
            OutputReach(text, dist);
            if first && dist > next { return TOOFAR, text; }
            bad := CopyMatch(len, dist, text);
            text := Copied(text, dist, len);
        }
        if bad { return OUTPUT, text; }
      }
    }

    /** Read the header, then the text. */
    method Decomp() returns (err: int, ghost text: seq<byte>)
      requires BitsOk() && Ready() && Output([])
      modifies this, out
      ensures var r := BlastText.Blast(TablesNow(), old(Ahead()));
              if err == OUTPUT then written <= r.0 && Refuses(old(refusals)) else err == r.1 && text == r.0 && Output(text)
      ensures Refuses(refusals) ==> Refuses(old(refusals))
    {
      hide Ready, TablesNow, Inflate, Output, BitsOk, Ahead, ReadBits;
      text := [];
      var ok, lit := ReadN(8);
      if !ok { return INPUT, text; }
      if lit > 1 { return BADFLAG, text; }
      var dict;
      ok, dict := ReadN(8);
      if !ok { return INPUT, text; }
      if dict < 4 || dict > 6 { return BADSIZE, text; }
      err, text := DecodeText(lit, dict);
    }

    /** Write what is left in the window. */
    method WriteLeftover(code: int, ghost text: seq<byte>) returns (err: int)
      requires Output(text) && code != OUTPUT && out.Length == MAXWIN
      modifies `written, `refusals
      ensures written <= text
      ensures err == 0 ==> code == 0 && written == text
      ensures code != 0 ==> err == code
      ensures code == 0 ==> err == 0 || (err == 1 && Refuses(old(refusals)))
      ensures !Refuses(old(refusals)) ==> err == code && written == text
    {
      err := code;
      HoldsFront(out[..], text, |written|);
      assert text == text[..|written|] + text[|written|..];
      if next != 0 {
        var bad := OutFun(next);
        if bad && err == 0 { err := OUTPUT; }
      }
    }

    /** Start with an empty bit buffer and an empty text. */
    method Begin()
      requires out.Length == MAXWIN
      modifies this
      ensures Output([]) && BitsOk() && Ahead() == Flat(old(input + Supply(chunks))) && refusals == old(refusals)
    {
      bitBuf, bitCnt, next, first, written := 0, 0, 0, true, [];
      HoldsNothing(out[..]);
      hide Holds, Flat, Supply;
    }

    /** Decode a whole stream. */
    method Blast() returns (err: int)
      requires Ready()
      modifies this, out
      ensures var r := BlastText.Blast(TablesNow(), Flat(old(input + Supply(chunks))));
              && written <= r.0
              && (err == 0 ==> r.1 == 0 && written == r.0)
              && (err != 0 && err != OUTPUT ==> err == r.1)
              && (err == 1 ==> Refuses(old(refusals)))
              && (!Refuses(old(refusals)) ==> err == r.1 && written == r.0)
    {
      assert Wired();
      hide Ready, TablesNow, Output, BitsOk, Ahead, Refuses, BlastText.Blast;
      Begin();
      ghost var text;
      err, text := Decomp();
      if err != OUTPUT { err := WriteLeftover(err, text); }
    }

    /** Build the three tables. */
    method BuildTables()
      requires Wired()
      modifies litCount, litSymbol, lenCount, lenSymbol, distCount, distSymbol
      ensures Ready()
    {
      hide Complete, FullCode, Lengths, LITLEN, LENLEN, DISTLEN, LiteralLengths, LengthLengths, DistanceLengths;
      TablesComplete();
      NamedLengths();
      BuildTable(litCount, litSymbol, LITLEN, 256);
      BuildTable(lenCount, lenSymbol, LENLEN, 16);
      BuildTable(distCount, distSymbol, DISTLEN, 64);
    }

    constructor (input: seq<byte>, chunks: seq<seq<byte>>, refusals: seq<bool>)
      ensures Ready() && this.input == input && this.chunks == chunks && this.refusals == refusals
    {
      hide Ready;
      this.input, this.chunks, this.refusals, written := input, chunks, refusals, [];
      bitBuf, bitCnt, next, first := 0, 0, 0, true;
      out := new byte[MAXWIN](_ => 0);
      litCount, lenCount, distCount := new nat[MAXBITS + 1](_ => 0), new nat[MAXBITS + 1](_ => 0), new nat[MAXBITS + 1](_ => 0);
      litSymbol, lenSymbol, distSymbol := new nat[256](_ => 0), new nat[16](_ => 0), new nat[64](_ => 0);
      new;
      BuildTables();
    }
  }

  lemma {:induction false} NamedLengths()
    requires FullCode(LITLEN, 256) && FullCode(LENLEN, 16) && FullCode(DISTLEN, 64)
    ensures LiteralLengths() == Lengths(LITLEN) && LengthLengths() == Lengths(LENLEN) && DistanceLengths() == Lengths(DISTLEN)
  {
  }

  /** Build the table of a complete code of n symbols. */
  method BuildTable(count: array<nat>, symbol: array<nat>, rep: seq<byte>, n: nat)
    requires count.Length == MAXBITS + 1 && count != symbol && symbol.Length == n && 0 < n <= 256 && FullCode(rep, n)
    modifies count, symbol
    ensures Complete(Table(count[..], symbol[..]), Lengths(rep))
  {
    hide Sorted, CountOf, Index, Lengths, Sum, Left;
    TableRoom(Lengths(rep), MAXBITS + 1);
    var left := Construct(count, symbol, rep);
    CompleteFits(Lengths(rep));
    assert Lengths(rep)[0] > 0;
    NotEmpty(Lengths(rep));
  }

  lemma {:induction false} NotEmpty(lengths: seq<Length>)
    requires exists i :: 0 <= i < |lengths| && lengths[i] > 0
    ensures CountOf(lengths, 0) < |lengths|
  {
    var n := |lengths| - 1;
    if lengths[n] > 0 {
      CountBelow(lengths[..n], 0);
    } else {
      var i :| 0 <= i < |lengths| && lengths[i] > 0;
      assert lengths[..n][i] > 0;
      NotEmpty(lengths[..n]);
    }
  }

  lemma {:induction false} CountBelow(lengths: seq<Length>, l: int)
    ensures CountOf(lengths, l) <= |lengths|
  {
    if lengths != [] { CountBelow(lengths[..|lengths| - 1], l); }
  }

  /** A table of all symbols has room for those that have codes. */
  lemma {:induction false} TableRoom(lengths: seq<Length>, m: nat)
    ensures Index(lengths, m) <= |lengths|
  {
    if lengths == [] {
      IndexNone(m);
    } else {
      TableRoom(lengths[..|lengths| - 1], m);
      IndexMore(lengths, m);
    }
  }

  lemma {:induction false} IndexNone(m: nat)
    ensures Index([], m) == 0
  {
    if m > 1 { IndexNone(m - 1); }
  }

  lemma {:induction false} IndexMore(lengths: seq<Length>, m: nat)
    requires lengths != []
    ensures Index(lengths, m) == Index(lengths[..|lengths| - 1], m) + if 0 < lengths[|lengths| - 1] < m then 1 else 0
  {
    if m > 1 { IndexMore(lengths, m - 1); }
  }

  lemma {:induction false} OneBit(s: seq<bool>)
    ensures ReadBits(1, s) == if s == [] then Dry else Parsed(if s[0] then 1 else 0, s[1..])
  {
    if s != [] {
      assert s[..1][1..] == [];
      assert LowFirst(s[..1]) == (if s[0] then 1 else 0) + 2 * LowFirst(s[..1][1..]);
    }
  }

  /** Some call of the output function is refused. */
  ghost predicate Refuses(refusals: seq<bool>) { true in refusals }

  /** Decoding half done: the buffer, the bits in it and those to be looked at, and the code so far. */
  datatype Walk = Walk(buf: nat, have: nat, left: nat, len: nat, code: nat, first: nat, index: nat)

  ghost predicate Walking(t: Table, lengths: seq<Length>, s: seq<bool>, cnt: nat, w: Walk, tail: seq<bool>) {
    && Sorted(t, lengths) && 1 <= w.len <= MAXBITS + 1 && w.left <= w.have <= 8 && w.buf < Pow2(w.have) && w.first <= w.code
    && (cnt - (w.len - 1)) % 8 == w.have % 8
    && w.left + w.len <= MAXBITS + 1 && (w.left < w.have ==> w.left + w.len == MAXBITS + 1)
    && w.index == Index(lengths, w.len)
    && LookFrom(t, w.len, w.code, w.first, w.index, LowToBits(w.buf, w.have) + tail) == Decode(t, s)
  }

  lemma {:induction false} FlatMore(f: seq<byte>, b: byte, g: seq<byte>, s: seq<bool>)
    requires f == [b] + g
    ensures s + Flat(f) == (s + BitsOf(b)) + Flat(g)
  {
    assert f[1..] == g;
    assert s + (BitsOf(b) + Flat(g)) == (s + BitsOf(b)) + Flat(g);
  }

  lemma {:induction false} TakeBits(v: nat, n: nat, k: nat, rest: seq<bool>)
    requires k <= n && v < Pow2(n)
    ensures ReadBits(k, LowToBits(v, n) + rest) == Parsed(Mask(v, k), LowToBits(Shr(v, k), n - k) + rest)
    ensures Shr(v, k) < Pow2(n - k)
  {
    SplitBits(v, n, k);
    var s := LowToBits(v, n);
    hide LowToBits, Mask, Shr, LowFirst, Pow2;
    assert (s + rest)[..k] == s[..k] && (s + rest)[k..] == s[k..] + rest;
  }

  lemma {:induction false} WalkStart(t: Table, lengths: seq<Length>, buf: nat, cnt: nat, tail: seq<bool>)
    requires Sorted(t, lengths) && cnt < 8 && buf < Pow2(cnt)
    ensures Walking(t, lengths, LowToBits(buf, cnt) + tail, cnt, Walk(buf, cnt, cnt, 1, 0, 0, 0), tail)
  {
  }

  lemma {:induction false} WalkBounds(t: Table, lengths: seq<Length>, s: seq<bool>, cnt: nat, w: Walk, tail: seq<bool>)
    requires Walking(t, lengths, s, cnt, w, tail)
    ensures w.len <= MAXBITS + 1
  {
  }

  lemma {:induction false} WalkBit(t: Table, lengths: seq<Length>, s: seq<bool>, cnt: nat, w: Walk, tail: seq<bool>)
    requires Walking(t, lengths, s, cnt, w, tail) && w.left > 0
    ensures w.len <= MAXBITS && w.first <= w.code && w.have > 0
    ensures var code := if w.buf % 2 == 1 then w.code else w.code + 1; var n := t.count[w.len];
            if code < w.first + n then
              && 0 <= code - w.first && w.index + (code - w.first) < |t.symbol|
              && Decode(t, s) == Symbol(t.symbol[w.index + (code - w.first)], LowToBits(w.buf / 2, w.have - 1) + tail)
              && w.buf / 2 < Pow2(w.have - 1) && (cnt - w.len) % 8 == w.have - 1
            else Walking(t, lengths, s, cnt,
                         Walk(w.buf / 2, w.have - 1, w.left - 1, w.len + 1, 2 * code, 2 * (w.first + n), w.index + n), tail)
  {
    hide LowToBits, Pow2, LookFrom, Decode;
    BufferBit(w.buf, w.have, tail);
    assert t.count[w.len] == CountOf(lengths, w.len);
    var code := if w.buf % 2 == 1 then w.code else w.code + 1;
    if code < w.first + t.count[w.len] { InTable(t, lengths, w.len, code - w.first); }
    OneBitLess(cnt - (w.len - 1), w.have);
    assert Index(lengths, w.len + 1) == w.index + t.count[w.len];
    var rest := LowToBits(w.buf / 2, w.have - 1) + tail;
    LookOne(t, w.len, w.code, w.first, w.index, w.buf % 2 == 1, rest);
  }

  lemma {:induction false} OneBitLess(c: int, have: nat)
    requires 0 < have <= 8 && c % 8 == have % 8
    ensures (c - 1) % 8 == have - 1 == (have - 1) % 8
  {
  }

  /** The lowest bit of the buffer, and the rest. */
  lemma {:induction false} BufferBit(buf: nat, have: nat, tail: seq<bool>)
    requires have > 0 && buf < Pow2(have)
    ensures LowToBits(buf, have) + tail == [buf % 2 == 1] + (LowToBits(buf / 2, have - 1) + tail) && buf / 2 < Pow2(have - 1)
  {
  }

  /** Every code of length l has a place in the table. */
  lemma {:induction false} InTable(t: Table, lengths: seq<Length>, l: nat, r: nat)
    requires Sorted(t, lengths) && 0 < l <= MAXBITS && r < CountOf(lengths, l)
    ensures Index(lengths, l) + r < |t.symbol|
  {
    var x := SymbolOfRank(lengths, l, r);
    assert SymbolAt(t, lengths, x);
  }

  lemma {:induction false} WalkOut(t: Table, lengths: seq<Length>, s: seq<bool>, cnt: nat, w: Walk, tail: seq<bool>)
    requires Walking(t, lengths, s, cnt, w, tail) && w.left == 0
    ensures w.len <= MAXBITS + 1
    ensures w.len == MAXBITS + 1 ==> Decode(t, s) == NoCode
    ensures w.len <= MAXBITS ==> w.have == 0 && (tail == [] ==> Decode(t, s) == Starved)
  {
  }

  lemma {:induction false} WalkByte(t: Table, lengths: seq<Length>, s: seq<bool>, cnt: nat, w: Walk, f: seq<byte>, b: byte, g: seq<byte>)
    requires Walking(t, lengths, s, cnt, w, Flat(f)) && w.left == 0 && w.len <= MAXBITS && f == [b] + g
    ensures var left := MAXBITS + 1 - w.len;
            Walking(t, lengths, s, cnt, w.(buf := b, have := 8, left := if left > 8 then 8 else left), Flat(g))
  {
    assert f[1..] == g && LowToBits(w.buf, 0) + Flat(f) == Flat(f);
    ByteBits(b);
  }

  /** What one token does, when it is read from s. */
  lemma {:induction false} InflateCases(t: Tables, lit: nat, dict: nat, out: seq<byte>, s: seq<bool>)
    requires Built(t) && dict <= 6
    ensures var k := ReadToken(t, lit, dict, s); var r := Inflate(t, lit, dict, out, s);
            && out <= r.0
            && (k.Dry? ==> r == (out, INPUT))
            && (k.Parsed? ==>
                  && |k.rest| < |s|
                  && (k.value.End? ==> r == (out, 0))
                  && (k.value.Literal? ==> r == Inflate(t, lit, dict, out + [k.value.b], k.rest) && out + [k.value.b] <= r.0)
                  && (k.value.Copy? ==>
                        && 0 < k.value.dist <= MAXWIN && 2 <= k.value.len
                        && (k.value.dist > |out| ==> r == (out, TOOFAR))
                        && (k.value.dist <= |out| ==>
                              && r == Inflate(t, lit, dict, Copied(out, k.value.dist, k.value.len), k.rest)
                              && Copied(out, k.value.dist, k.value.len) <= r.0)))
    decreases |s|
  {
    hide ReadToken, Built, Copied;
    var k := ReadToken(t, lit, dict, s);
    if k.Parsed? && k.value.Copy? { DistanceInWindow(t, lit, dict, s); }
    if k.Parsed? && k.value.Literal? {
      InflateCases(t, lit, dict, out + [k.value.b], k.rest);
    } else if k.Parsed? && k.value.Copy? && k.value.dist <= |out| {
      InflateCases(t, lit, dict, Copied(out, k.value.dist, k.value.len), k.rest);
    }
  }
}
