/** Converting well-formed text, and which text comes back unchanged. */
module UtfRoundTrip {
  import opened Bits
  import opened UtfText

  predicate Text(cs: seq<nat>) { forall i :: 0 <= i < |cs| ==> Scalar(cs[i]) }

  /** The characters in an encoding form. */
  function Encode(form: Form, cs: seq<nat>): seq<nat>
    requires Text(cs)
  {
    if cs == [] then [] else Put(form, cs[0]) + Encode(form, cs[1..])
  }

  /** The examples of the standards: U+0041 U+2262 U+0391 U+002E of RFC 3629 (section 7), and U+12345 of RFC 2781 (section 5). */
  lemma {:induction false} Examples()
    ensures Encode(UTF8, [0x41, 0x2262, 0x391, 0x2E]) == [0x41, 0xE2, 0x89, 0xA2, 0xCE, 0x91, 0x2E]
    ensures Encode(UTF16, [0x41, 0x2262, 0x391, 0x2E]) == [0x41, 0x2262, 0x391, 0x2E]
    ensures Encode(UTF16, [0x12345]) == [0xD808, 0xDF45] && Encode(UTF8, [0x12345]) == [0xF0, 0x92, 0x8D, 0x85]
  {
    var four, three, two, one: seq<nat> := [0x41, 0x2262, 0x391, 0x2E], [0x2262, 0x391, 0x2E], [0x391, 0x2E], [0x2E];
    assert four[1..] == three && three[1..] == two && two[1..] == one && one[1..] == [];
    var five: seq<nat> := [0x12345];
    assert five[1..] == [];
  }

  /** Writing a character and reading it back. */
  lemma {:induction false} GetPut(form: Form, pre: seq<nat>, c: nat, post: seq<nat>, strict: bool)
    requires Scalar(c)
    ensures Get(form, pre + Put(form, c) + post, |pre|, strict) == Char(c, |Put(form, c)|)
  {
    var p, src := Put(form, c), pre + Put(form, c) + post;
    assert forall k :: 0 <= k < |p| ==> src[|pre| + k] == p[k];
    match form
    case UTF8 => Get8Put8(src, |pre|, c);
    case UTF16 => Get16Put16(src, |pre|, c, strict);
    case UTF32 =>
  }

  lemma {:induction false} Get16Put16(src: seq<nat>, i: nat, c: nat, strict: bool)
    requires Scalar(c) && i + |Put16(c)| <= |src| && forall k :: 0 <= k < |Put16(c)| ==> src[i + k] == Put16(c)[k]
    ensures Get16(src, i, strict) == Char(c, |Put16(c)|)
  {
    assert src[i + 0] == Put16(c)[0];
    if c > MAX_BMP { assert src[i + 1] == Put16(c)[1]; }
  }

  lemma {:induction false} Get8Put8(src: seq<nat>, i: nat, c: nat)
    requires Scalar(c) && i + |Put8(c)| <= |src| && forall k :: 0 <= k < |Put8(c)| ==> src[i + k] == Put8(c)[k]
    ensures Get8(src, i) == Char(c, |Put8(c)|)
  {
    hide Put8, Gather, SecondOk;
    var n := Length8(c);
    assert src[i + 0] == Put8(c)[0];
    if n > 1 { assert src[i + 1] == Put8(c)[1]; }
    if n > 2 { assert src[i + 2] == Put8(c)[2]; }
    if n > 3 { assert src[i + 3] == Put8(c)[3]; }
    Put8Legal(c);
    if n == 1 { Back1(src, i, c); } else if n == 2 { Back2(src, i, c); } else if n == 3 { Back3(src, i, c); } else { Back4(src, i, c); }
  }

  lemma {:induction false} Put8Legal(c: nat)
    requires Scalar(c)
    ensures var p := Put8(c); Trailing(p[0]) == Length8(c) - 1 && IsLegal(p, 0, Length8(c))
  {
  }

  lemma {:induction false} Back1(src: seq<nat>, i: nat, c: nat)
    requires c < 0x80 && i < |src| && src[i] == Put8(c)[0]
    requires Trailing(src[i]) == 0 && IsLegal(src, i, 1)
    ensures Gather(src, i, 0) == c
  {
  }

  lemma {:induction false} Back2(src: seq<nat>, i: nat, c: nat)
    requires 0x80 <= c < 0x800 && i + 1 < |src| && src[i] == Put8(c)[0] && src[i + 1] == Put8(c)[1]
    requires Trailing(src[i]) == 1 && IsLegal(src, i, 2)
    ensures Gather(src, i, 1) == c
  {
  }

  lemma {:induction false} Back3(src: seq<nat>, i: nat, c: nat)
    requires 0x800 <= c < 0x10000 && i + 2 < |src| && src[i] == Put8(c)[0] && src[i + 1] == Put8(c)[1] && src[i + 2] == Put8(c)[2]
    requires Trailing(src[i]) == 2 && IsLegal(src, i, 3)
    ensures Gather(src, i, 2) == c
  {
  }

  lemma {:induction false} Back4(src: seq<nat>, i: nat, c: nat)
    requires 0x10000 <= c <= MAX_LEGAL && i + 3 < |src|
    requires src[i] == Put8(c)[0] && src[i + 1] == Put8(c)[1] && src[i + 2] == Put8(c)[2] && src[i + 3] == Put8(c)[3]
    requires Trailing(src[i]) == 3 && IsLegal(src, i, 4)
    ensures Gather(src, i, 3) == c
  {
  }

  lemma {:induction false} StepOn(from: Form, to: Form, strict: bool, pre: seq<nat>, c: nat, post: seq<nat>)
    requires Scalar(c)
    ensures Step(from, to, strict, pre + Put(from, c) + post, |pre|) == Emit(|Put(from, c)|, Put(to, c), false)
  {
    GetPut(from, pre, c, post, strict);
  }

  /** Well-formed text is converted from each form into each other, by a strict or a lenient conversion. */
  lemma {:induction false} WellFormedConverts(from: Form, to: Form, strict: bool, pre: seq<nat>, cs: seq<nat>)
    requires Text(cs)
    ensures Whole(from, to, strict, pre + Encode(from, cs), |pre|) == Total(Encode(to, cs), false, ConversionOK)
    decreases |cs|
  {
    hide Encode, Whole, Step, Put, Scalar;
    var src := pre + Encode(from, cs);
    EncodeSplit(from, cs);
    EncodeSplit(to, cs);
    if cs != [] {
      var p, post := Put(from, cs[0]), Encode(from, cs[1..]);
      StepOn(from, to, strict, pre, cs[0], post);
      assert src == pre + p + post;
      WholeStep(from, to, strict, src, |pre|);
      WellFormedConverts(from, to, strict, pre + p, cs[1..]);
    } else {
      WholeEnd(from, to, strict, src);
    }
  }

  lemma {:induction false} EncodeSplit(form: Form, cs: seq<nat>)
    requires Text(cs)
    ensures cs == [] ==> Encode(form, cs) == []
    ensures cs != [] ==> Scalar(cs[0]) && Text(cs[1..]) && Encode(form, cs) == Put(form, cs[0]) + Encode(form, cs[1..])
  {
  }

  lemma {:induction false} WholeStep(from: Form, to: Form, strict: bool, src: seq<nat>, i: nat)
    requires i < |src| && Step(from, to, strict, src, i).Emit?
    ensures var o, w := Step(from, to, strict, src, i), Whole(from, to, strict, src, i);
            var rest := Whole(from, to, strict, src, i + o.n);
            w == Total(o.out + rest.out, o.noted || rest.noted, rest.why)
  {
  }

  lemma {:induction false} WholeEnd(from: Form, to: Form, strict: bool, src: seq<nat>)
    ensures Whole(from, to, strict, src, |src|) == Total([], false, ConversionOK)
  {
  }

  /** There and back again. */
  lemma {:induction false} ThereAndBack(from: Form, to: Form, strict: bool, cs: seq<nat>)
    requires Text(cs)
    ensures var there := Whole(from, to, strict, Encode(from, cs), 0);
            Verdict(there) == ConversionOK && Whole(to, from, strict, there.out, 0) == Total(Encode(from, cs), false, ConversionOK)
  {
    WellFormedConverts(from, to, strict, [], cs);
    WellFormedConverts(to, from, strict, [], cs);
    assert [] + Encode(from, cs) == Encode(from, cs) && [] + Encode(to, cs) == Encode(to, cs);
  }

  // ------------------------------------------------ what is accepted is well-formed

  lemma {:induction false} TextMore(c: nat, cs: seq<nat>)
    requires Scalar(c) && Text(cs)
    ensures Text([c] + cs) && forall form :: Encode(form, [c] + cs) == Put(form, c) + Encode(form, cs)
    ensures Encode(UTF8, [c] + cs) == Put8(c) + Encode(UTF8, cs)
  {
    assert ([c] + cs)[1..] == cs;
  }

  lemma {:induction false} Units16(src: seq<u16>, i: nat)
    requires i < |src| && Get16(src, i, true).Char?
    ensures var g := Get16(src, i, true); Scalar(g.ch) && src[i..i + g.n] == Put16(g.ch)
  {
    var g := Get16(src, i, true);
    if g.n == 1 { assert src[i..i + 1] == [src[i]]; } else { assert src[i..i + 2] == [src[i], src[i + 1]]; }
  }

  /** What a strict conversion accepts as UTF-16 is well-formed, and comes back unchanged. */
  lemma {:induction false} Accepted16(src: seq<u16>, i: nat)
    requires i <= |src| && Whole(UTF16, UTF32, true, src, i).why == ConversionOK
    ensures var cs := Whole(UTF16, UTF32, true, src, i).out; Text(cs) && src[i..] == Encode(UTF16, cs)
    decreases |src| - i
  {
    hide Put16, Get16;
    if i < |src| {
      var g := Get16(src, i, true);
      Units16(src, i);
      Accepted16(src, i + g.n);
      TextMore(g.ch, Whole(UTF16, UTF32, true, src, i + g.n).out);
      assert src[i..] == src[i..i + g.n] + src[i + g.n..];
    }
  }

  /** What a strict conversion accepts as UTF-32 is well-formed. */
  lemma {:induction false} Accepted32(src: seq<u32>, i: nat)
    requires i <= |src| && Verdict(Whole(UTF32, UTF16, true, src, i)) == ConversionOK
    ensures Text(src[i..]) && Whole(UTF32, UTF16, true, src, i).out == Encode(UTF16, src[i..])
    decreases |src| - i
  {
    if i < |src| {
      Accepted32(src, i + 1);
      assert src[i..] == [src[i]] + src[i + 1..];
      TextMore(src[i], src[i + 1..]);
    }
  }

  /** A second byte below 80 after ED or F4, which the check of the second byte lets through. */
  predicate Hole(src: seq<nat>, i: nat)
    requires i < |src|
  {
    (src[i] == 0xED || src[i] == 0xF4) && i + 1 < |src| && src[i + 1] < 0x80
  }

  predicate NoHole(src: seq<nat>, i: nat) { forall k :: i <= k < |src| ==> !Hole(src, k) }

  lemma {:induction false} Bits2(a: byte, b: byte)
    requires 0xC2 <= a < 0xE0 && 0x80 <= b <= 0xBF
    ensures var ch := a * 0x40 + b - 0x3080; 0x80 <= ch < 0x800 && Put8(ch) == [a, b]
  {
  }

  lemma {:induction false} Bits3(a: byte, b: byte, c: byte)
    requires 0xE0 <= a < 0xF0 && SecondOk(a, b) && 0x80 <= c <= 0xBF
    ensures var ch := a * 0x1000 + b * 0x40 + c - 0xE2080;
            0x800 <= ch < 0x10000 && (Put8(ch) == [a, b, c] <==> !(a == 0xED && b < 0x80))
  {
    var ch := a * 0x1000 + b * 0x40 + c - 0xE2080;
    if a == 0xED && b < 0x80 { assert ch < 0xD000 && Put8(ch)[0] < 0xED; }
  }

  lemma {:induction false} Bits4(a: byte, b: byte, c: byte, d: byte)
    requires 0xF0 <= a <= 0xF4 && SecondOk(a, b) && 0x80 <= c <= 0xBF && 0x80 <= d <= 0xBF
    ensures var ch := a * 0x40000 + b * 0x1000 + c * 0x40 + d - 0x3C82080;
            0x10000 <= ch <= MAX_LEGAL && (Put8(ch) == [a, b, c, d] <==> !(a == 0xF4 && b < 0x80))
  {
    var e := (a - 0xF0) * 0x40 + b - 0x80;
    var ch := e * 0x1000 + (c - 0x80) * 0x40 + (d - 0x80);
    assert ch == a * 0x40000 + b * 0x1000 + c * 0x40 + d - 0x3C82080;
    TopBits(e, c - 0x80, d - 0x80);
    assert ch / 0x40000 == e / 0x40;
  }

  lemma {:induction false} TopBits(e: nat, c: nat, d: nat)
    requires c < 0x40 && d < 0x40
    ensures var ch := e * 0x1000 + c * 0x40 + d; ch / 0x1000 == e && ch / 0x40 % 0x40 == c && ch % 0x40 == d && ch / 0x40000 == e / 0x40
  {
    var ch := e * 0x1000 + c * 0x40 + d;
    assert ch / 0x40 == e * 0x40 + c;
  }

  /** A legal sequence is as long as the sequence of its character, and is that sequence if it has no hole. */
  lemma {:induction false} LegalIs(src: seq<byte>, i: nat)
    requires i < |src| && Get8(src, i).Char?
    ensures var g := Get8(src, i); Length8(g.ch) == g.n && (src[i..i + g.n] == Put8(g.ch) <==> !Hole(src, i))
    ensures forall k :: i < k < i + Get8(src, i).n ==> !Hole(src, k)
  {
    hide Put8;
    var g := Get8(src, i);
    if g.n == 1 {
      assert src[i..i + 1] == [src[i]];
      Bits1(src[i]);
    } else if g.n == 2 {
      assert src[i..i + 2] == [src[i], src[i + 1]];
      Bits2(src[i], src[i + 1]);
    } else if g.n == 3 {
      assert src[i..i + 3] == [src[i], src[i + 1], src[i + 2]];
      Bits3(src[i], src[i + 1], src[i + 2]);
    } else {
      assert src[i..i + 4] == [src[i], src[i + 1], src[i + 2], src[i + 3]];
      Bits4(src[i], src[i + 1], src[i + 2], src[i + 3]);
    }
  }

  lemma {:induction false} Bits1(a: byte)
    requires a < 0x80
    ensures Put8(a) == [a]
  {
  }

  /**
   What a strict conversion accepts as UTF-8 gives well-formed text, and comes
   back unchanged exactly if it has no hole.
  */
  lemma {:induction false} Accepted8(src: seq<byte>, i: nat)
    requires i <= |src| && Whole(UTF8, UTF32, true, src, i).why == ConversionOK
    ensures var cs := Whole(UTF8, UTF32, true, src, i).out;
            && Text(cs) && |Encode(UTF8, cs)| == |src| - i
            && (src[i..] == Encode(UTF8, cs) <==> NoHole(src, i))
    decreases |src| - i
  {
    hide Whole, Encode, Step, Put8, Get8, Hole;
    Unfold8(src, i);
    if i < |src| {
      var g := Get8(src, i);
      var rest := Whole(UTF8, UTF32, true, src, i + g.n).out;
      Accepted8(src, i + g.n);
      LegalIs(src, i);
      TextMore(g.ch, rest);
      assert src[i..] == src[i..i + g.n] + src[i + g.n..];
      SameHeads(src[i..i + g.n], src[i + g.n..], Put8(g.ch), Encode(UTF8, rest));
      NoHoleMore(src, i, g.n);
    }
  }

  lemma {:induction false} Unfold8(src: seq<byte>, i: nat)
    requires i <= |src| && Whole(UTF8, UTF32, true, src, i).why == ConversionOK
    ensures i < |src| ==>
              var g := Get8(src, i);
              && g.Char? && Scalar(g.ch) && Whole(UTF8, UTF32, true, src, i + g.n).why == ConversionOK
              && Whole(UTF8, UTF32, true, src, i).out == [g.ch] + Whole(UTF8, UTF32, true, src, i + g.n).out
    ensures i == |src| ==> Whole(UTF8, UTF32, true, src, i).out == [] && Encode(UTF8, []) == []
  {
  }

  lemma {:induction false} NoHoleMore(src: seq<nat>, i: nat, n: nat)
    requires i < |src| && n > 0 && i + n <= |src| && forall k :: i < k < i + n ==> !Hole(src, k)
    ensures NoHole(src, i) <==> !Hole(src, i) && NoHole(src, i + n)
  {
  }

  lemma {:induction false} SameHeads(a: seq<nat>, b: seq<nat>, a': seq<nat>, b': seq<nat>)
    requires |a| == |a'|
    ensures a + b == a' + b' <==> a == a' && b == b'
  {
    if a + b == a' + b' {
      assert a == (a + b)[..|a|] && b == (a + b)[|a|..] && a' == (a' + b')[..|a|] && b' == (a' + b')[|a|..];
    }
  }

  /** A hole: three bytes that are no UTF-8 are taken for a character, and come back as three others. */
  lemma {:induction false} HoleAccepted() returns (src: seq<byte>)
    ensures Whole(UTF8, UTF32, true, src, 0) == Total([0xC040], false, ConversionOK)
    ensures Text([0xC040]) && Encode(UTF8, [0xC040]) == [0xEC, 0x81, 0x80] && src == [0xED, 0x41, 0x80]
  {
    src := [0xED, 0x41, 0x80];
    assert Get8(src, 0) == Char(0xC040, 3);
    assert [0xC040][1..] == [];
  }
}
