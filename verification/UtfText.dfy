/**
 The Unicode encoding forms: reading a character from UTF-16 or UTF-8, writing
 one to UTF-8 or UTF-16, and what a conversion gives on the whole.
*/
module UtfText {
  import opened Bits
  import opened Wrappers

  type u16 = x: int | 0 <= x < 0x10000
  type u32 = x: int | 0 <= x < 0x1_0000_0000

  const HIGH_START := 0xD800
  const HIGH_END := 0xDBFF
  const LOW_START := 0xDC00
  const LOW_END := 0xDFFF
  const REPLACEMENT := 0xFFFD
  const MAX_BMP := 0xFFFF
  const MAX_LEGAL := 0x10FFFF

  datatype Result = ConversionOK | SourceExhausted | TargetExhausted | SourceIllegal

  /** A character and the units it took, or why there is none. */
  datatype Got = Char(ch: nat, n: nat) | Illegal | Short

  predicate Surrogate(ch: nat) { HIGH_START <= ch <= LOW_END }

  predicate Scalar(ch: nat) { ch <= MAX_LEGAL && !Surrogate(ch) }

  // ------------------------------------------------------------------- UTF-16

  function Get16(src: seq<nat>, i: nat, strict: bool): (g: Got)
    requires i < |src|
    ensures g.Char? ==> 1 <= g.n <= 2 && i + g.n <= |src|
  {
    var ch := src[i];
    if HIGH_START <= ch <= HIGH_END then
      if i + 1 == |src| then Short
      else if LOW_START <= src[i + 1] <= LOW_END then Char((ch - HIGH_START) * 0x400 + (src[i + 1] - LOW_START) + 0x10000, 2)
      else if strict then Illegal
      else Char(ch, 1)
    else if strict && LOW_START <= ch <= LOW_END then Illegal
    else Char(ch, 1)
  }

  function Put16(ch: nat): (r: seq<u16>)
    ensures 1 <= |r| <= 2
  {
    if ch <= MAX_BMP then [ch]
    else [(ch - 0x10000) / 0x400 % 0x400 + HIGH_START, (ch - 0x10000) % 0x400 + LOW_START]
  }

  // -------------------------------------------------------------------- UTF-8

  /** How many bytes should follow, from the first byte; 4 and 5 are never legal. */
  function Trailing(b: nat): nat {
    if b < 0xC0 then 0 else if b < 0xE0 then 1 else if b < 0xF0 then 2 else if b < 0xF8 then 3 else if b < 0xFC then 4 else 5
  }

  /** The one bits a byte begins with. */
  function LeadingOnes(b: nat, n: nat): nat { if n == 0 || b < 0x80 then 0 else 1 + LeadingOnes(2 * b % 0x100, n - 1) }

  /** A byte that begins with two to six ones says how long its sequence is; after one of seven or eight six are taken. */
  lemma {:induction false} TrailingIs(b: nat)
    requires b < 0x100
    ensures var n := LeadingOnes(b, 8); Trailing(b) == if n < 2 then 0 else if n <= 6 then n - 1 else 5
  {
    hide LeadingOnes;
    OnesOf(b);
  }

  lemma {:induction false} OnesMore(b: nat, n: nat)
    requires 0x80 <= b < 0x100 && n > 0
    ensures 2 * b % 0x100 == 2 * b - 0x100 && LeadingOnes(b, n) == 1 + LeadingOnes(2 * b - 0x100, n - 1)
  {
  }

  lemma {:induction false} OnesOf(b: nat)
    requires b < 0x100
    ensures LeadingOnes(b, 8) == if b < 0x80 then 0 else if b < 0xC0 then 1 else if b < 0xE0 then 2 else if b < 0xF0 then 3
                                 else if b < 0xF8 then 4 else if b < 0xFC then 5 else if b < 0xFE then 6 else if b < 0xFF then 7 else 8
  {
    hide LeadingOnes;
    NoOnes(b, 8);
    if b >= 0x80 { OnesMore(b, 8); NoOnes(2 * b - 0x100, 7); }
    if b >= 0xC0 { OnesMore(2 * b - 0x100, 7); NoOnes(4 * b - 0x300, 6); }
    if b >= 0xE0 { OnesMore(4 * b - 0x300, 6); NoOnes(8 * b - 0x700, 5); }
    if b >= 0xF0 { OnesMore(8 * b - 0x700, 5); NoOnes(16 * b - 0xF00, 4); }
    if b >= 0xF8 { OnesMore(16 * b - 0xF00, 4); NoOnes(32 * b - 0x1F00, 3); }
    if b >= 0xFC { OnesMore(32 * b - 0x1F00, 3); NoOnes(64 * b - 0x3F00, 2); }
    if b >= 0xFE { OnesMore(64 * b - 0x3F00, 2); NoOnes(128 * b - 0x7F00, 1); }
    if b >= 0xFF { OnesMore(128 * b - 0x7F00, 1); NoOnes(256 * b - 0xFF00, 0); }
  }

  lemma {:induction false} NoOnes(b: nat, n: nat)
    ensures b < 0x80 || n == 0 ==> LeadingOnes(b, n) == 0
  {
  }

  /** Is the sequence of n bytes at i legal? */
  predicate IsLegal(src: seq<nat>, i: nat, n: nat)
    requires i + n <= |src|
  {
    && 1 <= n <= 4
    && (n >= 4 ==> 0x80 <= src[i + 3] <= 0xBF)
    && (n >= 3 ==> 0x80 <= src[i + 2] <= 0xBF)
    && (n >= 2 ==> SecondOk(src[i], src[i + 1]))
    && !(0x80 <= src[i] < 0xC2) && src[i] <= 0xF4
  }

  /** The second byte, given the first: after ED and F4 there is no lower bound. */
  predicate SecondOk(first: nat, a: nat) {
    a <= 0xBF &&
    if first == 0xE0 then a >= 0xA0
    else if first == 0xED then a <= 0x9F
    else if first == 0xF0 then a >= 0x90
    else if first == 0xF4 then a <= 0x8F
    else a >= 0x80
  }

  function Get8(src: seq<nat>, i: nat): (g: Got)
    requires i < |src|
    ensures g.Char? ==> 1 <= g.n <= 4 && i + g.n <= |src| && g.ch <= MAX_LEGAL
  {
    var extra := Trailing(src[i]);
    if i + extra >= |src| then Short
    else if !IsLegal(src, i, extra + 1) then Illegal
    else Char(Gather(src, i, extra), extra + 1)
  }

  /** The bits of a legal sequence. */
  function Gather(src: seq<nat>, i: nat, extra: nat): (ch: nat)
    requires i + extra < |src| && IsLegal(src, i, extra + 1) && extra == Trailing(src[i])
    ensures ch <= MAX_LEGAL
  {
    if extra == 0 then src[i]
    else if extra == 1 then src[i] * 0x40 + src[i + 1] - 0x3080
    else if extra == 2 then src[i] * 0x1000 + src[i + 1] * 0x40 + src[i + 2] - 0xE2080
    else src[i] * 0x40000 + src[i + 1] * 0x1000 + src[i + 2] * 0x40 + src[i + 3] - 0x3C82080
  }

  /** No surrogate is ever read from UTF-8: the first byte ED is followed by one of at most 9F. */
  lemma {:induction false} NoSurrogate8(src: seq<nat>, i: nat)
    requires i < |src|
    ensures Get8(src, i).Char? ==> !Surrogate(Get8(src, i).ch)
  {
  }

  function Length8(ch: nat): (n: nat)
    ensures 1 <= n <= 4
  {
    if ch < 0x80 then 1 else if ch < 0x800 then 2 else if ch < 0x10000 then 3 else 4
  }

  /** Section 3 of RFC 3629. */
  function Put8(ch: nat): (r: seq<byte>)
    requires ch <= MAX_LEGAL
    ensures |r| == Length8(ch)
  {
    if ch < 0x80 then [ch]
    else if ch < 0x800 then [0xC0 + ch / 0x40, 0x80 + ch % 0x40]
    else if ch < 0x10000 then [0xE0 + ch / 0x1000, 0x80 + ch / 0x40 % 0x40, 0x80 + ch % 0x40]
    else [0xF0 + ch / 0x40000, 0x80 + ch / 0x1000 % 0x40, 0x80 + ch / 0x40 % 0x40, 0x80 + ch % 0x40]
  }

  // -------------------------------------------------------------- conversions

  datatype Form = UTF8 | UTF16 | UTF32

  /** One step: units taken and written, and whether the code notes the input as illegal; or the end. */
  datatype Outcome = Emit(n: nat, out: seq<nat>, noted: bool) | Stop(why: Result)

  function Get(from: Form, src: seq<nat>, i: nat, strict: bool): (g: Got)
    requires i < |src|
    ensures g.Char? ==> 1 <= g.n && i + g.n <= |src|
  {
    match from
    case UTF8 => Get8(src, i)
    case UTF16 => Get16(src, i, strict)
    case UTF32 => Char(src[i], 1)
  }

  function Put(to: Form, ch: nat): (r: seq<nat>)
    requires ch <= MAX_LEGAL
    ensures 1 <= |r| <= 4
  {
    match to
    case UTF8 => Put8(ch)
    case UTF16 => Put16(ch)
    case UTF32 => [ch]
  }

  /** The next step of a conversion between two forms. */
  function Step(from: Form, to: Form, strict: bool, src: seq<nat>, i: nat): (o: Outcome)
    requires i < |src|
    ensures o.Emit? ==> o.n >= 1 && i + o.n <= |src| && |o.out| <= 4
  {
    match Get(from, src, i, strict)
    case Short => Stop(SourceExhausted)
    case Illegal => Stop(SourceIllegal)
    case Char(ch, n) =>
      if from != UTF16 && Surrogate(ch) && (strict || to != UTF8) then
        if strict then Stop(SourceIllegal) else Emit(n, [REPLACEMENT], false)
      else if ch > MAX_LEGAL then
        if to == UTF8 then Emit(n, Put(to, REPLACEMENT), true)
        else if strict then Emit(n, [], true) else Emit(n, [REPLACEMENT], false)
      else Emit(n, Put(to, ch), false)
  }

  /** All that is written, whether the input is noted as illegal, and why the conversion ends. */
  datatype Total = Total(out: seq<nat>, noted: bool, why: Result)

  /** A number that is no character is replaced by U+FFFD, or stops a strict conversion, or is passed over by one. */
  lemma {:induction false} Substituted(to: Form, strict: bool, src: seq<nat>, i: nat)
    requires i < |src|
    ensures var o := Step(UTF32, to, strict, src, i);
            && (0xD800 <= src[i] <= 0xDFFF ==>
                  if strict then o == Stop(SourceIllegal)
                  else if to == UTF8 then o == Emit(1, [0xED, (src[i] - 0xD000) / 0x40 + 0x80, src[i] % 0x40 + 0x80], false)
                  else o == Emit(1, [0xFFFD], false))
            && (src[i] > 0x10FFFF ==>
                  if to == UTF8 then o == Emit(1, [0xEF, 0xBF, 0xBD], true)
                  else if strict then o == Emit(1, [], true) else o == Emit(1, [0xFFFD], false))
  {
  }


  function Whole(from: Form, to: Form, strict: bool, src: seq<nat>, i: nat): (w: Total)
    requires i <= |src|
    decreases |src| - i
  {
    if i == |src| then Total([], false, ConversionOK)
    else
      match Step(from, to, strict, src, i)
      case Stop(why) => Total([], false, why)
      case Emit(n, out, noted) =>
        var rest := Whole(from, to, strict, src, i + n);
        Total(out + rest.out, noted || rest.noted, rest.why)
  }

  /** What a call with a large enough target answers. */
  function Verdict(w: Total): Result { if w.why == ConversionOK && w.noted then SourceIllegal else w.why }

  // ------------------------------------------------------------------- calls

  /** What the steps from start to i write, and whether they note anything; None if no steps lead from start to i. */
  function Taken(from: Form, to: Form, strict: bool, src: seq<nat>, start: nat, i: nat): Option<(seq<nat>, bool)>
    requires start <= |src|
    decreases |src| - start
  {
    if start == i then Some(([], false))
    else if start > i || start == |src| then None
    else
      match Step(from, to, strict, src, start)
      case Stop(_) => None
      case Emit(n, out, noted) =>
        match Taken(from, to, strict, src, start + n, i)
        case None => None
        case Some((rest, m)) => Some((out + rest, noted || m))
  }

  /** From start to i the conversion has written out, and noted is whether it has noted anything. */
  ghost predicate Partial(from: Form, to: Form, strict: bool, src: seq<nat>, start: nat, i: nat, out: seq<nat>, noted: bool) {
    start <= i <= |src| && Taken(from, to, strict, src, start, i) == Some((out, noted))
  }

  /** The next step cannot be taken with this much room in the target. */
  ghost predicate NoRoom(from: Form, to: Form, strict: bool, src: seq<nat>, i: nat, room: nat) {
    i < |src| && (room == 0 || (Step(from, to, strict, src, i).Emit? && |Step(from, to, strict, src, i).out| > room))
  }

  /** Why a call that has come to i, noting something or not, may end there. */
  ghost predicate Ends(from: Form, to: Form, strict: bool, src: seq<nat>, i: nat, noted: bool, room: nat, result: Result) {
    if result == TargetExhausted then NoRoom(from, to, strict, src, i, room)
    else if i == |src| then result == (if noted then SourceIllegal else ConversionOK)
    else i < |src| && Step(from, to, strict, src, i) == Stop(result) && result != ConversionOK
  }

  /** What a call does that starts at start, stops at i with some room left and has written out. */
  ghost predicate Converted(from: Form, to: Form, strict: bool, src: seq<nat>, start: nat, i: nat, out: seq<nat>, room: nat, result: Result) {
    exists noted :: Partial(from, to, strict, src, start, i, out, noted) && Ends(from, to, strict, src, i, noted, room, result)
  }

  lemma {:induction false} PartialStart(from: Form, to: Form, strict: bool, src: seq<nat>, start: nat)
    requires start <= |src|
    ensures Partial(from, to, strict, src, start, start, [], false)
  {
  }

  lemma {:induction false} PartialStep(from: Form, to: Form, strict: bool, src: seq<nat>, start: nat, i: nat, out: seq<nat>, noted: bool)
    requires Partial(from, to, strict, src, start, i, out, noted) && i < |src| && Step(from, to, strict, src, i).Emit?
    ensures var o := Step(from, to, strict, src, i); Partial(from, to, strict, src, start, i + o.n, out + o.out, noted || o.noted)
  {
    var o := Step(from, to, strict, src, i);
    TakenOne(from, to, strict, src, i);
    TakenTwice(from, to, strict, src, start, i, i + o.n);
  }

  lemma {:induction false} TakenOne(from: Form, to: Form, strict: bool, src: seq<nat>, i: nat)
    requires i < |src| && Step(from, to, strict, src, i).Emit?
    ensures var o := Step(from, to, strict, src, i); Taken(from, to, strict, src, i, i + o.n) == Some((o.out, o.noted))
  {
    hide Step;
    var o := Step(from, to, strict, src, i);
    assert o.out + [] == o.out;
  }

  /** Steps from start to i and on to i'. */
  lemma {:induction false} TakenTwice(from: Form, to: Form, strict: bool, src: seq<nat>, start: nat, i: nat, i': nat)
    requires start <= i <= i' <= |src| && Taken(from, to, strict, src, start, i).Some? && Taken(from, to, strict, src, i, i').Some?
    ensures var (a, m), (b, n) := Taken(from, to, strict, src, start, i).value, Taken(from, to, strict, src, i, i').value;
            Taken(from, to, strict, src, start, i') == Some((a + b, m || n))
    decreases |src| - start
  {
    hide Step;
    if start < i {
      var o := Step(from, to, strict, src, start);
      TakenTwice(from, to, strict, src, start + o.n, i, i');
      Associate(o.out, Taken(from, to, strict, src, start + o.n, i).value.0, Taken(from, to, strict, src, i, i').value.0);
    } else {
      assert [] + Taken(from, to, strict, src, i, i').value.0 == Taken(from, to, strict, src, i, i').value.0;
    }
  }

  /** The whole conversion is what has been taken and what is to come. */
  lemma {:induction false} WholeFrom(from: Form, to: Form, strict: bool, src: seq<nat>, start: nat, i: nat)
    requires start <= i <= |src| && Taken(from, to, strict, src, start, i).Some?
    ensures var (out, noted), rest := Taken(from, to, strict, src, start, i).value, Whole(from, to, strict, src, i);
            Whole(from, to, strict, src, start) == Total(out + rest.out, noted || rest.noted, rest.why)
    decreases |src| - start
  {
    hide Step;
    var rest := Whole(from, to, strict, src, i);
    if start < i {
      var o := Step(from, to, strict, src, start);
      WholeFrom(from, to, strict, src, start + o.n, i);
      Associate(o.out, Taken(from, to, strict, src, start + o.n, i).value.0, rest.out);
    } else {
      assert [] + rest.out == rest.out;
    }
  }

  /** A call that does not run out of room writes the whole text and gives the verdict on it. */
  lemma {:induction false} ConvertedWhole(from: Form, to: Form, strict: bool, src: seq<nat>, start: nat, i: nat, out: seq<nat>, room: nat, result: Result)
    requires Converted(from, to, strict, src, start, i, out, room, result) && result != TargetExhausted && start <= |src|
    ensures var w := Whole(from, to, strict, src, start); out == w.out && result == Verdict(w)
  {
    hide Step, Taken;
    var noted :| Partial(from, to, strict, src, start, i, out, noted) && Ends(from, to, strict, src, i, noted, room, result);
    WholeFrom(from, to, strict, src, start, i);
    assert out + [] == out;
  }

  /** A call that runs out of room could not have written the whole text, or had no room for anything. */
  lemma {:induction false} RanOut(from: Form, to: Form, strict: bool, src: seq<nat>, start: nat, i: nat, out: seq<nat>, room: nat)
    requires Converted(from, to, strict, src, start, i, out, room, TargetExhausted) && start <= |src|
    ensures var w := Whole(from, to, strict, src, start); i < |src| && |w.out| >= |out| && (room > 0 ==> |w.out| > |out| + room)
  {
    hide Step, Taken;
    var noted :| Partial(from, to, strict, src, start, i, out, noted) && Ends(from, to, strict, src, i, noted, room, TargetExhausted);
    WholeFrom(from, to, strict, src, start, i);
  }

  /** The units of the source have the width of its form. */
  predicate Units(from: Form, src: seq<nat>) {
    forall i :: 0 <= i < |src| ==> src[i] < match from case UTF8 => 0x100 case UTF16 => 0x10000 case UTF32 => 0x1_0000_0000
  }

  /** The input holds a number that is no character, where that is noted and passed over. */
  predicate TooLarge(from: Form, to: Form, strict: bool, src: seq<nat>, start: nat, i: nat) {
    from == UTF32 && (to == UTF8 || strict) && exists j :: start <= j < i && j < |src| && src[j] > MAX_LEGAL
  }

  lemma {:induction false} NotedOne(from: Form, to: Form, strict: bool, src: seq<nat>, i: nat)
    requires i < |src| && Units(from, src) && Step(from, to, strict, src, i).Emit?
    ensures var o := Step(from, to, strict, src, i);
            && (o.noted <==> from == UTF32 && (to == UTF8 || strict) && src[i] > MAX_LEGAL)
            && (from == UTF32 ==> o.n == 1)
  {
  }

  /** Something is noted exactly if there is such a number. */
  lemma {:induction false} NotedIs(from: Form, to: Form, strict: bool, src: seq<nat>, start: nat, i: nat)
    requires start <= i <= |src| && Units(from, src) && Taken(from, to, strict, src, start, i).Some?
    ensures Taken(from, to, strict, src, start, i).value.1 <==> TooLarge(from, to, strict, src, start, i)
    decreases |src| - start
  {
    hide Step;
    if start < i {
      NotedOne(from, to, strict, src, start);
      NotedIs(from, to, strict, src, start + Step(from, to, strict, src, start).n, i);
    }
  }

  /** Going on after the target was exhausted, until it is exhausted again. */
  lemma {:induction false} ResumedAgain(from: Form, to: Form, strict: bool, src: seq<nat>, start: nat, i: nat, out: seq<nat>, room: nat,
                                        i': nat, out': seq<nat>, room': nat)
    requires Converted(from, to, strict, src, start, i, out, room, TargetExhausted)
    requires Converted(from, to, strict, src, i, i', out', room', TargetExhausted)
    ensures Converted(from, to, strict, src, start, i', out + out', room', TargetExhausted)
  {
    hide Step, Taken;
    var noted :| Partial(from, to, strict, src, start, i, out, noted) && Ends(from, to, strict, src, i, noted, room, TargetExhausted);
    var noted' :| Partial(from, to, strict, src, i, i', out', noted') && Ends(from, to, strict, src, i', noted', room', TargetExhausted);
    TakenTwice(from, to, strict, src, start, i, i');
    assert Partial(from, to, strict, src, start, i', out + out', noted || noted');
  }

  /**
   Going on after the target was exhausted, to the end: all is written as by
   one call. The answer is that of one call exactly if it is not OK, or there
   was nothing to note before: what the first call noted is not remembered.
  */
  lemma {:induction false} Resumed(from: Form, to: Form, strict: bool, src: seq<nat>, start: nat, i: nat, out: seq<nat>, room: nat,
                                   i': nat, out': seq<nat>, room': nat, result: Result)
    requires start <= |src| && Units(from, src) && result != TargetExhausted
    requires Converted(from, to, strict, src, start, i, out, room, TargetExhausted)
    requires Converted(from, to, strict, src, i, i', out', room', result)
    ensures out + out' == Whole(from, to, strict, src, start).out
    ensures Converted(from, to, strict, src, start, i', out + out', room', result) <==>
              result != ConversionOK || !TooLarge(from, to, strict, src, start, i)
  {
    hide Step, Taken, TooLarge;
    var noted :| Partial(from, to, strict, src, start, i, out, noted) && Ends(from, to, strict, src, i, noted, room, TargetExhausted);
    var noted' :| Partial(from, to, strict, src, i, i', out', noted') && Ends(from, to, strict, src, i', noted', room', result);
    TakenTwice(from, to, strict, src, start, i, i');
    WholeFrom(from, to, strict, src, start, i);
    ConvertedWhole(from, to, strict, src, i, i', out', room', result);
    NotedIs(from, to, strict, src, start, i);
    assert Partial(from, to, strict, src, start, i', out + out', noted || noted');
  }

  /** So it happens: one call answers that the source is illegal, two calls in the end that all is well. */
  lemma {:induction false} NoteForgotten() returns (src: seq<nat>)
    ensures Converted(UTF32, UTF8, true, src, 0, 1, Put8(REPLACEMENT), 0, TargetExhausted)
    ensures Converted(UTF32, UTF8, true, src, 1, 2, Put8(0x41), 0, ConversionOK)
    ensures !Converted(UTF32, UTF8, true, src, 0, 2, Put8(REPLACEMENT) + Put8(0x41), 0, ConversionOK)
    ensures Verdict(Whole(UTF32, UTF8, true, src, 0)) == SourceIllegal
  {
    src := [0x110000, 0x41];
    assert Step(UTF32, UTF8, true, src, 0) == Emit(1, Put8(REPLACEMENT), true);
    assert Step(UTF32, UTF8, true, src, 1) == Emit(1, Put8(0x41), false);
    hide Step, Put8, Whole;
    TakenOne(UTF32, UTF8, true, src, 0);
    TakenOne(UTF32, UTF8, true, src, 1);
    assert Partial(UTF32, UTF8, true, src, 0, 1, Put8(REPLACEMENT), true);
    assert Partial(UTF32, UTF8, true, src, 1, 2, Put8(0x41), false);
    assert Ends(UTF32, UTF8, true, src, 1, true, 0, TargetExhausted) && Ends(UTF32, UTF8, true, src, 2, false, 0, ConversionOK);
    assert src[0] > MAX_LEGAL;
    Resumed(UTF32, UTF8, true, src, 0, 1, Put8(REPLACEMENT), 0, 2, Put8(0x41), 0, ConversionOK);
    WholeFrom(UTF32, UTF8, true, src, 0, 1);
    ConvertedWhole(UTF32, UTF8, true, src, 1, 2, Put8(0x41), 0, ConversionOK);
  }
}
