/** The six converters: from a source that is not changed into a part of a target array. */
module UtfConvert {
  import opened Bits
  import opened UtfText

  const MARKS: seq<byte> := [0x00, 0x00, 0xC0, 0xE0, 0xF0]

  /** The target between the calls of a conversion: what was in it, and what has been written from tstart on. */
  ghost predicate State(from: Form, to: Form, strict: bool, src: seq<nat>, start: nat, i: nat,
                        was: seq<nat>, target: seq<nat>, tstart: nat, t: nat, noted: bool)
  {
    && tstart <= t <= |target| == |was| && target[..tstart] == was[..tstart] && target[t..] == was[t..]
    && Partial(from, to, strict, src, start, i, target[tstart..t], noted)
  }

  lemma {:induction false} StateStart(from: Form, to: Form, strict: bool, src: seq<nat>, start: nat, target: seq<nat>, tstart: nat)
    requires start <= |src| && tstart <= |target|
    ensures State(from, to, strict, src, start, start, target, target, tstart, tstart, false)
  {
    PartialStart(from, to, strict, src, start);
    assert target[tstart..tstart] == [];
  }

  /** The units of out are written over the target at t. */
  ghost predicate Over(target: seq<nat>, target': seq<nat>, t: nat, out: seq<nat>) {
    t + |out| <= |target| && target' == target[..t] + out + target[t + |out|..]
  }

  lemma {:induction false} StateStep(from: Form, to: Form, strict: bool, src: seq<nat>, start: nat, i: nat,
                                     was: seq<nat>, target: seq<nat>, target': seq<nat>, tstart: nat, t: nat, noted: bool)
    requires State(from, to, strict, src, start, i, was, target, tstart, t, noted)
    requires i < |src| && Step(from, to, strict, src, i).Emit? && Over(target, target', t, Step(from, to, strict, src, i).out)
    ensures var o := Step(from, to, strict, src, i);
            State(from, to, strict, src, start, i + o.n, was, target', tstart, t + |o.out|, noted || o.noted)
  {
    var o := Step(from, to, strict, src, i);
    PartialStep(from, to, strict, src, start, i, target[tstart..t], noted);
    hide Partial, Step;
    assert target'[tstart..t + |o.out|] == target[tstart..t] + o.out;
    assert target'[t + |o.out|..] == target[t..][|o.out|..] == was[t..][|o.out|..];
  }

  lemma {:induction false} StateEnd(from: Form, to: Form, strict: bool, src: seq<nat>, start: nat, i: nat,
                                    was: seq<nat>, target: seq<nat>, tstart: nat, t: nat, noted: bool, room: nat, result: Result)
    requires State(from, to, strict, src, start, i, was, target, tstart, t, noted)
    requires Ends(from, to, strict, src, i, noted, room, result)
    ensures tstart <= t <= |target| == |was| && target[..tstart] == was[..tstart] && target[t..] == was[t..]
    ensures Converted(from, to, strict, src, start, i, target[tstart..t], room, result)
  {
  }

  /** Reading one character, or a surrogate pair. */
  method ReadUtf16(source: seq<u16>, i: nat, strict: bool) returns (got: Got)
    requires i < |source|
    ensures got == Get16(source, i, strict)
  {
    var ch := source[i];
    if HIGH_START <= ch <= HIGH_END {
      if i + 1 < |source| {
        var ch2 := source[i + 1];
        if LOW_START <= ch2 <= LOW_END {
          return Char((ch - HIGH_START) * 0x400 + (ch2 - LOW_START) + 0x10000, 2);
        } else if strict {
          return Illegal;
        }
      } else {
        return Short;
      }
    } else if strict {
      if LOW_START <= ch <= LOW_END { return Illegal; }
    }
    return Char(ch, 1);
  }

  method IsLegalUtf8(source: seq<byte>, i: nat, length: nat) returns (legal: bool)
    requires i + length <= |source|
    ensures legal == IsLegal(source, i, length)
  {
    if length < 1 || length > 4 { return false; }
    var a;
    if length >= 4 {
      a := source[i + 3];
      if a < 0x80 || a > 0xBF { return false; }
    }
    if length >= 3 {
      a := source[i + 2];
      if a < 0x80 || a > 0xBF { return false; }
    }
    if length >= 2 {
      a := source[i + 1];
      if a > 0xBF { return false; }
      match source[i]
      case 0xE0 => if a < 0xA0 { return false; }
      case 0xED => if a > 0x9F { return false; }
      case 0xF0 => if a < 0x90 { return false; }
      case 0xF4 => if a > 0x8F { return false; }
      case _ => if a < 0x80 { return false; }
    }
    if 0x80 <= source[i] < 0xC2 { return false; }
    return source[i] <= 0xF4;
  }

  const OFFSETS: seq<nat> := [0, 0x3080, 0xE2080, 0x3C82080]

  /** Reading the bytes of one character. */
  method ReadUtf8(source: seq<byte>, i: nat) returns (got: Got)
    requires i < |source|
    ensures got == Get8(source, i)
  {
    var extra := Trailing(source[i]);
    if i + extra >= |source| { return Short; }
    var legal := IsLegalUtf8(source, i, extra + 1);
    if !legal { return Illegal; }
    var ch: nat, p := 0, i;
    if extra >= 3 { ch := (ch + source[p]) * 64; p := p + 1; }
    if extra >= 2 { ch := (ch + source[p]) * 64; p := p + 1; }
    if extra >= 1 { ch := (ch + source[p]) * 64; p := p + 1; }
    ch := ch + source[p];
    return Char(ch - OFFSETS[extra], extra + 1);
  }

  /** The bytes of a character, last byte first. */
  method WriteUtf8(target: array<byte>, t: nat, ch: nat)
    requires ch <= MAX_LEGAL && t + Length8(ch) <= target.Length
    modifies target
    ensures Over(old(target[..]), target[..], t, Put8(ch))
  {
    hide Put8;
    var bytesToWrite := Length8(ch);
    var c := ch;
    if bytesToWrite >= 4 { target[t + 3] := 0x80 + c % 64; c := c / 64; }
    if bytesToWrite >= 3 { target[t + 2] := 0x80 + c % 64; c := c / 64; }
    if bytesToWrite >= 2 { target[t + 1] := 0x80 + c % 64; c := c / 64; }
    target[t] := c + MARKS[bytesToWrite];
    BytesOf(ch);
  }

  /** The bytes of a character, in terms of what is left of it after each shift. */
  lemma {:induction false} BytesOf(ch: nat)
    requires ch <= MAX_LEGAL
    ensures var p, n := Put8(ch), Length8(ch);
            && (n == 1 ==> p == [ch]) && (n == 2 ==> p == [ch / 64 + 0xC0, 0x80 + ch % 64])
            && (n == 3 ==> p == [ch / 64 / 64 + 0xE0, 0x80 + ch / 64 % 64, 0x80 + ch % 64])
            && (n == 4 ==> p == [ch / 64 / 64 / 64 + 0xF0, 0x80 + ch / 64 / 64 % 64, 0x80 + ch / 64 % 64, 0x80 + ch % 64])
    ensures ch / 64 < 0x8000 && (Length8(ch) == 2 ==> ch / 64 < 0x20) && (Length8(ch) == 3 ==> ch / 64 / 64 < 0x10)
    ensures ch / 64 / 64 / 64 < 0x8
  {
    assert ch / 0x40 / 0x40 == ch / 0x1000 && ch / 0x40 / 0x40 / 0x40 == ch / 0x40000;
  }

  method WriteUtf16(target: array<u16>, t: nat, ch: nat)
    requires 0x10000 <= ch <= MAX_LEGAL && t + 2 <= target.Length
    modifies target
    ensures Over(old(target[..]), target[..], t, Put16(ch))
  {
    target[t] := (ch - 0x10000) / 0x400 + HIGH_START;
    target[t + 1] := (ch - 0x10000) % 0x400 + LOW_START;
  }

  method WriteUnit16(target: array<u16>, t: nat, ch: u16)
    requires t < target.Length
    modifies target
    ensures Over(old(target[..]), target[..], t, [ch])
  {
    target[t] := ch;
  }

  method WriteUnit32(target: array<u32>, t: nat, ch: u32)
    requires t < target.Length
    modifies target
    ensures Over(old(target[..]), target[..], t, [ch])
  {
    target[t] := ch;
  }

  lemma {:induction false} NothingOver(target: seq<nat>, t: nat)
    requires t <= |target|
    ensures Over(target, target, t, [])
  {
    assert target == target[..t] + [] + target[t..];
  }

  method ConvertUTF32toUTF16(source: seq<u32>, start: nat, target: array<u16>, tstart: nat, tend: nat, strict: bool)
    returns (result: Result, i: nat, t: nat)
    requires start <= |source| && tstart <= tend <= target.Length
    modifies target
    ensures tstart <= t <= tend && target[..tstart] == old(target[..tstart]) && target[t..] == old(target[t..])
    ensures Converted(UTF32, UTF16, strict, source, start, i, target[tstart..t], tend - t, result)
  {
    hide State, Over, Converted, Partial, Put8;
    result, i, t := ConversionOK, start, tstart;
    ghost var was, noted := target[..], false;
    StateStart(UTF32, UTF16, strict, source, start, was, tstart);
    while i < |source|
      invariant i <= |source| && tstart <= t <= tend && result == (if noted then SourceIllegal else ConversionOK)
      invariant State(UTF32, UTF16, strict, source, start, i, was, target[..], tstart, t, noted)
    {
      ghost var before, at := target[..], t;
      if t >= tend {
        result := TargetExhausted;
        break;
      }
      var ch := source[i];
      if ch <= MAX_BMP {
        if HIGH_START <= ch <= LOW_END {
          if strict {
            result := SourceIllegal;
            break;
          }
          WriteUnit16(target, t, REPLACEMENT);
        } else {
          WriteUnit16(target, t, ch);
        }
        t := t + 1;
      } else if ch > MAX_LEGAL {
        if strict {
          result := SourceIllegal;
          NothingOver(target[..], t);
        } else {
          WriteUnit16(target, t, REPLACEMENT);
          t := t + 1;
        }
      } else {
        if t + 1 >= tend {
          result := TargetExhausted;
          break;
        }
        WriteUtf16(target, t, ch);
        t := t + 2;
      }
      StateStep(UTF32, UTF16, strict, source, start, i, was, before, target[..], tstart, at, noted);
      noted := noted || (ch > MAX_LEGAL && strict);
      i := i + 1;
    }
    StateEnd(UTF32, UTF16, strict, source, start, i, was, target[..], tstart, t, noted, tend - t, result);
  }

  method ConvertUTF16toUTF32(source: seq<u16>, start: nat, target: array<u32>, tstart: nat, tend: nat, strict: bool)
    returns (result: Result, i: nat, t: nat)
    requires start <= |source| && tstart <= tend <= target.Length
    modifies target
    ensures tstart <= t <= tend && target[..tstart] == old(target[..tstart]) && target[t..] == old(target[t..])
    ensures Converted(UTF16, UTF32, strict, source, start, i, target[tstart..t], tend - t, result)
  {
    hide State, Over, Converted, Partial, Put8, Put16;
    result, i, t := ConversionOK, start, tstart;
    ghost var was, noted := target[..], false;
    StateStart(UTF16, UTF32, strict, source, start, was, tstart);
    while i < |source|
      invariant i <= |source| && tstart <= t <= tend && result == (if noted then SourceIllegal else ConversionOK)
      invariant State(UTF16, UTF32, strict, source, start, i, was, target[..], tstart, t, noted)
    {
      ghost var before, at := target[..], t;
      var got := ReadUtf16(source, i, strict);
      if !got.Char? {
        result := if got == Short then SourceExhausted else SourceIllegal;
        break;
      }
      if t >= tend {
        result := TargetExhausted;
        break;
      }
      WriteUnit32(target, t, got.ch);
      StateStep(UTF16, UTF32, strict, source, start, i, was, before, target[..], tstart, at, noted);
      t := t + 1;
      i := i + got.n;
    }
    StateEnd(UTF16, UTF32, strict, source, start, i, was, target[..], tstart, t, noted, tend - t, result);
  }

  method ConvertUTF16toUTF8(source: seq<u16>, start: nat, target: array<byte>, tstart: nat, tend: nat, strict: bool)
    returns (result: Result, i: nat, t: nat)
    requires start <= |source| && tstart <= tend <= target.Length
    modifies target
    ensures tstart <= t <= tend && target[..tstart] == old(target[..tstart]) && target[t..] == old(target[t..])
    ensures Converted(UTF16, UTF8, strict, source, start, i, target[tstart..t], tend - t, result)
  {
    hide State, Over, Converted, Partial, Put8, Put16;
    result, i, t := ConversionOK, start, tstart;
    ghost var was, noted := target[..], false;
    StateStart(UTF16, UTF8, strict, source, start, was, tstart);
    while i < |source|
      invariant i <= |source| && tstart <= t <= tend && result == (if noted then SourceIllegal else ConversionOK)
      invariant State(UTF16, UTF8, strict, source, start, i, was, target[..], tstart, t, noted)
    {
      ghost var before, at := target[..], t;
      var got := ReadUtf16(source, i, strict);
      if !got.Char? {
        result := if got == Short then SourceExhausted else SourceIllegal;
        break;
      }
      var bytesToWrite := Length8(got.ch);
      if t + bytesToWrite > tend {
        result := TargetExhausted;
        break;
      }
      WriteUtf8(target, t, got.ch);
      StateStep(UTF16, UTF8, strict, source, start, i, was, before, target[..], tstart, at, noted);
      t := t + bytesToWrite;
      i := i + got.n;
    }
    StateEnd(UTF16, UTF8, strict, source, start, i, was, target[..], tstart, t, noted, tend - t, result);
  }

  method ConvertUTF8toUTF16(source: seq<byte>, start: nat, target: array<u16>, tstart: nat, tend: nat, strict: bool)
    returns (result: Result, i: nat, t: nat)
    requires start <= |source| && tstart <= tend <= target.Length
    modifies target
    ensures tstart <= t <= tend && target[..tstart] == old(target[..tstart]) && target[t..] == old(target[t..])
    ensures Converted(UTF8, UTF16, strict, source, start, i, target[tstart..t], tend - t, result)
  {
    hide State, Over, Converted, Partial, Put8;
    result, i, t := ConversionOK, start, tstart;
    ghost var was, noted := target[..], false;
    StateStart(UTF8, UTF16, strict, source, start, was, tstart);
    while i < |source|
      invariant i <= |source| && tstart <= t <= tend && result == (if noted then SourceIllegal else ConversionOK)
      invariant State(UTF8, UTF16, strict, source, start, i, was, target[..], tstart, t, noted)
    {
      ghost var before, at := target[..], t;
      var got := ReadUtf8(source, i);
      if !got.Char? {
        result := if got == Short then SourceExhausted else SourceIllegal;
        break;
      }
      if t >= tend {
        result := TargetExhausted;
        break;
      }
      if got.ch <= MAX_BMP {
        NoSurrogate8(source, i);
        if HIGH_START <= got.ch <= LOW_END {
          assert false;
        } else {
          WriteUnit16(target, t, got.ch);
        }
        t := t + 1;
      } else {
        if t + 1 >= tend {
          result := TargetExhausted;
          break;
        }
        WriteUtf16(target, t, got.ch);
        t := t + 2;
      }
      StateStep(UTF8, UTF16, strict, source, start, i, was, before, target[..], tstart, at, noted);
      i := i + got.n;
    }
    StateEnd(UTF8, UTF16, strict, source, start, i, was, target[..], tstart, t, noted, tend - t, result);
  }

  method ConvertUTF32toUTF8(source: seq<u32>, start: nat, target: array<byte>, tstart: nat, tend: nat, strict: bool)
    returns (result: Result, i: nat, t: nat)
    requires start <= |source| && tstart <= tend <= target.Length
    modifies target
    ensures tstart <= t <= tend && target[..tstart] == old(target[..tstart]) && target[t..] == old(target[t..])
    ensures Converted(UTF32, UTF8, strict, source, start, i, target[tstart..t], tend - t, result)
  {
    hide State, Over, Converted, Partial, Put8, Put16;
    result, i, t := ConversionOK, start, tstart;
    ghost var was, noted := target[..], false;
    StateStart(UTF32, UTF8, strict, source, start, was, tstart);
    while i < |source|
      invariant i <= |source| && tstart <= t <= tend && result == (if noted then SourceIllegal else ConversionOK)
      invariant State(UTF32, UTF8, strict, source, start, i, was, target[..], tstart, t, noted)
    {
      ghost var before, at := target[..], t;
      var ch := source[i];
      if strict && HIGH_START <= ch <= LOW_END {
        result := SourceIllegal;
        break;
      }
      var illegal := ch > MAX_LEGAL;
      if illegal {
        ch := REPLACEMENT;
        result := SourceIllegal;
      }
      var bytesToWrite := Length8(ch);
      if t + bytesToWrite > tend {
        result := TargetExhausted;
        break;
      }
      WriteUtf8(target, t, ch);
      StateStep(UTF32, UTF8, strict, source, start, i, was, before, target[..], tstart, at, noted);
      noted := noted || illegal;
      t := t + bytesToWrite;
      i := i + 1;
    }
    StateEnd(UTF32, UTF8, strict, source, start, i, was, target[..], tstart, t, noted, tend - t, result);
  }

  method ConvertUTF8toUTF32(source: seq<byte>, start: nat, target: array<u32>, tstart: nat, tend: nat, strict: bool)
    returns (result: Result, i: nat, t: nat)
    requires start <= |source| && tstart <= tend <= target.Length
    modifies target
    ensures tstart <= t <= tend && target[..tstart] == old(target[..tstart]) && target[t..] == old(target[t..])
    ensures Converted(UTF8, UTF32, strict, source, start, i, target[tstart..t], tend - t, result)
  {
    hide State, Over, Converted, Partial, Put8, Put16;
    result, i, t := ConversionOK, start, tstart;
    ghost var was, noted := target[..], false;
    StateStart(UTF8, UTF32, strict, source, start, was, tstart);
    while i < |source|
      invariant i <= |source| && tstart <= t <= tend && result == (if noted then SourceIllegal else ConversionOK)
      invariant State(UTF8, UTF32, strict, source, start, i, was, target[..], tstart, t, noted)
    {
      ghost var before, at := target[..], t;
      var got := ReadUtf8(source, i);
      if !got.Char? {
        result := if got == Short then SourceExhausted else SourceIllegal;
        break;
      }
      if t >= tend {
        result := TargetExhausted;
        break;
      }
      NoSurrogate8(source, i);
      if HIGH_START <= got.ch <= LOW_END {
        assert false;
      } else {
        WriteUnit32(target, t, got.ch);
      }
      StateStep(UTF8, UTF32, strict, source, start, i, was, before, target[..], tstart, at, noted);
      t := t + 1;
      i := i + got.n;
    }
    StateEnd(UTF8, UTF32, strict, source, start, i, was, target[..], tstart, t, noted, tend - t, result);
  }
}
