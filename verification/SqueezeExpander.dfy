/** Expanding a squeezed file, byte by byte and bit by bit. */
module SqueezeExpander {
  import opened SqueezeTree
  import opened SqueezeRle
  import opened SqueezeCode
  import opened SqueezeFile
  import opened Wrappers
  import opened Bits
  import opened LowBits

  class Unsqueezer {
    var rleChar: int
    var rleRun: nat
    const left: array<int>
    const right: array<int>
    var hufOut: byte
    var nOut: nat
    var sum: int
    const fpIn: seq<byte>
    var inPos: nat
    var fpOut: seq<byte>

    ghost predicate Wired()
      reads `inPos
    {
      left.Length == right.Length == MAXNODE && left != right && inPos <= |fpIn|
    }

    constructor (file: seq<byte>)
      ensures Wired() && fpIn == file && inPos == 0 && fpOut == [] && fresh(left) && fresh(right)
    {
      left, right := new int[MAXNODE](_ => 0), new int[MAXNODE](_ => 0);
      rleChar, rleRun, hufOut, nOut, sum, inPos, fpIn, fpOut := -1, 0, 0, 8, 0, 0, file, [];
    }

    /** The state of the run-length expander, with the checksum of what it has written. */
    ghost predicate Expanding()
      reads `rleChar, `rleRun, `sum, `fpOut
    {
      -1 <= rleChar < 256 && sum == Checksum(fpOut)
    }

    ghost function Now(): (e: Expander)
      requires Expanding()
      reads `rleChar, `rleRun, `sum, `fpOut
      ensures e.Ok()
    {
      Expander(fpOut, rleChar, rleRun == 1)
    }

    method CkPutc(b: byte)
      requires Expanding()
      modifies `fpOut, `sum
      ensures Expanding() && fpOut == old(fpOut) + [b]
    {
      assert (fpOut + [b])[..|fpOut|] == fpOut;
      fpOut := fpOut + [b];
      sum := (sum + b) % 0x10000;
    }

    /** Repeat the held character. */
    method PutRun(n: byte)
      requires Expanding() && rleChar != -1
      modifies `fpOut, `sum
      ensures Expanding() && fpOut == old(fpOut) + Repeat(rleChar as byte, n)
    {
      var i := 0;
      assert fpOut + Repeat(rleChar as byte, 0) == fpOut;
      while i < n
        invariant 0 <= i <= n && Expanding() && fpOut == old(fpOut) + Repeat(rleChar as byte, i)
      {
        CkPutc(rleChar);
        assert Repeat(rleChar as byte, i) + [rleChar as byte] == Repeat(rleChar as byte, i + 1);
        i := i + 1;
      }
    }

    /** Take one byte of the expanded bit stream. */
    method WrByte(b: byte) returns (ok: bool)
      requires Expanding()
      modifies `rleChar, `rleRun, `sum, `fpOut
      ensures Expanding() && ok == Take(old(Now()), b).Some?
      ensures ok ==> Take(old(Now()), b) == Some(Now())
    {
      if rleRun == 1 {
        if b == 0 {
          if rleChar != -1 { CkPutc(rleChar); }
          CkPutc(RLECODE);
        } else {
          if rleChar == -1 { return false; }
          PutRun(b);
        }
        rleRun := 0;
        rleChar := -1;
        return true;
      }
      if b == RLECODE {
        rleRun := 1;
        return true;
      }
      if rleChar != -1 { CkPutc(rleChar); }
      rleChar := b;
      return true;
    }

    // ------------------------------------------------------------- reading

    method Readc() returns (ok: bool, c: byte)
      requires Wired()
      modifies `inPos
      ensures Wired() && ok == (old(inPos) < |fpIn|)
      ensures ok ==> c == fpIn[old(inPos)] && inPos == old(inPos) + 1
      ensures !ok ==> inPos == old(inPos)
    {
      if inPos >= |fpIn| { return false, 0; }
      c := fpIn[inPos];
      inPos := inPos + 1;
      return true, c;
    }

    method Readu() returns (ok: bool, u: nat)
      requires Wired()
      modifies `inPos
      ensures Wired()
      ensures ok == ReadWord(fpIn[old(inPos)..]).Some?
      ensures ok ==> ReadWord(fpIn[old(inPos)..]) == Some((u, fpIn[inPos..]))
    {
      ghost var f := fpIn[inPos..];
      var c1, c2 := 0, 0;
      u := 0;
      ok, c1 := Readc();
      if !ok { return; }
      ok, c2 := Readc();
      if !ok { return; }
      u := c2 as int * 256 + c1 as int;
      assert f[2..] == fpIn[inPos..];
    }

    method SkipFileName() returns (ok: bool)
      requires Wired()
      modifies `inPos
      ensures Wired()
      ensures ok == SkipName(fpIn[old(inPos)..]).Some?
      ensures ok ==> SkipName(fpIn[old(inPos)..]) == Some(fpIn[inPos..])
    {
      ghost var rest := SkipName(fpIn[inPos..]);
      var c := 1;
      ok := true;
      while c != 0
        invariant Wired() && c >= 0
        invariant rest == if c == 0 then Some(fpIn[inPos..]) else SkipName(fpIn[inPos..])
        decreases |fpIn| - inPos, c
      {
        ghost var f := fpIn[inPos..];
        ok, c := Readc();
        if !ok { return; }
        assert f[1..] == fpIn[inPos..];
      }
      ok := true;
    }

    method ReadDictionary(dictLen: nat) returns (ok: bool)
      requires Wired() && dictLen <= MAXNODE
      modifies `inPos, left, right
      ensures Wired()
      ensures var r := ReadNodes(fpIn[old(inPos)..], old(left[..]), old(right[..]), 0, dictLen);
              ok == r.Some? && (ok ==> r == Some((left[..], right[..], fpIn[inPos..])))
    {
      ghost var r := ReadNodes(fpIn[inPos..], left[..], right[..], 0, dictLen);
      ok := true;
      var nd := 0;
      while nd < dictLen
        invariant Wired() && nd <= dictLen && r == ReadNodes(fpIn[inPos..], left[..], right[..], nd, dictLen)
      {
        ghost var l, r := left[..], right[..];
        var u, v := 0, 0;
        ok, u := Readu();
        if !ok { return; }
        left[nd] := Signed(u);
        ok, v := Readu();
        if !ok { return; }
        right[nd] := Signed(v);
        assert left[..] == l[nd := Signed(u)] && right[..] == r[nd := Signed(v)];
        nd := nd + 1;
      }
      ok := true;
    }

    /** The bits not yet looked at. */
    ghost function Ahead(): seq<bool>
      requires Wired() && nOut <= 8
      reads `inPos, `hufOut, `nOut
    {
      BitsOf(hufOut)[nOut..] + Flat(fpIn[inPos..])
    }

    /** Fetch a byte when the last one is used up. */
    method Refill() returns (ok: bool)
      requires Wired() && nOut <= 8
      modifies `inPos, `hufOut, `nOut
      ensures Wired() && ok == (old(Ahead()) != [])
      ensures ok ==> nOut < 8 && Ahead() == old(Ahead())
      ensures !ok ==> nOut <= 8
    {
      if nOut < 8 { return true; }
      ghost var f := fpIn[inPos..];
      assert Ahead() == Flat(f);
      nOut := 0;
      var c := 0;
      ok, c := Readc();
      if !ok { return; }
      hufOut := c;
      assert f[1..] == fpIn[inPos..];
      assert Flat(f) == BitsOf(hufOut)[0..] + Flat(fpIn[inPos..]);
    }

    method NextBit() returns (ok: bool, bit: bool)
      requires Wired() && nOut <= 8
      modifies `inPos, `hufOut, `nOut
      ensures Wired() && nOut <= 8
      ensures ok == (old(Ahead()) != [])
      ensures ok ==> bit == old(Ahead())[0] && Ahead() == old(Ahead())[1..] && |Ahead()| < |old(Ahead())|
    {
      bit := false;
      ok := Refill();
      if !ok { return; }
      BitAt(hufOut, nOut);
      bit := hufOut / MASKS[nOut] % 2 == 1;
      assert BitsOf(hufOut)[nOut..][1..] == BitsOf(hufOut)[nOut + 1..];
      nOut := nOut + 1;
    }

    /** Walk down the dictionary for every bit until EOF is met. */
    method DecodeBits() returns (err: Option<Error>)
      requires Wired() && Expanding() && nOut == 8
      modifies `inPos, `hufOut, `nOut, `rleChar, `rleRun, `sum, `fpOut
      ensures Wired() && Expanding()
      ensures var o := Decode(left[..], right[..], 0, old(Now()), Flat(fpIn[old(inPos)..]));
              if err.Some? then o == Failed(err.value) else o == Done(Now())
    {
      hide Expanding, Now, Take, Checksum, BitsOf, Flat;
      ghost var l, r := left[..], right[..];
      ghost var o := Decode(l, r, 0, Now(), Flat(fpIn[inPos..]));
      var node := 0;
      assert BitsOf(hufOut)[8..] + Flat(fpIn[inPos..]) == Flat(fpIn[inPos..]);
      while true
        invariant Wired() && Expanding() && nOut <= 8 && 0 <= node < MAXNODE
        invariant Decode(l, r, node, Now(), Ahead()) == o
        decreases |Ahead()|
      {
        ghost var ahead := Ahead();
        var ok, bit := NextBit();
        if !ok { return Some(ReadError); }
        var code := if bit then right[node] else left[node];
        if code < 0 {
          if -1 - code == SQ_EOF { break; }
          ok := WrByte((-1 - code) % 256);
          if !ok { return Some(ReadError); }
          node := 0;
        } else {
          if code >= MAXNODE { return Some(WildNode); }
          node := code;
        }
      }
      return None;
    }

    /** Expand the file. */
    method Unsqueeze() returns (err: Option<Error>)
      requires Wired() && inPos == 0 && fpOut == []
      modifies this, left, right
      ensures var r := SqueezeFile.Unsqueeze(old(left[..]), old(right[..]), fpIn);
              if err.Some? then r == Err(err.value) else r == Ok(fpOut)
    {
      sum := 0;
      assert fpIn[0..] == fpIn;
      var ok, magic := Readu();
      if !ok { return Some(ReadError); }
      if magic != MAGIC { return Some(NotSqueezed); }
      ghost var f1 := fpIn[inPos..];
      var read, checksum := Readu();
      ok := SkipFileName();
      if !read || !ok { return Some(ReadError); }
      var dictLen := 0;
      ok, dictLen := Readu();
      if !ok { return Some(ReadError); }
      if dictLen > MAXNODE { return Some(NotSqueezed); }
      err := UnsqueezeRest(dictLen, checksum);
    }

    method UnsqueezeRest(dictLen: nat, checksum: nat) returns (err: Option<Error>)
      requires Wired() && dictLen <= MAXNODE && fpOut == [] && sum == 0
      modifies this, left, right
      ensures var r := UnsqueezeData(old(left[..]), old(right[..]), checksum, dictLen, fpIn[old(inPos)..]);
              if err.Some? then r == Err(err.value) else r == Ok(fpOut)
    {
      var ok := ReadDictionary(dictLen);
      if !ok { return Some(ReadError); }
      hufOut := 0;
      nOut := 8;
      rleChar := -1;
      rleRun := 0;
      if dictLen != 0 {
        err := DecodeBits();
        if err.Some? { return; }
      }
      if rleChar != -1 { CkPutc(rleChar); }
      if checksum != sum { return Some(NotSqueezed); }
      return None;
    }
  }
}
