/** Copying from the text written so far, which may run into what is being copied. */
module LzCopy {
  import opened Bits

  /** out followed by n bytes copied from d bytes back, possibly from the copy itself. */
  function Copied(out: seq<byte>, d: nat, n: nat): (r: seq<byte>)
    requires 0 < d <= |out|
    ensures |r| == |out| + n && r[..|out|] == out
    decreases n
  {
    if n == 0 then out else
    var out' := out + [out[|out| - d]];
    var r := Copied(out', d, n - 1);
    assert r[..|out|] == r[..|out'|][..|out|];
    r
  }

  /** One byte of a copy. */
  lemma {:induction false} CopiedFirst(out: seq<byte>, d: nat, n: nat)
    requires 0 < d <= |out| && n > 0
    ensures Copied(out, d, n) == Copied(out + [out[|out| - d]], d, n - 1)
  {
  }
}
