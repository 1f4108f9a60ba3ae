/** Bits of bytes, lowest first. */
module LowBits {
  import opened Bits

  /** The number whose bits, lowest first, are s. */
  function LowFirst(s: seq<bool>): (b: nat)
    ensures b < Pow2(|s|)
  {
    if s == [] then 0 else (if s[0] then 1 else 0) + 2 * LowFirst(s[1..])
  }

  function BitOf(b: nat, k: nat): bool {
    if k == 0 then b % 2 == 1 else BitOf(b / 2, k - 1)
  }

  function BitsOf(b: nat): (s: seq<bool>)
    ensures |s| == 8
  {
    seq(8, k requires 0 <= k < 8 => BitOf(b, k))
  }

  lemma {:induction false} BitOfLowFirst(s: seq<bool>, k: nat)
    requires k < |s|
    ensures BitOf(LowFirst(s), k) == s[k]
    decreases k
  {
    if k > 0 {
      assert LowFirst(s) / 2 == LowFirst(s[1..]);
      BitOfLowFirst(s[1..], k - 1);
    }
  }

  lemma {:induction false} LowFirstMore(s: seq<bool>, b: bool)
    ensures LowFirst(s + [b]) == LowFirst(s) + if b then Pow2(|s|) else 0
    decreases |s|
  {
    if s == [] {
      assert s + [b] == [b] && [b][1..] == [];
    } else {
      assert (s + [b])[1..] == s[1..] + [b];
      LowFirstMore(s[1..], b);
    }
  }

  lemma {:induction false} Pow2Of8(n: nat)
    requires n <= 8
    ensures Pow2(n) <= 256
    decreases 8 - n
  {
    if n < 8 {
      Pow2Of8(n + 1);
    } else {
      assert Pow2(2) == 4 && Pow2(4) == 16 && Pow2(6) == 64;
    }
  }

  function ByteOf(s: seq<bool>): byte
    requires |s| <= 8
  {
    Pow2Of8(|s|);
    LowFirst(s)
  }

  /** All bits of the bytes s in reading order. */
  function Flat(s: seq<byte>): (r: seq<bool>)
    ensures |r| == 8 * |s|
  {
    if s == [] then [] else BitsOf(s[0]) + Flat(s[1..])
  }

  const MASKS: seq<byte> := [1, 2, 4, 8, 16, 32, 64, 128]

  lemma {:induction false} MaskIsPow2(k: nat)
    requires k < 8
    ensures MASKS[k] == Pow2(k)
  {
    if k > 0 { MaskIsPow2(k - 1); }
  }

  lemma {:induction false} HalfThen(b: nat, k: nat)
    requires 0 < k < 8
    ensures b / 2 / MASKS[k - 1] == b / MASKS[k]
  {
    if k == 1 {} else if k == 2 {} else if k == 3 {} else if k == 4 {} else if k == 5 {} else if k == 6 {} else {}
  }

  lemma {:induction false} BitAt(b: byte, k: nat)
    requires k < 8
    ensures BitOf(b, k) == (b / MASKS[k] % 2 == 1)
    decreases k
  {
    if k > 0 {
      HalfThen(b, k);
      BitAt(b / 2, k - 1);
    }
  }

  // ------------------------------------------------- shifting and masking

  /** v << n */
  function Shl(v: nat, n: nat): nat { if n == 0 then v else 2 * Shl(v, n - 1) }

  /** v >> n */
  function Shr(v: nat, n: nat): nat { if n == 0 then v else Shr(v / 2, n - 1) }

  /** The lowest n bits of v as a number: v & ((1 << n) - 1). */
  function Mask(v: nat, n: nat): nat { if n == 0 then 0 else v % 2 + 2 * Mask(v / 2, n - 1) }

  /** The lowest n bits of v, lowest first. */
  function LowToBits(v: nat, n: nat): (s: seq<bool>)
    ensures |s| == n
  {
    if n == 0 then [] else [v % 2 == 1] + LowToBits(v / 2, n - 1)
  }

  lemma {:induction false} ShiftBack(v: nat, n: nat)
    ensures Shl(Shr(v, n), n) + Mask(v, n) == v
  {
    if n > 0 { ShiftBack(v / 2, n - 1); }
  }

  lemma {:induction false} LowFirstOfBits(v: nat, n: nat)
    ensures LowFirst(LowToBits(v, n)) == Mask(v, n)
  {
    if n > 0 {
      assert LowToBits(v, n)[1..] == LowToBits(v / 2, n - 1);
      LowFirstOfBits(v / 2, n - 1);
    }
  }

  lemma {:induction false} MaskSmall(v: nat, n: nat)
    requires v < Pow2(n)
    ensures Mask(v, n) == v
  {
    if n > 0 { MaskSmall(v / 2, n - 1); }
  }

  lemma {:induction false} ShiftOfLowFirst(s: seq<bool>, n: nat)
    requires n <= |s|
    ensures Shr(LowFirst(s), n) == LowFirst(s[n..]) && Mask(LowFirst(s), n) == LowFirst(s[..n])
    decreases n
  {
    if n == 0 {
      assert s[0..] == s && s[..0] == [];
    } else {
      assert LowFirst(s) / 2 == LowFirst(s[1..]);
      ShiftOfLowFirst(s[1..], n - 1);
      assert s[1..][n - 1..] == s[n..] && s[1..][..n - 1] == s[..n][1..];
    }
  }

  lemma {:induction false} LowFirstConcat(a: seq<bool>, b: seq<bool>)
    ensures LowFirst(a + b) == LowFirst(a) + Shl(LowFirst(b), |a|)
    decreases |a|
  {
    if a == [] {
      assert a + b == b;
    } else {
      assert (a + b)[1..] == a[1..] + b;
      LowFirstConcat(a[1..], b);
    }
  }

  lemma {:induction false} BitsOfIs(b: nat)
    ensures BitsOf(b) == LowToBits(b, 8)
  {
    forall k | 0 <= k < 8 ensures LowToBits(b, 8)[k] == BitOf(b, k) { LowBitAt(b, 8, k); }
  }

  lemma {:induction false} LowBitAt(v: nat, n: nat, k: nat)
    requires k < n
    ensures LowToBits(v, n)[k] == BitOf(v, k)
    decreases n
  {
    if k > 0 { LowBitAt(v / 2, n - 1, k - 1); }
  }

  /** v | (1 << k) */
  function SetBit(v: nat, k: nat): nat { if BitOf(v, k) then v else v + Pow2(k) }

  lemma {:induction false} SetBitIs(v: nat, k: nat, j: nat)
    ensures BitOf(SetBit(v, k), j) <==> (j == k || BitOf(v, j))
    decreases k
  {
    if k > 0 && !BitOf(v, k) {
      var w := v + Pow2(k);
      assert w / 2 == v / 2 + Pow2(k - 1) && w % 2 == v % 2;
      if j > 0 { SetBitIs(v / 2, k - 1, j - 1); }
    }
  }

  lemma {:induction false} ZeroBits(k: nat)
    ensures !BitOf(0, k)
  {
    if k > 0 { ZeroBits(k - 1); }
  }

  lemma {:induction false} BitOfShr(v: nat, k: nat)
    ensures BitOf(v, k) == (Shr(v, k) % 2 == 1)
  {
    if k > 0 { BitOfShr(v / 2, k - 1); }
  }

  lemma {:induction false} ShrMore(v: nat, k: nat)
    ensures Shr(v, k + 1) == Shr(v, k) / 2
  {
    if k > 0 { ShrMore(v / 2, k - 1); }
  }
}
