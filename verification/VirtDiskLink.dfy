/**
 Packets between the Z80 master and the ESP8266 slave: a checksum closes every
 packet, and the line may garble what comes before it.
*/
module VirtDiskLink {
  import opened Bits

  function Total(s: seq<byte>): nat {
    if s == [] then 0 else Total(s[..|s| - 1]) + s[|s| - 1]
  }

  /** The sum of the bytes as a byte. */
  function Sum(s: seq<byte>): byte { Total(s) % 256 }

  /** The byte that makes the sum of a packet zero: the complement of 255 plus the sum. */
  function Closing(s: seq<byte>): byte { 255 - Running(s) }

  function Packet(s: seq<byte>): seq<byte> { s + [Closing(s)] }

  lemma {:induction false} SumMore(s: seq<byte>, b: byte)
    ensures Total(s + [b]) == Total(s) + b && Sum(s + [b]) == (Sum(s) + b) % 256
  {
    assert (s + [b])[..|s|] == s;
  }

  lemma {:induction false} SumOne(b: byte)
    ensures Sum([b]) == b
  {
    SumMore([], b);
    assert [] + [b] == [b];
  }

  /** The running checksum of the sender: 255 plus the sum. */
  function Running(s: seq<byte>): byte { (255 + Sum(s)) % 256 }

  lemma {:induction false} RunningMore(s: seq<byte>, b: byte)
    ensures Running(s + [b]) == (Running(s) + b) % 256
  {
    hide Total, Sum;
    SumMore(s, b);
  }

  lemma {:induction false} RunningFirst(b: byte)
    ensures Running([b]) == (255 + b) % 256
  {
    SumMore([], b);
    assert [] + [b] == [b];
  }

  /** An intact packet is accepted. */
  lemma {:induction false} PacketAccepted(s: seq<byte>)
    ensures Sum(Packet(s)) == 0
  {
    SumMore(s, Closing(s));
  }

  /** A packet with one byte changed, wherever it is, is rejected. */
  lemma {:induction false} OneByteDetected(s: seq<byte>, i: nat, b: byte)
    requires i < |Packet(s)| && b != Packet(s)[i]
    ensures Sum(Packet(s)[i := b]) != 0
  {
    var p := Packet(s);
    PacketAccepted(s);
    TotalUpdate(p, i, b);
    if Sum(p[i := b]) == 0 { OffByLess(Total(p), Total(p[i := b])); }
  }

  lemma {:induction false} OffByLess(x: nat, y: nat)
    requires x % 256 == 0 && y % 256 == 0 && x != y
    ensures y >= x + 256 || x >= y + 256
  {
  }

  lemma {:induction false} TotalUpdate(p: seq<byte>, i: nat, b: byte)
    requires i < |p|
    ensures Total(p[i := b]) == Total(p) - p[i] + b
  {
    var n := |p| - 1;
    if i < n {
      assert p[i := b][..n] == p[..n][i := b];
      TotalUpdate(p[..n], i, b);
    } else {
      assert p[i := b][..n] == p[..n];
    }
  }

  /** What happens to a packet on the line. */
  datatype Fault = Clean | Noise(bytes: seq<byte>)

  /**
   The packet as it arrives: noise replaces what follows the first h bytes.
   Noise that the checksum cannot tell from a good packet is not modelled.
  */
  function Deliver(p: seq<byte>, h: nat, fault: Fault): (r: seq<byte>)
    requires h <= |p|
    ensures |r| == |p| && r[..h] == p[..h]
    ensures r == p || Sum(r) != 0
  {
    if fault.Noise? && h + |fault.bytes| == |p| && Sum(p[..h] + fault.bytes) != 0 then p[..h] + fault.bytes else p
  }

  /** Whatever the checksum tells from a good packet can arrive in place of one. */
  lemma {:induction false} AnyNoise(p: seq<byte>, h: nat, q: seq<byte>)
    requires h <= |p| == |q| && q[..h] == p[..h] && Sum(q) != 0
    ensures Deliver(p, h, Noise(q[h..])) == q
  {
    hide Sum;
    assert p[..h] + q[h..] == q;
  }
}
