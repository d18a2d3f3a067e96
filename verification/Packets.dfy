/** Data on the bus: bytes, and their cut into packets. */
module Packets {
  import opened Arithmetic

  type byte = x: int | 0 <= x < 256

  /** Sizes and counters of the driver have 16 bits. */
  const WORD: nat := 0x1_0000

  function Flatten(ss: seq<seq<byte>>): seq<byte> {
    if |ss| == 0 then [] else Flatten(ss[..|ss| - 1]) + ss[|ss| - 1]
  }

  /** Packet-by-packet transmission: full packets, then the rest, if any. */
  function Packetize(data: seq<byte>, size: nat): seq<seq<byte>>
    requires 0 < size
  {
    if |data| == 0 then []
    else if |data| < size then [data]
    else [data[..size]] + Packetize(data[size..], size)
  }

  /** Data that ends on a packet boundary can be cut there. */
  lemma {:induction false} PacketizeAppend(a: seq<byte>, b: seq<byte>, size: nat)
    requires 0 < size && Rem(|a|, size) == 0
    ensures Packetize(a + b, size) == Packetize(a, size) + Packetize(b, size)
    decreases |a|
  {
    if |a| == 0 {
      assert a + b == b;
    } else {
      assert (a + b)[..size] == a[..size] && (a + b)[size..] == a[size..] + b;
      PacketizeAppend(a[size..], b, size);
    }
  }

  /** The packets carry the data and nothing else, and only the last one can be short. */
  lemma {:induction false} PacketizeIsFaithful(data: seq<byte>, size: nat)
    requires 0 < size
    ensures var ps := Packetize(data, size);
      && Join(ps) == data == Flatten(ps)
      && (forall i :: 0 <= i < |ps| ==> 0 < |ps[i]| <= size)
      && (forall i :: 0 <= i < |ps| - 1 ==> |ps[i]| == size)
    decreases |data|
  {
    JoinPacketize(data, size);
    JoinIsFlatten(Packetize(data, size));
    if |data| >= size {
      PacketizeIsFaithful(data[size..], size);
    }
  }

  lemma {:induction false} JoinPacketize(data: seq<byte>, size: nat)
    requires 0 < size
    ensures Join(Packetize(data, size)) == data
    decreases |data|
  {
    if |data| >= size {
      var rest := Packetize(data[size..], size);
      JoinPacketize(data[size..], size);
      assert ([data[..size]] + rest)[1..] == rest;
      assert data[..size] + data[size..] == data;
    } else if |data| > 0 {
      assert [data][1..] == [];
    }
  }

  /** Concatenation from the front. */
  function Join(ss: seq<seq<byte>>): seq<byte> {
    if |ss| == 0 then [] else ss[0] + Join(ss[1..])
  }

  /** Concatenation from the front and from the back agree. */
  lemma {:induction false} JoinIsFlatten(ss: seq<seq<byte>>)
    ensures Join(ss) == Flatten(ss)
    decreases |ss|
  {
    if |ss| == 1 {
      assert ss[1..] == [] && ss[..0] == [];
    } else if |ss| > 1 {
      var mid := ss[1..|ss| - 1];
      JoinIsFlatten(ss[1..]);
      JoinIsFlatten(mid);
      JoinIsFlatten(ss[..|ss| - 1]);
      assert ss[1..][..|ss| - 2] == mid && ss[..|ss| - 1][1..] == mid;
    }
  }

  function Repeat<T>(x: T, n: nat): (s: seq<T>)
    ensures |s| == n && forall i :: 0 <= i < n ==> s[i] == x
  {
    seq(n, _ => x)
  }
}
