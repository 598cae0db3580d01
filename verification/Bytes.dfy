/** Fixed-width unsigned values and the two byte orders shared by every model. */
module Bytes {
  type Byte = x: int | 0 <= x < 0x100
  type U16 = x: int | 0 <= x < 0x1_0000
  type U32 = x: int | 0 <= x < 0x1_0000_0000
  type U64 = x: int | 0 <= x < 0x1_0000_0000_0000_0000

  datatype Option<+T> = None | Some(value: T)

  datatype ByteOrder = LittleEndian | BigEndian {
    function Flip(): ByteOrder {
      if LittleEndian? then BigEndian else LittleEndian
    }
  }

  /** The 16-bit value a host of the given order loads from two consecutive octets. */
  function Word(order: ByteOrder, first: Byte, second: Byte): U16 {
    if order.LittleEndian? then first + 256 * second else 256 * first + second
  }

  /** `ntohs` and `htons`: a swap on little-endian hosts, the identity on big-endian ones. */
  function SwapToNetwork(order: ByteOrder, x: U16): U16 {
    if order.LittleEndian? then (x % 256) * 256 + x / 256 else x
  }

  /** The two octets a host of the given order writes when it stores a 16-bit value. */
  function Stored(order: ByteOrder, x: U16): (Byte, Byte) {
    if order.LittleEndian? then (x % 256, x / 256) else (x / 256, x % 256)
  }

  lemma LoadedNetwork(order: ByteOrder, first: Byte, second: Byte)
    ensures SwapToNetwork(order, Word(order, first, second)) == Word(BigEndian, first, second)
  {}

  lemma StoredNetwork(order: ByteOrder, x: U16)
    ensures Stored(order, SwapToNetwork(order, x)) == (x / 256, x % 256)
  {}

  /** The `n` low octets of `x`, least significant first. */
  function LeBytes(x: nat, n: nat): (s: seq<Byte>)
    ensures |s| == n
  {
    if n == 0 then [] else [x % 256] + LeBytes(x / 256, n - 1)
  }

  function LeValue(s: seq<Byte>): nat {
    if s == [] then 0 else s[0] + 256 * LeValue(s[1..])
  }

  function Pow256(n: nat): nat {
    if n == 0 then 1 else 256 * Pow256(n - 1)
  }

  lemma {:induction false} LeRoundTrip(x: nat, n: nat)
    requires x < Pow256(n)
    ensures LeValue(LeBytes(x, n)) == x
  {
    if n != 0 {
      LeRoundTrip(x / 256, n - 1);
      assert LeBytes(x, n)[1..] == LeBytes(x / 256, n - 1);
    }
  }

  function BeBytes(x: nat, n: nat): (s: seq<Byte>)
    ensures |s| == n
  {
    if n == 0 then [] else BeBytes(x / 256, n - 1) + [x % 256]
  }

  function BeValue(s: seq<Byte>): nat {
    if s == [] then 0 else 256 * BeValue(s[..|s| - 1]) + s[|s| - 1]
  }

  lemma {:induction false} BeRoundTrip(x: nat, n: nat)
    requires x < Pow256(n)
    ensures BeValue(BeBytes(x, n)) == x
  {
    if n != 0 {
      BeRoundTrip(x / 256, n - 1);
      assert BeBytes(x, n)[..n - 1] == BeBytes(x / 256, n - 1);
    }
  }

  /** The octets of a 64-bit value in host memory, and the value a host loads from eight octets. */
  function U64Bytes(order: ByteOrder, x: U64): (s: seq<Byte>)
    ensures |s| == 8
  {
    if order.LittleEndian? then LeBytes(x, 8) else BeBytes(x, 8)
  }

  function U64Value(order: ByteOrder, s: seq<Byte>): nat {
    if order.LittleEndian? then LeValue(s) else BeValue(s)
  }

  lemma U64RoundTrip(order: ByteOrder, x: U64)
    ensures U64Value(order, U64Bytes(order, x)) == x
  {
    assert Pow256(8) == 0x1_0000_0000_0000_0000 by {
      assert Pow256(4) == 0x1_0000_0000;
    }
    LeRoundTrip(x, 8);
    BeRoundTrip(x, 8);
  }
}
