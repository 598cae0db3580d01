/**
 The OSI Fletcher checksum generator of tcpdump/checksum.c, against the two sums
 a verifier computes (ISO 8473-1, Appendix C).
 */
module Fletcher {
  import opened Bytes

  /** The verifier's running sums over a PDU, without reduction. */
  function Sum0(s: seq<Byte>): nat {
    if s == [] then 0 else Sum0(s[..|s| - 1]) + s[|s| - 1]
  }

  function Sum1(s: seq<Byte>): nat {
    if s == [] then 0 else Sum1(s[..|s| - 1]) + Sum0(s)
  }

  ghost predicate Verifies(s: seq<Byte>) {
    Sum0(s) % 255 == 0 && Sum1(s) % 255 == 0
  }

  /** C's `%` on `int`: the result has the sign of the dividend. */
  function CMod(a: int, m: nat): int
    requires m > 0
  {
    if a >= 0 then a % m else -((-a) % m)
  }

  /** The two 32-bit `int` results `x` and `y`, before they are packed. */
  function XOf(mul: int, c0: int, c1: int): int {
    var x := mul - c0 - c1;
    var x := if x < 0 then x - 1 else x;
    var x := CMod(x, 255);
    if x == 0 then 255 else x
  }

  function YOf(mul: int, c1: int): int {
    var y := c1 - mul - 1;
    var y := if y >= 0 then y + 1 else y;
    var y := CMod(y, 255);
    if y == 0 then 255 else y
  }

  /** PDU lengths up to which no other 32-bit value can overflow. */
  const LONGEST := 8_000_000

  /** The second sum as the code has it: modulo 2^32 first, then modulo 255. */
  function Kept1(s: seq<Byte>): nat {
    Sum1(s) % 0x1_0000_0000 % 255
  }

  /** How often the 32-bit accumulator of the second sum wraps. */
  function Wraps(s: seq<Byte>): nat {
    Sum1(s) / 0x1_0000_0000
  }

  /** Clears the two checksum octets, as far as they lie in the PDU. */
  function Cleared(s: seq<Byte>, at: nat): (c: seq<Byte>)
    ensures |c| == |s| && forall i :: 0 <= i < |s| ==> c[i] == if i == at || i == at + 1 then 0 else s[i]
  {
    if at + 1 < |s| then s[at := 0][at + 1 := 0] else if at < |s| then s[at := 0] else s
  }

  /** The octets that the code makes of the two sums. */
  function Generated(pdu: seq<Byte>, at: nat): U16 {
    var c := Cleared(pdu, at);
    var c0, c1 := Sum0(c) % 255, Kept1(c);
    var mul := (|pdu| - at) * c0;
    XOf(mul, c0, c1) % 256 * 256 + YOf(mul, c1) % 256
  }

  /** Neither of the two values the code reduces is clamped, and nothing is lost by wrapping. */
  predicate Sound(pdu: seq<Byte>, at: nat) {
    var c := Cleared(pdu, at);
    var c0, c1 := Sum0(c) % 255, Kept1(c);
    var mul := (|pdu| - at) * c0;
    Wraps(c) % 255 == 0 && !Misses(mul - c0 - c1) && !Misses(c1 - mul)
  }

  lemma {:induction false} SumsFit(s: seq<Byte>)
    ensures Sum0(s) <= 255 * |s|
    ensures 2 * Sum1(s) <= 255 * (|s| * (|s| + 1))
  {
    if s != [] {
      var n := |s|;
      SumsFit(s[..n - 1]);
      assert n * (n + 1) == (n - 1) * n + 2 * n;
    }
  }

  /** Up to 5803 octets nothing wraps. */
  lemma SumsFit32(s: seq<Byte>)
    requires |s| <= 5803
    ensures Wraps(s) == 0 && Kept1(s) == Sum1(s) % 255
  {
    hide Sum1;
    SumsFit(s);
    var n := |s|;
    assert n * (n + 1) <= 5803 * 5804;
  }

  /**
   `create_osi_cksum`.  The accumulators are 32-bit and the second one may wrap;
   the result packs the low octets of `x` and `y`.
   */
  method CreateOsiCksum(pdu: seq<Byte>, at: nat) returns (checksum: U16)
    requires |pdu| <= LONGEST && at <= LONGEST
    ensures checksum == Generated(pdu, at)
    ensures at + 1 < |pdu| ==> (Verifies(Completed(pdu, at, checksum)) <==> Sound(pdu, at))
  {
    hide Sum0, Sum1, XOf, YOf, Misses, Verifies, Completed, Cleared, Sound;
    ghost var c := Cleared(pdu, at);
    var c0: U32, c1: U32 := 0, 0;
    SumsOfNothing();
    assert c[..0] == [];
    for idx := 0 to |pdu|
      invariant c0 == Sum0(c[..idx]) && c1 == Sum1(c[..idx]) % 0x1_0000_0000
    {
      SumsStep(c, idx);
      SumsFit(c[..idx + 1]);
      WrappedStep(Sum1(c[..idx]), Sum0(c[..idx + 1]));
      if idx == at || idx == at + 1 {
        c1 := (c1 as int + c0) % 0x1_0000_0000;
      } else {
        c0 := c0 + pdu[idx];
        c1 := (c1 as int + c0) % 0x1_0000_0000;
      }
    }
    assert c[..|pdu|] == c;
    checksum := PackOctets(|pdu| - at, c0 % 255, c1 % 255);
    if at + 1 < |pdu| {
      CompletedVerifiesIff(pdu, at);
    }
  }

  /** The arithmetic on the two reduced sums; `k` is the distance from the field to the end, negative past it. */
  method PackOctets(k: int, c0: nat, c1: nat) returns (checksum: U16)
    ensures checksum == XOf(k * c0, c0, c1) % 256 * 256 + YOf(k * c0, c1) % 256
  {
    var mul: int := k * c0;
    var x: int := mul - c0 - c1;
    var y: int := c1 - mul - 1;
    if y >= 0 {
      y := y + 1;
    }
    if x < 0 {
      x := x - 1;
    }
    x := CMod(x, 255);
    y := CMod(y, 255);
    if x == 0 {
      x := 255;
    }
    if y == 0 {
      y := 255;
    }
    y := y % 256;
    checksum := x % 256 * 256 + y;
  }

  lemma WrappedStep(a: nat, b: nat)
    ensures (a % 0x1_0000_0000 + b) % 0x1_0000_0000 == (a + b) % 0x1_0000_0000
  {}

  lemma SumsOfNothing()
    ensures Sum0([]) == 0 && Sum1([]) == 0
  {}

  lemma SumsStep(s: seq<Byte>, k: nat)
    requires k < |s|
    ensures Sum0(s[..k + 1]) == Sum0(s[..k]) + s[k] && Sum1(s[..k + 1]) == Sum1(s[..k]) + Sum0(s[..k]) + s[k]
  {
    assert s[..k + 1][..k] == s[..k];
  }

  // ---- What the generated octets do for a verifier ----

  lemma {:induction false} SumsReplace(s: seq<Byte>, at: nat, x: Byte, y: Byte)
    requires at + 1 < |s| && s[at] == 0 && s[at + 1] == 0
    ensures var t := s[at := x][at + 1 := y];
      && Sum0(t) == Sum0(s) + x + y
      && Sum1(t) == Sum1(s) + (|s| - at) * x + (|s| - at - 1) * y
    decreases |s|
  {
    hide Sum0, Sum1;
    var t := s[at := x][at + 1 := y];
    var n := |s| - 1;
    assert s[..n + 1] == s && t[..n + 1] == t;
    SumsStep(s, n);
    SumsStep(t, n);
    if n == at + 1 {
      assert t[..at] == s[..at];
      SumsStep(s, at);
      SumsStep(t, at);
    } else {
      SumsReplace(s[..n], at, x, y);
      assert t[..n] == s[..n][at := x][at + 1 := y];
      assert (n + 1 - at) * x == (n - at) * x + x && (n - at) * y == (n - at - 1) * y + y;
    }
  }

  /** The value a branch clamps to 255 although it should be congruent to 1. */
  predicate Misses(v: int) {
    v < 0 && v % 255 == 1
  }

  lemma XOctet(mul: int, c0: nat, c1: nat) returns (i: int)
    ensures XOf(mul, c0, c1) % 256 == mul - c0 - c1 + 255 * i - (if Misses(mul - c0 - c1) then 1 else 0)
  {
    var v := mul - c0 - c1;
    i := SignedOctet(v);
  }

  /** Truncating division of a negative value, shifted by one, still gives the right octet, except at one residue. */
  lemma SignedOctet(v: int) returns (i: int)
    ensures var r := CMod(if v < 0 then v - 1 else v, 255);
      (if r == 0 then 255 else r) % 256 == v + 255 * i - (if Misses(v) then 1 else 0)
  {
    var r := CMod(if v < 0 then v - 1 else v, 255);
    if v >= 0 {
      i := if r == 0 then 1 - v / 255 else -(v / 255);
    } else {
      var q := (1 - v) / 255;
      assert 1 - v == 255 * q + (1 - v) % 255;
      assert r == -((1 - v) % 255);
      if r == 0 {
        assert v == 1 - 255 * q;
        MissesAt(v, q);
        i := 1 + q;
      } else {
        assert v == 1 - 255 * q - (-r);
        NoMissAt(v, q, -r);
        i := 1 + q;
      }
    }
  }

  lemma MissesAt(v: int, q: int)
    requires v == 1 - 255 * q
    ensures v % 255 == 1
  {}

  lemma NoMissAt(v: int, q: int, r: int)
    requires v == 1 - 255 * q - r && 0 < r < 255
    ensures v % 255 != 1
  {}

  lemma YOctet(mul: int, c1: nat) returns (j: int)
    ensures YOf(mul, c1) % 256 == c1 - mul + 255 * j - (if Misses(c1 - mul) then 1 else 0)
  {
    var v := c1 - mul;
    if v == 0 {
      j := 1;
    } else {
      j := SignedOctet(v);
    }
  }

  /** Integer form of the two sums of the completed PDU; `q` is what the wrapped second sum lacks. */
  lemma Residues(k: nat, s0: nat, s1: nat, m: nat, q: nat, c0: nat, c1: nat, x: int, y: int, i: int, j: int, dx: int, dy: int)
    requires c0 == s0 % 255 && s1 == 255 * m + q + c1
    requires x == k * c0 - c0 - c1 + 255 * i - dx && y == c1 - k * c0 + 255 * j - dy
    ensures s0 + x + y == 255 * (s0 / 255 + i + j) - dx - dy
    ensures s1 + k * x + (k - 1) * y == 255 * (m + k * i + (k - 1) * j) + q - k * dx - (k - 1) * dy
  {
    assert s0 == 255 * (s0 / 255) + c0;
    var n := k * c0;
    assert k * x == k * n - n - k * c1 + 255 * (k * i) - k * dx by {
      assert k * (n - c0 - c1 + 255 * i - dx) == k * n - k * c0 - k * c1 + k * (255 * i) - k * dx;
      assert k * (255 * i) == 255 * (k * i);
    }
    assert (k - 1) * y == (k - 1) * c1 - (k - 1) * n + 255 * ((k - 1) * j) - (k - 1) * dy by {
      assert (k - 1) * (c1 - n + 255 * j - dy) == (k - 1) * c1 - (k - 1) * n + (k - 1) * (255 * j) - (k - 1) * dy;
      assert (k - 1) * (255 * j) == 255 * ((k - 1) * j);
    }
    assert k * n - (k - 1) * n == n;
    assert k * c1 - (k - 1) * c1 == c1;
  }

  lemma MultipleIff(n: int, d: int)
    requires 0 <= d <= 2
    ensures (255 * n - d) % 255 == 0 <==> d == 0
  {}

  lemma MultipleOf(n: int, q: nat)
    ensures (255 * n + q) % 255 == 0 <==> q % 255 == 0
  {
    RestIs(255 * n + q, n + q / 255, q % 255);
  }

  lemma RestIs(z: int, a: int, r: int)
    requires z == 255 * a + r && 0 <= r < 255
    ensures z % 255 == r
  {}

  lemma BothVanishIff(k: nat, s0: nat, s1: nat, m: nat, q: nat, c0: nat, c1: nat, x: int, y: int, i: int, j: int, dx: int, dy: int)
    requires c0 == s0 % 255 && s1 == 255 * m + q + c1 && 0 <= dx <= 1 && 0 <= dy <= 1
    requires x == k * c0 - c0 - c1 + 255 * i - dx && y == c1 - k * c0 + 255 * j - dy
    ensures (s0 + x + y) % 255 == 0 && (s1 + k * x + (k - 1) * y) % 255 == 0 <==> dx == 0 && dy == 0 && q % 255 == 0
  {
    Residues(k, s0, s1, m, q, c0, c1, x, y, i, j, dx, dy);
    MultipleIff(s0 / 255 + i + j, dx + dy);
    if dx + dy == 0 {
      MultipleOf(m + k * i + (k - 1) * j, q);
    }
  }

  /** 2^32 is 1 modulo 255, so each wrap takes 1 from the second sum. */
  lemma WrapsAreOnes(s1: nat) returns (m: nat)
    ensures s1 == 255 * m + s1 / 0x1_0000_0000 + s1 % 0x1_0000_0000 % 255
  {
    var q, r := s1 / 0x1_0000_0000, s1 % 0x1_0000_0000;
    m := 16843009 * q + r / 255;
    assert s1 == 0x1_0000_0000 * q + r;
    assert r == 255 * (r / 255) + r % 255;
  }

  /** A PDU completed with the generated octets. */
  function Completed(pdu: seq<Byte>, at: nat, checksum: U16): seq<Byte>
    requires at + 1 < |pdu|
  {
    pdu[at := checksum / 256][at + 1 := checksum % 256]
  }

  /**
   The generated octets make both sums vanish if and only if neither
   `mul - c0 - c1` nor `c1 - mul` is negative and congruent to 1 modulo 255, and
   the 32-bit second sum wrapped a multiple of 255 times.
   */
  lemma CompletedVerifiesIff(pdu: seq<Byte>, at: nat)
    requires at + 1 < |pdu|
    ensures Verifies(Completed(pdu, at, Generated(pdu, at))) <==> Sound(pdu, at)
  {
    hide Sum0, Sum1, XOf, YOf, Misses;
    var checksum := Generated(pdu, at);
    var c: seq<Byte>, k: nat := Cleared(pdu, at), |pdu| - at;
    var s0, s1 := Sum0(c), Sum1(c);
    var c0, c1 := s0 % 255, Kept1(c);
    var mul := k * c0;
    var x: Byte, y: Byte := XOf(mul, c0, c1) % 256, YOf(mul, c1) % 256;
    var i := XOctet(mul, c0, c1);
    var j := YOctet(mul, c1);
    var dx, dy := if Misses(mul - c0 - c1) then 1 else 0, if Misses(c1 - mul) then 1 else 0;
    assert checksum / 256 == x && checksum % 256 == y;
    assert Completed(pdu, at, checksum) == c[at := x][at + 1 := y];
    SumsReplace(c, at, x, y);
    var m := WrapsAreOnes(s1);
    BothVanishIff(k, s0, s1, m, Wraps(c), c0, c1, x, y, i, j, dx, dy);
  }

  /** 5900 octets of 255 before the field make the second sum wrap once. */
  lemma WrappedCounterexample()
    ensures var c := Repeated(5900) + [0, 0];
      c == Cleared(c, 5900) && Wraps(c) == 1 && !Verifies(Completed(c, 5900, Generated(c, 5900)))
  {
    hide Sum0, Sum1, XOf, YOf, Verifies, Completed, Misses;
    var r := Repeated(5900);
    var c := r + [0, 0];
    RepeatedSums(5900);
    assert c[..5900] == r && c[..5902] == c;
    SumsStep(c, 5900);
    SumsStep(c, 5901);
    assert Sum1(c) == Sum1(r) + 2 * Sum0(r);
    assert c == Cleared(c, 5900);
    CompletedVerifiesIff(c, 5900);
  }

  function Repeated(n: nat): (s: seq<Byte>)
    ensures |s| == n
  {
    if n == 0 then [] else Repeated(n - 1) + [255]
  }

  lemma {:induction false} RepeatedSums(n: nat)
    ensures Sum0(Repeated(n)) == 255 * n && 2 * Sum1(Repeated(n)) == 255 * (n * (n + 1))
  {
    if n != 0 {
      RepeatedSums(n - 1);
      assert Repeated(n)[..n - 1] == Repeated(n - 1);
      assert n * (n + 1) == (n - 1) * n + 2 * n;
    }
  }

  /** A four-octet PDU the generator gets wrong: the first octet is one short. */
  lemma ClampedCounterexample()
    ensures var pdu := [254, 1, 0, 0];
      var c := Cleared(pdu, 2);
      && Sum0(c) % 255 == 0 && Sum1(c) % 255 == 254
      && Misses(2 * (Sum0(c) % 255) - Sum0(c) % 255 - Sum1(c) % 255)
      && XOf(0, 0, 254) % 256 == 255 && YOf(0, 254) % 256 == 254
      && !Verifies([254, 1, 255, 254]) && Verifies([254, 1, 1, 254])
  {
    SumsOfFour(254, 1, 0, 0);
    SumsOfFour(254, 1, 255, 254);
    SumsOfFour(254, 1, 1, 254);
  }

  lemma SumsOfFour(a: Byte, b: Byte, c: Byte, d: Byte)
    ensures Sum0([a, b, c, d]) == a + b + c + d
    ensures Sum1([a, b, c, d]) == 4 * a + 3 * b + 2 * c + d
  {
    hide Sum0, Sum1;
    var s := [a, b, c, d];
    SumsOfNothing();
    assert s[..0] == [] && s[..4] == s;
    SumsStep(s, 0);
    SumsStep(s, 1);
    SumsStep(s, 2);
    SumsStep(s, 3);
  }
}
