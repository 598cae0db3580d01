/**
 One's-complement sums (sections 1 and 2 of RFC 1071).  `OnesSum` is the plain
 definition: add 16-bit words with an end-around carry, an odd last octet being
 padded with zero.  `ByteSum` is the carry-free integer sum the fast routines
 reason with.  `Same` says two accumulators denote the same one's-complement
 value: congruent modulo 65535, and both zero or neither.
 */
module OnesComplement {
  import opened Bytes

  function OnesAdd(a: U16, b: U16): U16 {
    if a + b > 65535 then a + b - 65535 else a + b
  }

  function OnesSum(order: ByteOrder, s: seq<Byte>): U16 {
    if |s| == 0 then 0
    else if |s| == 1 then Word(order, s[0], 0)
    else OnesAdd(Word(order, s[0], s[1]), OnesSum(order, s[2..]))
  }

  /** What an octet adds when it is the first of a word. */
  function Lead(order: ByteOrder, b: Byte): nat {
    if order.LittleEndian? then b else 256 * b
  }

  function ByteSum(order: ByteOrder, s: seq<Byte>): nat
    decreases s
  {
    if s == [] then 0 else Lead(order, s[0]) + ByteSum(order.Flip(), s[1..])
  }

  ghost predicate Same(a: nat, b: nat) {
    && (a == 0 <==> b == 0)
    && exists k :: Differ(a, b, k)
  }

  predicate Differ(a: nat, b: nat, k: int) {
    a == b + 65535 * k
  }

  lemma SameRefl(a: nat)
    ensures Same(a, a)
  {
    assert Differ(a, a, 0);
  }

  lemma SameEq(a: nat, b: nat, c: nat, d: nat)
    requires Same(a, b) && a == c && b == d
    ensures Same(c, d)
  {}

  lemma SameTrans(a: nat, b: nat, c: nat)
    requires Same(a, b) && Same(b, c)
    ensures Same(a, c) && Same(c, a)
  {
    var k :| Differ(a, b, k);
    var l :| Differ(b, c, l);
    assert Differ(a, c, k + l) && Differ(c, a, -k - l);
  }

  lemma SameAdd(a: nat, b: nat, c: nat, d: nat)
    requires Same(a, b) && Same(c, d)
    ensures Same(a + c, b + d)
  {
    var k :| Differ(a, b, k);
    var l :| Differ(c, d, l);
    assert Differ(a + c, b + d, k + l);
  }

  lemma SamePlus(a: nat, b: nat, c: nat)
    requires Same(a, b)
    ensures Same(a + c, b + c)
  {
    SameRefl(c);
    SameAdd(a, b, c, c);
  }

  lemma SameScale(a: nat, b: nat)
    requires Same(a, b)
    ensures Same(256 * a, 256 * b)
  {
    var k :| Differ(a, b, k);
    assert Differ(256 * a, 256 * b, 256 * k);
  }

  lemma SameUnique(a: U16, b: U16)
    requires Same(a, b)
    ensures a == b
  {}

  /** Shifting by a whole word changes nothing: 2^16 is 1 modulo 2^16 - 1. */
  lemma SameShift16(a: nat)
    ensures Same(65536 * a, a)
  {
    assert Differ(65536 * a, a, a);
  }

  lemma SameOnesAdd(a: U16, x: nat, w: U16)
    requires Same(a, x)
    ensures Same(OnesAdd(w, a), w + x)
  {
    var k :| Differ(a, x, k);
    assert Differ(OnesAdd(w, a), w + x, if a + w > 65535 then k - 1 else k);
  }

  /** Splitting after an even number of octets. */
  lemma {:induction false} ByteSumEven(order: ByteOrder, a: seq<Byte>, b: seq<Byte>)
    requires |a| % 2 == 0
    ensures ByteSum(order, a + b) == ByteSum(order, a) + ByteSum(order, b)
    decreases a
  {
    if a == [] {
      assert a + b == b;
    } else {
      assert (a + b)[1..] == a[1..] + b;
      ByteSumOdd(order.Flip(), a[1..], b);
    }
  }

  /** Splitting after an odd number of octets flips the byte order of the second part. */
  lemma {:induction false} ByteSumOdd(order: ByteOrder, a: seq<Byte>, b: seq<Byte>)
    requires |a| % 2 == 1
    ensures ByteSum(order, a + b) == ByteSum(order, a) + ByteSum(order.Flip(), b)
    decreases a
  {
    assert (a + b)[1..] == a[1..] + b;
    ByteSumEven(order.Flip(), a[1..], b);
  }

  lemma ByteSumShort(order: ByteOrder, s: seq<Byte>)
    requires |s| <= 1
    ensures ByteSum(order, s) == if |s| == 1 then Lead(order, s[0]) else 0
  {}

  lemma ByteSumWord(order: ByteOrder, s: seq<Byte>)
    requires |s| == 2
    ensures ByteSum(order, s) == Word(order, s[0], s[1])
  {
    ByteSumShort(order.Flip(), s[1..]);
  }

  /** Swapping the bytes of every word multiplies the sum by 256 (RFC 1071, section 2(B)). */
  lemma {:induction false} ByteSumFlip(order: ByteOrder, s: seq<Byte>)
    ensures Same(256 * ByteSum(order, s), ByteSum(order.Flip(), s))
    decreases s
  {
    if s == [] {
      SameRefl(0);
    } else {
      ByteSumFlip(order.Flip(), s[1..]);
      var b: nat := s[0];
      SameRefl(256 * b);
      SameShift16(b);
      SameAdd(256 * Lead(order, b), Lead(order.Flip(), b),
        256 * ByteSum(order.Flip(), s[1..]), ByteSum(order, s[1..]));
    }
  }

  lemma {:induction false} OnesSumIsByteSum(order: ByteOrder, s: seq<Byte>)
    ensures Same(OnesSum(order, s), ByteSum(order, s))
  {
    SameRefl(ByteSum(order, s));
    if |s| > 1 {
      OnesSumIsByteSum(order, s[2..]);
      SameOnesAdd(OnesSum(order, s[2..]), ByteSum(order, s[2..]), Word(order, s[0], s[1]));
      assert s == s[..2] + s[2..];
      ByteSumEven(order, s[..2], s[2..]);
      ByteSumWord(order, s[..2]);
    }
  }

  lemma FlipVerifies(order: ByteOrder, s: seq<Byte>)
    requires OnesSum(order, s) == 65535
    ensures OnesSum(order.Flip(), s) == 65535
  {
    var x, y := ByteSum(order, s), ByteSum(order.Flip(), s);
    OnesSumIsByteSum(order, s);
    OnesSumIsByteSum(order.Flip(), s);
    SameScale(65535, x);
    ByteSumFlip(order, s);
    SameTrans(256 * 65535, 256 * x, y);
    assert Differ(256 * 65535, 65535, 255);
    SameTrans(y, 256 * 65535, 65535);
    SameTrans(OnesSum(order.Flip(), s), y, 65535);
    SameUnique(OnesSum(order.Flip(), s), 65535);
  }

  /** Either byte order verifies exactly the same data. */
  lemma VerifiesInEitherOrder(s: seq<Byte>)
    ensures OnesSum(LittleEndian, s) == 65535 <==> OnesSum(BigEndian, s) == 65535
  {
    if OnesSum(LittleEndian, s) == 65535 {
      FlipVerifies(LittleEndian, s);
    }
    if OnesSum(BigEndian, s) == 65535 {
      FlipVerifies(BigEndian, s);
    }
  }

  /** Storing a word at an even offset changes the sum by exactly the difference of the words. */
  lemma ByteSumReplaceWord(order: ByteOrder, s: seq<Byte>, at: nat, first: Byte, second: Byte)
    requires at % 2 == 0 && at + 1 < |s|
    ensures ByteSum(order, s[at := first][at + 1 := second]) + Word(order, s[at], s[at + 1])
         == ByteSum(order, s) + Word(order, first, second)
  {
    var t := s[at := first][at + 1 := second];
    ByteSumAround(order, s, at);
    ByteSumAround(order, t, at);
    assert t[..at] == s[..at] && t[at + 2..] == s[at + 2..];
  }

  lemma ByteSumAround(order: ByteOrder, s: seq<Byte>, at: nat)
    requires at % 2 == 0 && at + 1 < |s|
    ensures ByteSum(order, s) == ByteSum(order, s[..at]) + Word(order, s[at], s[at + 1]) + ByteSum(order, s[at + 2..])
  {
    var w := [s[at], s[at + 1]];
    assert s == s[..at] + (w + s[at + 2..]);
    ByteSumEven(order, s[..at], w + s[at + 2..]);
    ByteSumEven(order, w, s[at + 2..]);
    ByteSumWord(order, w);
  }

  /** Summing without swapping gives the swapped sum (RFC 1071, section 2(B)). */
  lemma SumInNetworkOrder(order: ByteOrder, s: seq<Byte>)
    ensures SwapToNetwork(order, OnesSum(order, s)) == OnesSum(BigEndian, s)
  {
    if order.LittleEndian? {
      var x: nat, y, v, w := OnesSum(LittleEndian, s), OnesSum(BigEndian, s), ByteSum(LittleEndian, s), ByteSum(BigEndian, s);
      OnesSumIsByteSum(LittleEndian, s);
      OnesSumIsByteSum(BigEndian, s);
      SwapSame(x, y, v, w) by { ByteSumFlip(LittleEndian, s); }
    }
  }

  lemma SwapSame(x: U16, y: U16, v: nat, w: nat)
    requires Same(x, v) && Same(y, w) && Same(256 * v, w)
    ensures SwapToNetwork(LittleEndian, x) == y
  {
    var z: nat := SwapToNetwork(LittleEndian, x);
    var n: nat := x;
    assert Differ(z, 256 * n, -(x / 256));
    SameScale(x, v);
    SameTrans(256 * n, 256 * v, w);
    SameTrans(z, 256 * n, w);
    SameMeets(z, y, w);
  }

  lemma SameMeets(a: U16, b: U16, total: nat)
    requires Same(a, total) && Same(b, total)
    ensures a == b
  {
    SameTrans(b, total, total) by { SameRefl(total); }
    SameTrans(a, total, b);
    SameUnique(a, b);
  }

  /** The one's-complement value 65535 is the one every non-zero multiple of 65535 shows. */
  lemma SumIsAllOnes(order: ByteOrder, s: seq<Byte>, k: int)
    requires ByteSum(order, s) != 0 && ByteSum(order, s) == 65535 * k
    ensures OnesSum(order, s) == 65535
  {
    OnesSumIsByteSum(order, s);
    assert Differ(65535, ByteSum(order, s), 1 - k);
    SameMeets(OnesSum(order, s), 65535, ByteSum(order, s));
  }

  /** Data and checksum field verify in both byte orders. */
  ghost predicate Verifies(s: seq<Byte>) {
    OnesSum(LittleEndian, s) == 65535 && OnesSum(BigEndian, s) == 65535
  }

  /** Any field value that cancels the sum of everything else, the two zeros aside, makes the data verify. */
  lemma CancellingFieldVerifies(s: seq<Byte>, at: nat, value: U16, k: int)
    requires at % 2 == 0 && at + 1 < |s|
    requires ByteSum(BigEndian, s) - Word(BigEndian, s[at], s[at + 1]) + value == 65535 * k
    requires ByteSum(BigEndian, s) != Word(BigEndian, s[at], s[at + 1]) || value != 0
    ensures Verifies(s[at := value / 256][at + 1 := value % 256])
  {
    hide ByteSum, OnesSum;
    var t := s[at := value / 256][at + 1 := value % 256];
    ByteSumAround(BigEndian, s, at);
    ByteSumReplaceWord(BigEndian, s, at, value / 256, value % 256);
    SumIsAllOnes(BigEndian, t, k);
    VerifiesInEitherOrder(t);
  }

  /** Sums of consecutive parts add, the first of even length. */
  lemma OnesSumConcat(order: ByteOrder, a: seq<Byte>, b: seq<Byte>)
    requires |a| % 2 == 0
    ensures OnesSum(order, a + b) == OnesAdd(OnesSum(order, a), OnesSum(order, b))
  {
    hide OnesSum, ByteSum, Same;
    var x, y := OnesSum(order, a), OnesSum(order, b);
    OnesSumIsByteSum(order, a);
    OnesSumIsByteSum(order, b);
    OnesSumIsByteSum(order, a + b);
    ByteSumEven(order, a, b);
    SameOnesAdd(x, ByteSum(order, a), y);
    SamePlus(y, ByteSum(order, b), ByteSum(order, a));
    SameEq(y + ByteSum(order, a), ByteSum(order, b) + ByteSum(order, a),
      ByteSum(order, a) + y, ByteSum(order, a + b));
    SameTrans(OnesAdd(x, y), ByteSum(order, a) + y, ByteSum(order, a + b));
    SameMeets(OnesAdd(x, y), OnesSum(order, a + b), ByteSum(order, a + b));
  }

  /** One of the two representations of zero. */
  predicate SumsToZero(s: seq<Byte>) {
    OnesSum(BigEndian, s) == 0 || OnesSum(BigEndian, s) == 65535
  }

  lemma ZeroInEitherOrder(order: ByteOrder, s: seq<Byte>)
    ensures SumsToZero(s) <==> OnesSum(order, s) == 0 || OnesSum(order, s) == 65535
  {
    hide OnesSum;
    SumInNetworkOrder(order, s);
  }

  /** Data that verifies still does with more behind it exactly when the addition sums to zero. */
  lemma VerifiesWithMore(a: seq<Byte>, b: seq<Byte>)
    requires |a| % 2 == 0 && Verifies(a)
    ensures Verifies(a + b) <==> SumsToZero(b)
  {
    hide OnesSum;
    OnesSumConcat(LittleEndian, a, b);
    OnesSumConcat(BigEndian, a, b);
    ZeroInEitherOrder(LittleEndian, b);
  }
}
