/** The checksum the kernel module writes (kmod/pval_main.c, from netmap's pkt-gen). */
module PvalChecksum {
  import opened Bytes
  import opened OnesComplement

  /** The first word that is added, if any. */
  function FirstWord(d: seq<Byte>): nat {
    if |d| == 0 then 0 else if |d| == 1 then 256 * d[0] as int else Word(BigEndian, d[0], d[1])
  }

  /** What the 32-bit accumulator drops: only the first addition to a very large initial sum can wrap. */
  function Lost(sum0: U32, d: seq<Byte>): nat {
    if sum0 + FirstWord(d) >= 0x1_0000_0000 then 0x1_0000_0000 else 0
  }

  /**
   `checksum`: big-endian words with an eager carry; an odd last octet counts as a
   high byte.  One carry is taken for each word, so an initial sum that is too
   large for that is cut to 16 bits instead of folded.
   */
  method Checksum(order: ByteOrder, data: seq<Byte>, len: U16, sum0: U32) returns (sum: U16)
    requires len <= |data|
    ensures sum0 == 0 ==> sum == OnesSum(BigEndian, data[..len])
    ensures var total, steps := sum0 + ByteSum(BigEndian, data[..len]) - Lost(sum0, data[..len]), (len + 1) / 2;
      && total >= 0
      && if total <= 65535 * (steps + 1) then Same(sum, total) else sum == (total - 65535 * steps) % 65536
  {
    hide ByteSum, Same, OnesSum, Progress, Lost, SwapToNetwork, Word, AddWord;
    ghost var d := data[..len];
    var s: U32 := sum0;
    var i: nat := 0;
    assert d[..0] == [];
    StartProgress(sum0, d);
    while i < len - len % 2
      invariant 0 <= i <= len - len % 2 && i % 2 == 0 && Progress(s, sum0, d, i)
    {
      var w := SwapToNetwork(order, Word(order, data[i], data[i + 1]));
      NextWord(order, d, i);
      WordProgress(order, s, sum0, d, i);
      s := AddWord(s, w);
      i := i + 2;
    }
    if i < len {
      OddProgress(s, sum0, d, i);
      var w: U16 := (data[i] as int) * 256;
      s := AddWord(s, w);
    }
    assert d[..len] == d;
    sum := s % 65536;
    EndProgress(s, sum0, d);
    OnesSumIsByteSum(BigEndian, d);
    if sum0 == 0 {
      ByteSumSteps(BigEndian, d);
      WordIsSmall(d);
      SameMeets(sum, OnesSum(BigEndian, d), ByteSum(BigEndian, d));
    }
  }

  /** The accumulator after `i` octets. */
  ghost predicate Progress(s: U32, sum0: U32, d: seq<Byte>, i: nat)
    requires i <= |d|
  {
    if i == 0 then s == sum0
    else
      && s < 0xFFFF_0001 && Lost(sum0, d) <= sum0 + ByteSum(BigEndian, d[..i])
      && Folded(s, sum0 + ByteSum(BigEndian, d[..i]) - Lost(sum0, d), (i + 1) / 2)
  }

  lemma StartProgress(sum0: U32, d: seq<Byte>)
    ensures Progress(sum0, sum0, d, 0)
  {}

  /** One more word `w`, of one or two octets. */
  lemma StepProgress(s: U32, sum0: U32, d: seq<Byte>, i: nat, next: nat, w: U16)
    requires i % 2 == 0 && i < next <= |d| && next <= i + 2 && Progress(s, sum0, d, i)
    requires ByteSum(BigEndian, d[..next]) == ByteSum(BigEndian, d[..i]) + w && (i == 0 ==> w == FirstWord(d))
    ensures Progress(AddWord(s, w), sum0, d, next)
  {
    hide ByteSum, Folded, Lost, AddWord, FirstWord;
    assert (next + 1) / 2 == (i + 1) / 2 + 1;
    if i == 0 {
      assert d[..0] == [];
      ByteSumShort(BigEndian, d[..0]);
      FirstStep(s, w, d);
    } else {
      FoldedStep(s, sum0 + ByteSum(BigEndian, d[..i]) - Lost(sum0, d), (i + 1) / 2, w);
    }
  }

  lemma WordProgress(order: ByteOrder, s: U32, sum0: U32, d: seq<Byte>, i: nat)
    requires i % 2 == 0 && i + 2 <= |d| && Progress(s, sum0, d, i)
    ensures Progress(AddWord(s, SwapToNetwork(order, Word(order, d[i], d[i + 1]))), sum0, d, i + 2)
  {
    hide ByteSum, Progress, AddWord, SwapToNetwork;
    NextWord(order, d, i);
    LoadedNetwork(order, d[i], d[i + 1]);
    StepProgress(s, sum0, d, i, i + 2, SwapToNetwork(order, Word(order, d[i], d[i + 1])));
  }

  lemma OddProgress(s: U32, sum0: U32, d: seq<Byte>, i: nat)
    requires i % 2 == 0 && i + 1 == |d| && Progress(s, sum0, d, i)
    ensures Progress(AddWord(s, 256 * d[i] as int), sum0, d, |d|)
  {
    hide ByteSum, Progress, AddWord;
    assert d[..i + 1] == d[..i] + [d[i]];
    ByteSumEven(BigEndian, d[..i], [d[i]]);
    ByteSumShort(BigEndian, [d[i]]);
    StepProgress(s, sum0, d, i, i + 1, 256 * d[i] as int);
  }

  lemma EndProgress(s: U32, sum0: U32, d: seq<Byte>)
    requires Progress(s, sum0, d, |d|)
    ensures var total, steps := sum0 + ByteSum(BigEndian, d) - Lost(sum0, d), (|d| + 1) / 2;
      && total >= 0
      && if total <= 65535 * (steps + 1) then Same(s % 65536, total) else s % 65536 == (total - 65535 * steps) % 65536
  {
    hide Same, Folded;
    assert d[..|d|] == d;
    if d == [] {
      FoldedAtStart(sum0);
    }
    FoldedEnds(s, sum0 + ByteSum(BigEndian, d) - Lost(sum0, d), (|d| + 1) / 2);
  }

  lemma WordIsSmall(d: seq<Byte>)
    ensures Lost(0, d) == 0
  {}

  /** The first addition, which alone may wrap. */
  lemma FirstStep(s: U32, w: U16, d: seq<Byte>)
    requires |d| > 0 && w == FirstWord(d)
    ensures Lost(s, d) <= s + w && AddWord(s, w) < 0xFFFF_0001
    ensures Folded(AddWord(s, w), s + w - Lost(s, d), 1)
  {
    hide Same, Folded, FirstWord;
    if s + w >= 0x1_0000_0000 {
      SmallIsFolded(s + w - 0x1_0000_0000, 1);
    } else if s < 0xFFFF_0001 {
      FoldedAtStart(s);
      FoldedStep(s, s, 0, w);
    } else {
      OneCarry(s, w);
    }
  }

  lemma SmallIsFolded(t: nat, steps: nat)
    requires t <= 65535
    ensures Folded(t, t, steps)
  {
    SameRefl(t);
  }

  lemma OneCarry(s: U32, w: U16)
    requires 0xFFFF_0001 <= s && s + w < 0x1_0000_0000
    ensures AddWord(s, w) == s + w - 65535 && Folded(AddWord(s, w), s + w, 1)
  {}

  /** An addition of 32 bits and the test for a carry. */
  function AddWord(s: U32, w: U16): U32 {
    var t: nat := (s as int + w) % 0x1_0000_0000;
    if t > 0xFFFF then t - 0xFFFF else t
  }

  /** After `steps` carries at most, `s` stands for `total`: folded to 16 bits, or still too large by all the carries. */
  ghost predicate Folded(s: nat, total: nat, steps: nat) {
    if s <= 65535 then total <= 65535 * (steps + 1) && Same(s, total) else s + 65535 * steps == total
  }

  lemma FoldedAtStart(s: nat)
    ensures Folded(s, s, 0)
  {
    SameRefl(s);
  }

  lemma FoldedStep(s: U32, total: nat, steps: nat, w: U16)
    requires Folded(s, total, steps) && s < 0xFFFF_0001
    ensures Folded(AddWord(s, w), total + w, steps + 1)
    ensures AddWord(s, w) <= s || AddWord(s, w) <= 65535
  {
    hide Same;
    if s <= 65535 {
      SameOnesAdd(s, total, w);
    } else if s + w - 65535 <= 65535 {
      SameByCarries(s + w - 65535, total + w, steps + 1);
    }
  }

  lemma SameByCarries(a: nat, b: nat, k: nat)
    requires 0 < a && b == a + 65535 * k
    ensures Same(a, b)
  {
    var back: int := -(k as int);
    assert Differ(a, b, back);
  }

  lemma FoldedEnds(s: nat, total: nat, steps: nat)
    requires Folded(s, total, steps)
    ensures if total <= 65535 * (steps + 1) then s <= 65535 && Same(s % 65536, total)
            else s % 65536 == (total - 65535 * steps) % 65536
  {
    hide Same;
  }

  lemma {:induction false} ByteSumSteps(order: ByteOrder, s: seq<Byte>)
    ensures ByteSum(order, s) <= 65535 * ((|s| + 1) / 2)
    decreases |s|
  {
    if |s| <= 1 {
      ByteSumShort(order, s);
    } else {
      var front, rest := s[..2], s[2..];
      assert s == front + rest;
      ByteSumEven(order, front, rest);
      ByteSumWord(order, front);
      ByteSumSteps(order, rest);
    }
  }

  lemma NextWord(order: ByteOrder, d: seq<Byte>, i: nat)
    requires i % 2 == 0 && i + 1 < |d|
    ensures ByteSum(BigEndian, d[..i + 2])
         == ByteSum(BigEndian, d[..i]) + SwapToNetwork(order, Word(order, d[i], d[i + 1]))
  {
    assert d[..i + 2] == d[..i] + [d[i], d[i + 1]];
    ByteSumEven(BigEndian, d[..i], [d[i], d[i + 1]]);
    ByteSumWord(BigEndian, [d[i], d[i + 1]]);
  }

  /** `wrapsum`: the complement, in network byte order. */
  function WrapSum(order: ByteOrder, sum: U16): U16 {
    SwapToNetwork(order, 0xFFFF - sum)
  }

  /** What a header looks like in memory once the checksum has been stored at offset `at`. */
  function Sealed(order: ByteOrder, header: seq<Byte>, at: nat): seq<Byte>
    requires at + 1 < |header|
  {
    var c := Stored(order, WrapSum(order, OnesSum(BigEndian, header)));
    header[at := c.0][at + 1 := c.1]
  }

  /**
   Sender and verifier agree: a header sealed by `wrapsum(checksum(...))` over a
   zeroed field sums to 65535 for a verifier of either byte order.
   */
  lemma SealedVerifies(order: ByteOrder, header: seq<Byte>, at: nat)
    requires at % 2 == 0 && at + 1 < |header| && header[at] == 0 && header[at + 1] == 0
    ensures Verifies(Sealed(order, header, at))
  {
    hide ByteSum, OnesSum, Same, SwapToNetwork, Stored, Verifies;
    var t := OnesSum(BigEndian, header);
    OnesSumIsByteSum(BigEndian, header);
    var k := ComplementCancels(t, ByteSum(BigEndian, header));
    StoredNetwork(order, 65535 - t);
    CancellingFieldVerifies(header, at, 65535 - t, k);
  }

  lemma ComplementCancels(t: U16, total: nat) returns (k: int)
    requires Same(t, total)
    ensures total + 65535 - t == 65535 * k
    ensures total != 0 || t == 0
  {
    var l :| Differ(t, total, l);
    k := 1 - l;
  }
}
