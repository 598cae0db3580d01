/**
 The radiotap presence word of tcpdump/print-802_11.c: which bits the loop of
 `print_in_radiotap_namespace` visits, and what it reads for each of them.
 */
module Radiotap {
  import opened Bytes
  import opened Cpack

  // ---- Bit numbers ----

  /** The `BITNO_*` macros. */
  function Bitno2(x: bv32): nat { if x & 2 != 0 then 1 else 0 }

  function Bitno4(x: bv32): nat { if x >> 2 != 0 then 2 + Bitno2(x >> 2) else Bitno2(x) }

  function Bitno8(x: bv32): nat { if x >> 4 != 0 then 4 + Bitno4(x >> 4) else Bitno4(x) }

  function Bitno16(x: bv32): nat { if x >> 8 != 0 then 8 + Bitno8(x >> 8) else Bitno8(x) }

  function Bitno32(x: bv32): nat { if x >> 16 != 0 then 16 + Bitno16(x >> 16) else Bitno16(x) }

  predicate Odd(x: bv32) {
    x & 1 != 0
  }

  function Half(x: bv32): bv32 {
    x >> 1
  }

  function Double(x: bv32): bv32 {
    x << 1
  }

  function And(x: bv32, y: bv32): bv32 {
    x & y
  }

  function Xor(x: bv32, y: bv32): bv32 {
    x ^ y
  }

  function Pred(x: bv32): bv32 {
    x - 1
  }

  /** `present & (present - 1)`. */
  function ClearLowest(x: bv32): bv32 {
    And(x, Pred(x))
  }

  /** `present ^ next_present`. */
  function Isolate(x: bv32): bv32 {
    Xor(x, ClearLowest(x))
  }

  lemma HalfIsLess(x: bv32)
    requires x != 0
    ensures Half(x) < x
  {}

  /** The set bits of a word, the lowest numbered `k`, in ascending order. */
  function SetBits(x: bv32, k: nat): seq<nat>
    decreases x
  {
    if x == 0 then []
    else
      HalfIsLess(x);
      (if Odd(x) then [k] else []) + SetBits(Half(x), k + 1)
  }

  function Lowest(x: bv32): nat
    requires x != 0
    decreases x
  {
    HalfIsLess(x);
    if Odd(x) then 0
    else
      EvenHalf(x);
      1 + Lowest(Half(x))
  }

  lemma EvenHalf(x: bv32)
    requires x != 0 && !Odd(x)
    ensures Half(x) != 0 && Double(Half(x)) == x && Half(x) < 0x80000000
  {}

  function DoublePlusOne(x: bv32): bv32 {
    (x << 1) | 1
  }

  lemma PredDouble(h: bv32)
    ensures Pred(Double(h)) == DoublePlusOne(Pred(h))
  {}

  lemma AndDouble(h: bv32, d: bv32)
    requires h < 0x80000000
    ensures And(Double(h), DoublePlusOne(d)) == Double(And(h, d))
  {}

  lemma HalfDouble(h: bv32, d: bv32)
    requires h < 0x80000000
    ensures Half(Double(And(h, d))) == And(h, d) && !Odd(Double(And(h, d)))
  {}

  lemma XorDouble(h: bv32, d: bv32)
    ensures Xor(Double(h), Double(d)) == Double(Xor(h, d))
  {}

  lemma DoubleStep(h: bv32)
    requires h < 0x80000000
    ensures Half(ClearLowest(Double(h))) == ClearLowest(h) && !Odd(ClearLowest(Double(h)))
    ensures Isolate(Double(h)) == Double(Isolate(h))
  {
    hide Half, Double, And, Pred, Xor, Odd, DoublePlusOne;
    PredDouble(h);
    AndDouble(h, Pred(h));
    HalfDouble(h, Pred(h));
    XorDouble(h, And(h, Pred(h)));
  }

  /** On an even word the tricks commute with halving. */
  lemma EvenStep(x: bv32)
    requires x != 0 && !Odd(x)
    ensures Half(x) != 0 && Half(ClearLowest(x)) == ClearLowest(Half(x)) && !Odd(ClearLowest(x))
    ensures Isolate(x) == Double(Isolate(Half(x)))
  {
    hide Odd, Half, ClearLowest, Isolate, Double;
    EvenHalf(x);
    DoubleStep(Half(x));
  }

  lemma PredOdd(x: bv32)
    requires Odd(x)
    ensures Pred(x) == Xor(x, 1)
  {}

  lemma AndOdd(x: bv32)
    requires Odd(x)
    ensures And(x, Xor(x, 1)) == Xor(x, 1) && Xor(x, Xor(x, 1)) == 1
  {}

  lemma HalfOdd(x: bv32)
    requires Odd(x)
    ensures Half(Xor(x, 1)) == Half(x) && !Odd(Xor(x, 1))
  {}

  lemma OddStep(x: bv32)
    requires Odd(x)
    ensures Half(ClearLowest(x)) == Half(x) && !Odd(ClearLowest(x)) && Isolate(x) == 1
  {
    hide Half, And, Pred, Xor, Odd;
    PredOdd(x);
    AndOdd(x);
    HalfOdd(x);
  }

  lemma SkipEven(x: bv32, k: nat)
    requires !Odd(x)
    ensures SetBits(x, k) == SetBits(Half(x), k + 1)
  {
    if x == 0 {
      assert Half(x) == 0;
    }
  }

  /** Clearing the lowest set bit removes exactly the head of the list. */
  lemma {:induction false} ClearRemovesHead(x: bv32, k: nat)
    requires x != 0
    ensures SetBits(x, k) == [k + Lowest(x)] + SetBits(ClearLowest(x), k)
    decreases x
  {
    hide Odd, Half, ClearLowest;
    HalfIsLess(x);
    if Odd(x) {
      OddStep(x);
    } else {
      EvenStep(x);
      ClearRemovesHead(Half(x), k + 1);
    }
    SkipEven(ClearLowest(x), k);
  }

  function Power(k: nat): bv32 {
    if k == 0 then 1 else Double(Power(k - 1))
  }

  lemma {:induction false} IsolatesLowest(x: bv32)
    requires x != 0
    ensures Isolate(x) == Power(Lowest(x))
    decreases x
  {
    hide Odd, Half, ClearLowest, Isolate, Double;
    HalfIsLess(x);
    if Odd(x) {
      OddStep(x);
    } else {
      EvenStep(x);
      IsolatesLowest(Half(x));
    }
  }

  lemma LastPower()
    ensures Power(31) == 0x80000000
  {
    assert Power(8) == 0x100;
    assert Power(16) == 0x10000;
    assert Power(24) == 0x1000000;
  }

  lemma {:induction false} PowerOverflows(k: nat)
    requires k >= 32
    ensures Power(k) == 0
  {
    if k == 32 {
      LastPower();
    } else {
      PowerOverflows(k - 1);
    }
  }

  lemma RawIsolate(x: bv32)
    requires x != 0
    ensures x ^ (x & (x - 1)) != 0
  {}

  lemma LowestBound(x: bv32)
    requires x != 0
    ensures Lowest(x) < 32
  {
    RawIsolate(x);
    IsolatesLowest(x);
    if Lowest(x) >= 32 {
      PowerOverflows(Lowest(x));
    }
  }

  /** `BITNO_32` of a single bit is its number. */
  lemma BitnoOfPower(k: nat)
    requires k < 32
    ensures Bitno32(Power(k)) == k
  {
    if k == 0 { assert Power(0) == 0x1; }
    else if k == 1 { assert Power(1) == 0x2; }
    else if k == 2 { assert Power(2) == 0x4; }
    else if k == 3 { assert Power(3) == 0x8; }
    else if k == 4 { assert Power(4) == 0x10; }
    else if k == 5 { assert Power(5) == 0x20; }
    else if k == 6 { assert Power(6) == 0x40; }
    else if k == 7 { assert Power(7) == 0x80; }
    else if k == 8 { assert Power(8) == 0x100; }
    else if k == 9 { assert Power(9) == 0x200; }
    else if k == 10 { assert Power(10) == 0x400; }
    else if k == 11 { assert Power(11) == 0x800; }
    else if k == 12 { assert Power(12) == 0x1000; }
    else if k == 13 { assert Power(13) == 0x2000; }
    else if k == 14 { assert Power(14) == 0x4000; }
    else if k == 15 { assert Power(15) == 0x8000; }
    else if k == 16 { assert Power(16) == 0x10000; }
    else if k == 17 { assert Power(17) == 0x20000; }
    else if k == 18 { assert Power(18) == 0x40000; }
    else if k == 19 { assert Power(19) == 0x80000; }
    else if k == 20 { assert Power(20) == 0x100000; }
    else if k == 21 { assert Power(21) == 0x200000; }
    else if k == 22 { assert Power(22) == 0x400000; }
    else if k == 23 { assert Power(23) == 0x800000; }
    else if k == 24 { assert Power(24) == 0x1000000; }
    else if k == 25 { assert Power(25) == 0x2000000; }
    else if k == 26 { assert Power(26) == 0x4000000; }
    else if k == 27 { assert Power(27) == 0x8000000; }
    else if k == 28 { assert Power(28) == 0x10000000; }
    else if k == 29 { assert Power(29) == 0x20000000; }
    else if k == 30 { assert Power(30) == 0x40000000; }
    else if k == 31 { assert Power(31) == 0x80000000; }
  }

  /** The bit number the loop computes is the number of the lowest set bit. */
  lemma BitnoIsLowest(x: bv32)
    requires x != 0
    ensures Bitno32(Isolate(x)) == Lowest(x) < 32
  {
    hide Isolate, Power, Bitno32;
    LowestBound(x);
    IsolatesLowest(x);
    BitnoOfPower(Lowest(x));
  }

  // ---- The fields ----

  const NAMESPACE := 29

  /** The reads of `print_radiotap_field` for a bit; nothing for a bit whose field it does not know. */
  function Shape(bit: nat): Option<seq<Kind>> {
    var u8, s8, u16, s16 := Kind(1, false), Kind(1, true), Kind(2, false), Kind(2, true);
    var u32, u64 := Kind(4, false), Kind(8, false);
    match bit
    case 0 => Some([u64])
    case 1 => Some([u8])
    case 2 => Some([u8])
    case 3 => Some([u16, u16])
    case 4 => Some([u8, u8])
    case 5 => Some([s8])
    case 6 => Some([s8])
    case 7 => Some([u16])
    case 8 => Some([s16])
    case 9 => Some([s8])
    case 10 => Some([s8])
    case 11 => Some([u8])
    case 12 => Some([u8])
    case 13 => Some([u8])
    case 14 => Some([u16])
    case 18 => Some([u32, u16, u8, u8])
    case 19 => Some([u8, u8, u8])
    case 20 => Some([u32, u16, u8, u8])
    case 21 => Some([u16, u8, u8, u8, u8, u8, u8, u8, u8, u16])
    case _ => None
  }

  lemma ShapesAreKnown(bit: nat)
    ensures Shape(bit).Some? ==> forall k :: k in Shape(bit).value ==> Known(k)
  {}

  /** What one field shows: its values, and whether all of them could be read. */
  datatype Shown = Shown(bit: nat, values: seq<int>, whole: bool)

  /** One field at `pos`: what is shown and where the cursor is left. */
  function ShowField(buf: seq<Byte>, pos: nat, bit: nat): (Shown, nat) {
    match Shape(bit)
    case None => (Shown(bit, [], false), pos)
    case Some(kinds) =>
      ShapesAreKnown(bit);
      var (values, end) := ReadFields(buf, pos, kinds);
      (Shown(bit, values, |values| == |kinds|), end)
  }

  /** The fields of a list of bits, up to and including the first that fails. */
  function ShowBits(buf: seq<Byte>, pos: nat, bits: seq<nat>, bit0: nat): (seq<Shown>, nat)
    decreases |bits|
  {
    if bits == [] then ([], pos)
    else
      var (one, next) := ShowField(buf, pos, bit0 + bits[0]);
      if !one.whole then ([one], next)
      else
        var (rest, end) := ShowBits(buf, next, bits[1..], bit0);
        ([one] + rest, end)
  }

  /** The bits below the namespace bits. */
  function Below(bits: seq<nat>): seq<nat> {
    if bits == [] || bits[0] >= NAMESPACE then [] else [bits[0]] + Below(bits[1..])
  }

  /** `print_radiotap_field`. */
  method PrintField(s: CpackState, bit: nat) returns (rc: int, shown: Shown)
    requires s.Valid()
    modifies s
    ensures s.Valid() && (shown, s.next) == ShowField(s.buf, old(s.next), bit)
    ensures rc == 0 <==> shown.whole
  {
    hide Shape, ReadField;
    ShapesAreKnown(bit);
    var shape := Shape(bit);
    if shape == None {
      return -1, Shown(bit, [], false);
    }
    var kinds := shape.value;
    var values: seq<int> := [];
    ghost var (all, end) := ReadFields(s.buf, s.next, kinds);
    assert kinds[0..] == kinds && [] + all == all;
    for i := 0 to |kinds|
      invariant s.Valid() && |values| == i
      invariant all == values + ReadFields(s.buf, s.next, kinds[i..]).0 && end == ReadFields(s.buf, s.next, kinds[i..]).1
    {
      var one, v := s.Unpack(kinds[i]);
      if one != 0 {
        assert all == values;
        return one, Shown(bit, values, false);
      }
      ghost var rest := ReadFields(s.buf, s.next, kinds[i + 1..]).0;
      assert kinds[i..][1..] == kinds[i + 1..];
      assert values + ([v] + rest) == values + [v] + rest;
      values := values + [v];
    }
    assert all == values;
    rc, shown := 0, Shown(bit, values, true);
  }

  /**
   `print_in_radiotap_namespace`: it visits the set bits below the namespace bits,
   each once and in ascending order, until a field fails.
   */
  method PrintInNamespace(s: CpackState, presentflags: bv32, bit0: nat) returns (rc: int, shown: seq<Shown>)
    requires s.Valid()
    modifies s
    ensures s.Valid()
    ensures (shown, s.next) == ShowBits(s.buf, old(s.next), Below(SetBits(presentflags, 0)), bit0)
    ensures rc == 0 <==> forall i :: 0 <= i < |shown| ==> shown[i].whole
  {
    hide SetBits, ShowField, ClearLowest, Isolate, Bitno32, Lowest, Below, ShowBits;
    shown := [];
    var present := presentflags;
    ghost var (all, end) := ShowBits(s.buf, s.next, Below(SetBits(present, 0)), bit0);
    assert [] + all == all;
    while present != 0
      invariant s.Valid()
      invariant forall i :: 0 <= i < |shown| ==> shown[i].whole
      invariant var (rest, stop) := ShowBits(s.buf, s.next, Below(SetBits(present, 0)), bit0);
        all == shown + rest && end == stop
      decreases |SetBits(present, 0)|
    {
      var nextPresent := ClearLowest(present);
      var bitno := Bitno32(Isolate(present));
      BitnoIsLowest(present);
      ClearRemovesHead(present, 0);
      ghost var after := SetBits(nextPresent, 0);
      BelowHead(bitno, after);
      if bitno >= NAMESPACE {
        break;
      }
      ghost var left := Below(after);
      ShowHead(s.buf, s.next, bitno, left, bit0);
      var one;
      rc, one := PrintField(s, bit0 + bitno);
      if rc != 0 {
        assert all == shown + [one];
        shown := shown + [one];
        assert !shown[|shown| - 1].whole;
        return;
      }
      ghost var rest := ShowBits(s.buf, s.next, left, bit0).0;
      assert shown + ([one] + rest) == shown + [one] + rest;
      shown := shown + [one];
      present := nextPresent;
    }
    NoBits(s.buf, s.next, bit0);
    assert all == shown;
    rc := 0;
  }

  lemma NoBits(buf: seq<Byte>, pos: nat, bit0: nat)
    ensures SetBits(0, 0) == [] && Below([]) == [] && ShowBits(buf, pos, [], bit0) == ([], pos)
  {}

  lemma BelowHead(bit: nat, after: seq<nat>)
    ensures Below([bit] + after) == if bit >= NAMESPACE then [] else [bit] + Below(after)
  {
    assert ([bit] + after)[1..] == after;
  }

  lemma ShowHead(buf: seq<Byte>, pos: nat, bit: nat, left: seq<nat>, bit0: nat)
    ensures var (one, next) := ShowField(buf, pos, bit0 + bit);
      var (rest, end) := ShowBits(buf, next, left, bit0);
      ShowBits(buf, pos, [bit] + left, bit0) == if one.whole then ([one] + rest, end) else ([one], next)
  {
    assert ([bit] + left)[1..] == left;
  }

  // ---- What the walk amounts to ----

  /** Bit number `i` of a word. */
  predicate BitAt(x: bv32, i: nat) {
    if i == 0 then Odd(x) else BitAt(Half(x), i - 1)
  }

  lemma {:induction false} NoBitOfZero(i: nat)
    ensures !BitAt(0, i)
  {
    if i != 0 {
      NoBitOfZero(i - 1);
      assert Half(0) == 0;
    }
  }

  lemma SetBitsStep(x: bv32, k: nat)
    requires x != 0
    ensures SetBits(x, k) == (if Odd(x) then [k] else []) + SetBits(Half(x), k + 1)
  {}

  lemma {:induction false} SetBitsFrom(x: bv32, k: nat)
    ensures forall j :: j in SetBits(x, k) ==> k <= j
    decreases x
  {
    hide Odd, Half;
    if x != 0 {
      HalfIsLess(x);
      SetBitsFrom(Half(x), k + 1);
    }
  }

  /** The list holds exactly the set bits. */
  lemma {:induction false} SetBitsExact(x: bv32, k: nat, i: nat)
    ensures k + i in SetBits(x, k) <==> BitAt(x, i)
    decreases x, i
  {
    hide Odd, Half, SetBits;
    if x == 0 {
      NoBitOfZero(i);
      EmptyList(k);
    } else {
      HalfIsLess(x);
      SetBitsStep(x, k);
      SetBitsFrom(Half(x), k + 1);
      if i != 0 {
        SetBitsExact(Half(x), k + 1, i - 1);
        assert k + 1 + (i - 1) == k + i;
      }
    }
  }

  lemma EmptyList(k: nat)
    ensures SetBits(0, k) == []
  {}

  /** In strictly ascending order. */
  lemma {:induction false} SetBitsAscend(x: bv32, k: nat)
    ensures forall i, j :: 0 <= i < j < |SetBits(x, k)| ==> SetBits(x, k)[i] < SetBits(x, k)[j]
    decreases x
  {
    hide Odd, Half;
    if x != 0 {
      HalfIsLess(x);
      SetBitsAscend(Half(x), k + 1);
      SetBitsFrom(Half(x), k + 1);
      var rest := SetBits(Half(x), k + 1);
      assert forall j :: 0 <= j < |rest| ==> rest[j] in rest;
    }
  }

  lemma {:induction false} BelowKeeps(bits: seq<nat>, i: nat)
    requires forall j, k :: 0 <= j < k < |bits| ==> bits[j] < bits[k]
    ensures i in Below(bits) <==> i in bits && i < NAMESPACE
  {
    if bits != [] {
      BelowKeeps(bits[1..], i);
      assert forall k :: 1 <= k < |bits| ==> bits[0] < bits[k];
    }
  }

  /** The bits visited are exactly the set bits below 29. */
  lemma VisitedExactly(x: bv32, i: nat)
    ensures i in Below(SetBits(x, 0)) <==> BitAt(x, i) && i < NAMESPACE
  {
    hide SetBits, BitAt, Below;
    SetBitsAscend(x, 0);
    SetBitsExact(x, 0, i);
    BelowKeeps(SetBits(x, 0), i);
  }

  /** Each bit's field has known reads, and the buffer holds its values, one field after another. */
  ghost predicate Carries(buf: seq<Byte>, pos: nat, bits: seq<nat>, bit0: nat, fields: seq<seq<Field>>, ends: seq<nat>)
    requires |bits| == |fields| == |ends|
    decreases |bits|
  {
    bits != [] ==>
      && Shape(bit0 + bits[0]).Some?
      && (forall f :: f in fields[0] ==> Sound(f))
      && Kinds(fields[0]) == Shape(bit0 + bits[0]).value
      && LaidOut(buf, pos, fields[0], ends[0])
      && Carries(buf, ends[0], bits[1..], bit0, fields[1..], ends[1..])
  }

  /** A header laid out for its presence word is read back whole: every field, every value, to the end. */
  lemma {:induction false} HeaderReadBack(buf: seq<Byte>, pos: nat, bits: seq<nat>, bit0: nat, fields: seq<seq<Field>>, ends: seq<nat>)
    requires |bits| == |fields| == |ends| && Carries(buf, pos, bits, bit0, fields, ends)
    ensures var (shown, end) := ShowBits(buf, pos, bits, bit0);
      && |shown| == |bits| && end == (if ends == [] then pos else ends[|ends| - 1])
      && forall i :: 0 <= i < |bits| ==> shown[i] == Shown(bit0 + bits[i], Values(fields[i]), true)
    decreases |bits|
  {
    hide Shape, LaidOut, ReadFields;
    if bits != [] {
      ReadBack(buf, pos, fields[0], ends[0]);
      HeaderReadBack(buf, ends[0], bits[1..], bit0, fields[1..], ends[1..]);
      assert |Values(fields[0])| == |Shape(bit0 + bits[0]).value|;
    }
  }
}
