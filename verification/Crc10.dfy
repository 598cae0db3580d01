/**
 The CRC-10 of ATM adaptation layers (tcpdump/checksum.c): a table-driven form
 against bit-by-bit division by x^10 + x^9 + x^5 + x^4 + x + 1 over GF(2).
 */
module Crc10 {

  // ---- One bit at a time ----

  /** Shift one message bit into the remainder and subtract the divisor 0x633 if it fits. */
  function Shift(a: bv16, bit: bool): bv16 {
    var s := if bit then (a << 1) | 1 else a << 1;
    if s & 0x400 != 0 then s ^ 0x633 else s
  }

  predicate On(b: bv16, mask: bv16) {
    b & mask != 0
  }

  /** The bits of an octet, most significant first. */
  function Bits(b: bv16): (s: seq<bool>)
    ensures |s| == 8
  {
    [On(b, 0x80), On(b, 0x40), On(b, 0x20), On(b, 0x10), On(b, 0x08), On(b, 0x04), On(b, 0x02), On(b, 0x01)]
  }

  function Wide(x: bv8): bv16 {
    x as bv16
  }

  function MessageBits(p: seq<bv8>): seq<bool> {
    if p == [] then [] else MessageBits(p[..|p| - 1]) + Bits(Wide(p[|p| - 1]))
  }

  /** The remainder after some message bits, from the remainder `a`. */
  function Divide(a: bv16, bits: seq<bool>): bv16 {
    if bits == [] then a else Shift(Divide(a, bits[..|bits| - 1]), bits[|bits| - 1])
  }

  /** The remainder after one octet. */
  function ShiftByte(a: bv16, b: bv16): bv16 {
    Shift(Shift(Shift(Shift(
      Shift(Shift(Shift(Shift(a, b & 0x80 != 0), b & 0x40 != 0), b & 0x20 != 0), b & 0x10 != 0),
      b & 0x08 != 0), b & 0x04 != 0), b & 0x02 != 0), b & 0x01 != 0)
  }

  lemma {:induction false} DivideConcat(a: bv16, u: seq<bool>, v: seq<bool>)
    ensures Divide(a, u + v) == Divide(Divide(a, u), v)
  {
    hide Shift;
    if v == [] {
      assert u + v == u;
    } else {
      DivideConcat(a, u, v[..|v| - 1]);
      assert (u + v)[..|u + v| - 1] == u + v[..|v| - 1];
    }
  }

  lemma DivideOne(a: bv16, x: bool)
    ensures Divide(a, [x]) == Shift(a, x)
  {
    assert [x][..0] == [];
  }

  lemma ShiftByteIsDivide(a: bv16, b: bv16)
    ensures ShiftByte(a, b) == Divide(a, Bits(b))
  {
    hide Shift;
    var s := Bits(b);
    DivideFour(a, s[0], s[1], s[2], s[3]);
    DivideFour(Divide(a, s[..4]), s[4], s[5], s[6], s[7]);
    assert s[..4] == [s[0], s[1], s[2], s[3]] && s[4..] == [s[4], s[5], s[6], s[7]] && s == s[..4] + s[4..];
    DivideConcat(a, s[..4], s[4..]);
  }

  lemma DivideFour(a: bv16, w: bool, x: bool, y: bool, z: bool)
    ensures Divide(a, [w, x, y, z]) == Shift(Shift(Shift(Shift(a, w), x), y), z)
  {
    hide Shift;
    assert [w, x, y, z][..3] == [w, x, y] && [w, x, y][..2] == [w, x] && [w, x][..1] == [w] && [w][..0] == [];
    DivideOne(a, w);
    assert Divide(a, [w, x]) == Shift(Divide(a, [w]), x);
    assert Divide(a, [w, x, y]) == Shift(Divide(a, [w, x]), y);
  }

  // ---- The table the program is built with ----

  // Sixteen rows of sixteen entries.
  const ROW0: seq<bv16> :=
    [0x000, 0x233, 0x255, 0x066, 0x299, 0x0aa, 0x0cc, 0x2ff, 0x301, 0x132, 0x154, 0x367, 0x198, 0x3ab, 0x3cd, 0x1fe]
  const ROW1: seq<bv16> :=
    [0x031, 0x202, 0x264, 0x057, 0x2a8, 0x09b, 0x0fd, 0x2ce, 0x330, 0x103, 0x165, 0x356, 0x1a9, 0x39a, 0x3fc, 0x1cf]
  const ROW2: seq<bv16> :=
    [0x062, 0x251, 0x237, 0x004, 0x2fb, 0x0c8, 0x0ae, 0x29d, 0x363, 0x150, 0x136, 0x305, 0x1fa, 0x3c9, 0x3af, 0x19c]
  const ROW3: seq<bv16> :=
    [0x053, 0x260, 0x206, 0x035, 0x2ca, 0x0f9, 0x09f, 0x2ac, 0x352, 0x161, 0x107, 0x334, 0x1cb, 0x3f8, 0x39e, 0x1ad]
  const ROW4: seq<bv16> :=
    [0x0c4, 0x2f7, 0x291, 0x0a2, 0x25d, 0x06e, 0x008, 0x23b, 0x3c5, 0x1f6, 0x190, 0x3a3, 0x15c, 0x36f, 0x309, 0x13a]
  const ROW5: seq<bv16> :=
    [0x0f5, 0x2c6, 0x2a0, 0x093, 0x26c, 0x05f, 0x039, 0x20a, 0x3f4, 0x1c7, 0x1a1, 0x392, 0x16d, 0x35e, 0x338, 0x10b]
  const ROW6: seq<bv16> :=
    [0x0a6, 0x295, 0x2f3, 0x0c0, 0x23f, 0x00c, 0x06a, 0x259, 0x3a7, 0x194, 0x1f2, 0x3c1, 0x13e, 0x30d, 0x36b, 0x158]
  const ROW7: seq<bv16> :=
    [0x097, 0x2a4, 0x2c2, 0x0f1, 0x20e, 0x03d, 0x05b, 0x268, 0x396, 0x1a5, 0x1c3, 0x3f0, 0x10f, 0x33c, 0x35a, 0x169]
  const ROW8: seq<bv16> :=
    [0x188, 0x3bb, 0x3dd, 0x1ee, 0x311, 0x122, 0x144, 0x377, 0x289, 0x0ba, 0x0dc, 0x2ef, 0x010, 0x223, 0x245, 0x076]
  const ROW9: seq<bv16> :=
    [0x1b9, 0x38a, 0x3ec, 0x1df, 0x320, 0x113, 0x175, 0x346, 0x2b8, 0x08b, 0x0ed, 0x2de, 0x021, 0x212, 0x274, 0x047]
  const ROW10: seq<bv16> :=
    [0x1ea, 0x3d9, 0x3bf, 0x18c, 0x373, 0x140, 0x126, 0x315, 0x2eb, 0x0d8, 0x0be, 0x28d, 0x072, 0x241, 0x227, 0x014]
  const ROW11: seq<bv16> :=
    [0x1db, 0x3e8, 0x38e, 0x1bd, 0x342, 0x171, 0x117, 0x324, 0x2da, 0x0e9, 0x08f, 0x2bc, 0x043, 0x270, 0x216, 0x025]
  const ROW12: seq<bv16> :=
    [0x14c, 0x37f, 0x319, 0x12a, 0x3d5, 0x1e6, 0x180, 0x3b3, 0x24d, 0x07e, 0x018, 0x22b, 0x0d4, 0x2e7, 0x281, 0x0b2]
  const ROW13: seq<bv16> :=
    [0x17d, 0x34e, 0x328, 0x11b, 0x3e4, 0x1d7, 0x1b1, 0x382, 0x27c, 0x04f, 0x029, 0x21a, 0x0e5, 0x2d6, 0x2b0, 0x083]
  const ROW14: seq<bv16> :=
    [0x12e, 0x31d, 0x37b, 0x148, 0x3b7, 0x184, 0x1e2, 0x3d1, 0x22f, 0x01c, 0x07a, 0x249, 0x0b6, 0x285, 0x2e3, 0x0d0]
  const ROW15: seq<bv16> :=
    [0x11f, 0x32c, 0x34a, 0x179, 0x386, 0x1b5, 0x1d3, 0x3e0, 0x21e, 0x02d, 0x04b, 0x278, 0x087, 0x2b4, 0x2d2, 0x0e1]

  function Row(r: bv16): (row: seq<bv16>)
    ensures |row| == 16
  {
    if r == 0 then ROW0
    else if r == 1 then ROW1
    else if r == 2 then ROW2
    else if r == 3 then ROW3
    else if r == 4 then ROW4
    else if r == 5 then ROW5
    else if r == 6 then ROW6
    else if r == 7 then ROW7
    else if r == 8 then ROW8
    else if r == 9 then ROW9
    else if r == 10 then ROW10
    else if r == 11 then ROW11
    else if r == 12 then ROW12
    else if r == 13 then ROW13
    else if r == 14 then ROW14
    else ROW15
  }

  /** Indexing a row by the low four bits of an octet. */
  function Pick(row: seq<bv16>, c: bv16): bv16
    requires |row| == 16
  {
    if c == 0 then row[0]
    else if c == 1 then row[1]
    else if c == 2 then row[2]
    else if c == 3 then row[3]
    else if c == 4 then row[4]
    else if c == 5 then row[5]
    else if c == 6 then row[6]
    else if c == 7 then row[7]
    else if c == 8 then row[8]
    else if c == 9 then row[9]
    else if c == 10 then row[10]
    else if c == 11 then row[11]
    else if c == 12 then row[12]
    else if c == 13 then row[13]
    else if c == 14 then row[14]
    else row[15]
  }

  /** `crc10_table[i]`. */
  function Table(i: bv16): bv16 {
    Pick(Row(i >> 4), i & 15)
  }

  /** One entry of `init_crc10_table`: the index at the top of the register, divided out. */
  function Entry(i: bv16): bv16 {
    ShiftByte(i << 2, 0)
  }

  // ---- Division is XOR-linear ----

  // The facts named Raw are pure bit-vector identities, kept free of the functions above.

  lemma RawShift(a: bv16, x: bv16)
    requires a < 0x400 && x < 2
    ensures a & 0x200 != 0 ==> ((a << 1) | x) & 0x400 != 0
    ensures a & 0x200 == 0 ==> ((a << 1) | x) & 0x400 == 0
    ensures (if a & 0x200 != 0 then ((a << 1) | x) ^ 0x633 else (a << 1) | x)
         == ((a << 1) & 0x3ff) ^ x ^ (((a >> 9) & 1) << 9) ^ (((a >> 9) & 1) << 5) ^ (((a >> 9) & 1) << 4) ^ (((a >> 9) & 1) << 1) ^ ((a >> 9) & 1)
    ensures ((a << 1) & 0x3ff) ^ x ^ (((a >> 9) & 1) << 9) ^ (((a >> 9) & 1) << 5) ^ (((a >> 9) & 1) << 4) ^ (((a >> 9) & 1) << 1) ^ ((a >> 9) & 1) < 0x400
    ensures (a << 1) | 0 == a << 1
  {}

  /** The conditional subtraction as an XOR of copies of the top bit. */
  function Linear(a: bv16, x: bv16): bv16 {
    ((a << 1) & 0x3ff) ^ x ^ (((a >> 9) & 1) << 9) ^ (((a >> 9) & 1) << 5) ^ (((a >> 9) & 1) << 4) ^ (((a >> 9) & 1) << 1) ^ ((a >> 9) & 1)
  }

  lemma ShiftIsLinear(a: bv16, bit: bool)
    requires a < 0x400
    ensures Shift(a, bit) == Linear(a, if bit then 1 else 0) && Shift(a, bit) < 0x400
  {
    RawShift(a, if bit then 1 else 0);
  }

  lemma RawXor(a: bv16, c: bv16, x: bv16, y: bv16)
    requires a < 0x400 && c < 0x400 && x < 2 && y < 2
    ensures (((a ^ c) << 1) & 0x3ff) ^ (x ^ y) ^ ((((a ^ c) >> 9) & 1) << 9) ^ ((((a ^ c) >> 9) & 1) << 5) ^ ((((a ^ c) >> 9) & 1) << 4) ^ ((((a ^ c) >> 9) & 1) << 1) ^ (((a ^ c) >> 9) & 1)
         == (((a << 1) & 0x3ff) ^ x ^ (((a >> 9) & 1) << 9) ^ (((a >> 9) & 1) << 5) ^ (((a >> 9) & 1) << 4) ^ (((a >> 9) & 1) << 1) ^ ((a >> 9) & 1))
          ^ (((c << 1) & 0x3ff) ^ y ^ (((c >> 9) & 1) << 9) ^ (((c >> 9) & 1) << 5) ^ (((c >> 9) & 1) << 4) ^ (((c >> 9) & 1) << 1) ^ ((c >> 9) & 1))
    ensures a ^ c < 0x400
  {}

  /** Addition of polynomials over GF(2). */
  function Xor(a: bv16, c: bv16): bv16 {
    a ^ c
  }

  lemma LinearXor(a: bv16, c: bv16, x: bv16, y: bv16)
    requires a < 0x400 && c < 0x400 && x < 2 && y < 2
    ensures Linear(Xor(a, c), x ^ y) == Xor(Linear(a, x), Linear(c, y)) && Xor(a, c) < 0x400
  {
    RawXor(a, c, x, y);
  }

  lemma ShiftXor(a: bv16, c: bv16, u: bool, v: bool)
    requires a < 0x400 && c < 0x400
    ensures Shift(Xor(a, c), u != v) == Xor(Shift(a, u), Shift(c, v)) && Xor(a, c) < 0x400
  {
    hide Shift, Linear, Xor;
    var x: bv16, y: bv16 := if u then 1 else 0, if v then 1 else 0;
    assert x ^ y == if u != v then 1 else 0;
    LinearXor(a, c, x, y);
    ShiftIsLinear(a, u);
    ShiftIsLinear(c, v);
    ShiftIsLinear(Xor(a, c), u != v);
  }

  lemma {:induction false} DivideBound(a: bv16, bits: seq<bool>)
    requires a < 0x400
    ensures Divide(a, bits) < 0x400
  {
    hide Shift;
    if bits != [] {
      DivideBound(a, bits[..|bits| - 1]);
      ShiftIsLinear(Divide(a, bits[..|bits| - 1]), bits[|bits| - 1]);
    }
  }

  function XorBits(u: seq<bool>, v: seq<bool>): (w: seq<bool>)
    requires |u| == |v|
    ensures |w| == |u|
    ensures forall i :: 0 <= i < |u| ==> w[i] == (u[i] != v[i])
  {
    seq(|u|, i requires 0 <= i < |u| => u[i] != v[i])
  }

  /** The remainder of a sum is the sum of the remainders. */
  lemma {:induction false} DivideXor(a: bv16, c: bv16, u: seq<bool>, v: seq<bool>)
    requires |u| == |v| && a < 0x400 && c < 0x400
    ensures Divide(Xor(a, c), XorBits(u, v)) == Xor(Divide(a, u), Divide(c, v))
  {
    if u != [] {
      hide Shift, Xor;
      var n := |u| - 1;
      DivideXor(a, c, u[..n], v[..n]);
      assert XorBits(u, v)[..n] == XorBits(u[..n], v[..n]);
      DivideBound(a, u[..n]);
      DivideBound(c, v[..n]);
      ShiftXor(Divide(a, u[..n]), Divide(c, v[..n]), u[n], v[n]);
    }
  }

  // ---- The table-driven loop ----

  lemma RawSmall(a: bv16)
    requires a < 0x200
    ensures ((a << 1) | 1) & 0x400 == 0 && (a << 1) & 0x400 == 0
  {}

  /** Below 2^9 a bit is shifted in without any subtraction. */
  lemma SmallShift(a: bv16, bit: bool)
    requires a < 0x200
    ensures Shift(a, bit) == if bit then (a << 1) | 1 else a << 1
  {
    RawSmall(a);
  }

  lemma RawShort(a: bv16, b: bv16)
    requires a < 4 && b < 0x100
    ensures (if b & 0x80 != 0 then (a << 1) | 1 else a << 1) == ((a << 1) | (b >> 7)) && a < 0x200
    ensures (if b & 0x40 != 0 then (((a << 1) | (b >> 7)) << 1) | 1 else ((a << 1) | (b >> 7)) << 1) == ((a << 2) | (b >> 6)) && ((a << 1) | (b >> 7)) < 0x200
    ensures (if b & 0x20 != 0 then (((a << 2) | (b >> 6)) << 1) | 1 else ((a << 2) | (b >> 6)) << 1) == ((a << 3) | (b >> 5)) && ((a << 2) | (b >> 6)) < 0x200
    ensures (if b & 0x10 != 0 then (((a << 3) | (b >> 5)) << 1) | 1 else ((a << 3) | (b >> 5)) << 1) == ((a << 4) | (b >> 4)) && ((a << 3) | (b >> 5)) < 0x200
    ensures (if b & 0x08 != 0 then (((a << 4) | (b >> 4)) << 1) | 1 else ((a << 4) | (b >> 4)) << 1) == ((a << 5) | (b >> 3)) && ((a << 4) | (b >> 4)) < 0x200
    ensures (if b & 0x04 != 0 then (((a << 5) | (b >> 3)) << 1) | 1 else ((a << 5) | (b >> 3)) << 1) == ((a << 6) | (b >> 2)) && ((a << 5) | (b >> 3)) < 0x200
    ensures (if b & 0x02 != 0 then (((a << 6) | (b >> 2)) << 1) | 1 else ((a << 6) | (b >> 2)) << 1) == ((a << 7) | (b >> 1)) && ((a << 6) | (b >> 2)) < 0x200
    ensures (if b & 0x01 != 0 then (((a << 7) | (b >> 1)) << 1) | 1 else ((a << 7) | (b >> 1)) << 1) == ((a << 8) ^ b) && ((a << 7) | (b >> 1)) < 0x200
  {}

  /** Eight bits fit behind a two-bit remainder without any subtraction. */
  lemma ShortRemainder(a: bv16, b: bv16)
    requires a < 4 && b < 0x100
    ensures ShiftByte(a, b) == (a << 8) ^ b
  {
    hide Shift;
    RawShort(a, b);
    SmallShift(a, b & 0x80 != 0);
    SmallShift(((a << 1) | (b >> 7)), b & 0x40 != 0);
    SmallShift(((a << 2) | (b >> 6)), b & 0x20 != 0);
    SmallShift(((a << 3) | (b >> 5)), b & 0x10 != 0);
    SmallShift(((a << 4) | (b >> 4)), b & 0x08 != 0);
    SmallShift(((a << 5) | (b >> 3)), b & 0x04 != 0);
    SmallShift(((a << 6) | (b >> 2)), b & 0x02 != 0);
    SmallShift(((a << 7) | (b >> 1)), b & 0x01 != 0);
  }

  lemma RawEntry(i: bv16, j: bv16)
    requires i < 0x100 && j < 0x100
    ensures (i ^ j) << 2 == (i << 2) ^ (j << 2) && i << 2 < 0x400 && j << 2 < 0x400
  {}

  lemma EntryXor(i: bv16, j: bv16)
    requires i < 0x100 && j < 0x100
    ensures Entry(i ^ j) == Xor(Entry(i), Entry(j))
  {
    hide Shift, ShiftByte, Divide;
    RawEntry(i, j);
    var zeros := Bits(0);
    assert XorBits(zeros, zeros) == zeros;
    ShiftByteIsDivide(i << 2, 0);
    ShiftByteIsDivide(j << 2, 0);
    ShiftByteIsDivide((i ^ j) << 2, 0);
    DivideXor(i << 2, j << 2, zeros, zeros);
  }

  /** Every row is its first entry XORed into the first row. */
  ghost predicate Shifted(row: seq<bv16>, first: seq<bv16>) {
    && |row| == 16 && |first| == 16
    && row[0] == Xor(row[0], first[0]) && row[1] == Xor(row[0], first[1]) && row[2] == Xor(row[0], first[2]) && row[3] == Xor(row[0], first[3])
    && row[4] == Xor(row[0], first[4]) && row[5] == Xor(row[0], first[5]) && row[6] == Xor(row[0], first[6]) && row[7] == Xor(row[0], first[7])
    && row[8] == Xor(row[0], first[8]) && row[9] == Xor(row[0], first[9]) && row[10] == Xor(row[0], first[10]) && row[11] == Xor(row[0], first[11])
    && row[12] == Xor(row[0], first[12]) && row[13] == Xor(row[0], first[13]) && row[14] == Xor(row[0], first[14]) && row[15] == Xor(row[0], first[15])
  }

  lemma Row1Shifted()
    ensures Shifted(ROW1, ROW0)
  {}

  lemma Row2Shifted()
    ensures Shifted(ROW2, ROW0)
  {}

  lemma Row3Shifted()
    ensures Shifted(ROW3, ROW0)
  {}

  lemma Row4Shifted()
    ensures Shifted(ROW4, ROW0)
  {}

  lemma Row5Shifted()
    ensures Shifted(ROW5, ROW0)
  {}

  lemma Row6Shifted()
    ensures Shifted(ROW6, ROW0)
  {}

  lemma Row7Shifted()
    ensures Shifted(ROW7, ROW0)
  {}

  lemma Row8Shifted()
    ensures Shifted(ROW8, ROW0)
  {}

  lemma Row9Shifted()
    ensures Shifted(ROW9, ROW0)
  {}

  lemma Row10Shifted()
    ensures Shifted(ROW10, ROW0)
  {}

  lemma Row11Shifted()
    ensures Shifted(ROW11, ROW0)
  {}

  lemma Row12Shifted()
    ensures Shifted(ROW12, ROW0)
  {}

  lemma Row13Shifted()
    ensures Shifted(ROW13, ROW0)
  {}

  lemma Row14Shifted()
    ensures Shifted(ROW14, ROW0)
  {}

  lemma Row15Shifted()
    ensures Shifted(ROW15, ROW0)
  {}

  lemma RowShifted(r: bv16)
    requires 0 < r < 16
    ensures Shifted(Row(r), ROW0)
  {
    hide Shifted;
    if r == 1 { Row1Shifted(); }
    else if r == 2 { Row2Shifted(); }
    else if r == 3 { Row3Shifted(); }
    else if r == 4 { Row4Shifted(); }
    else if r == 5 { Row5Shifted(); }
    else if r == 6 { Row6Shifted(); }
    else if r == 7 { Row7Shifted(); }
    else if r == 8 { Row8Shifted(); }
    else if r == 9 { Row9Shifted(); }
    else if r == 10 { Row10Shifted(); }
    else if r == 11 { Row11Shifted(); }
    else if r == 12 { Row12Shifted(); }
    else if r == 13 { Row13Shifted(); }
    else if r == 14 { Row14Shifted(); }
    else if r == 15 { Row15Shifted(); }
  }

  lemma FirstRow0()
    ensures ROW0[0] == Entry(0) && ROW0[1] == Entry(1) && ROW0[2] == Entry(2) && ROW0[3] == Entry(3)
  {}

  lemma FirstRow1()
    ensures ROW0[4] == Entry(4) && ROW0[5] == Entry(5) && ROW0[6] == Entry(6) && ROW0[7] == Entry(7)
  {}

  lemma FirstRow2()
    ensures ROW0[8] == Entry(8) && ROW0[9] == Entry(9) && ROW0[10] == Entry(10) && ROW0[11] == Entry(11)
  {}

  lemma FirstRow3()
    ensures ROW0[12] == Entry(12) && ROW0[13] == Entry(13) && ROW0[14] == Entry(14) && ROW0[15] == Entry(15)
  {}

  lemma FirstColumn0()
    ensures ROW0[0] == Entry(0x00) && ROW1[0] == Entry(0x10) && ROW2[0] == Entry(0x20) && ROW3[0] == Entry(0x30)
  {}

  lemma FirstColumn1()
    ensures ROW4[0] == Entry(0x40) && ROW5[0] == Entry(0x50) && ROW6[0] == Entry(0x60) && ROW7[0] == Entry(0x70)
  {}

  lemma FirstColumn2()
    ensures ROW8[0] == Entry(0x80) && ROW9[0] == Entry(0x90) && ROW10[0] == Entry(0xa0) && ROW11[0] == Entry(0xb0)
  {}

  lemma FirstColumn3()
    ensures ROW12[0] == Entry(0xc0) && ROW13[0] == Entry(0xd0) && ROW14[0] == Entry(0xe0) && ROW15[0] == Entry(0xf0)
  {}

  lemma ColumnDivides(r: bv16)
    requires r < 16
    ensures Row(r)[0] == Entry(r << 4)
  {
    hide Entry;
    FirstColumn0();
    FirstColumn1();
    FirstColumn2();
    FirstColumn3();
  }

  lemma FirstRowDivides(c: bv16)
    requires c < 16
    ensures Pick(ROW0, c) == Entry(c)
  {
    hide Entry;
    FirstRow0();
    FirstRow1();
    FirstRow2();
    FirstRow3();
  }

  lemma PickShifted(row: seq<bv16>, first: seq<bv16>, c: bv16)
    requires Shifted(row, first) && c < 16
    ensures Pick(row, c) == Xor(row[0], Pick(first, c))
  {
    hide Xor;
  }

  lemma RawIndex(i: bv16)
    requires i < 0x100
    ensures ((i >> 4) << 4) ^ (i & 15) == i && i >> 4 < 16 && i & 15 < 16 && (i >> 4) << 4 < 0x100
  {}

  lemma RowZero()
    ensures Row(0) == ROW0
  {}

  lemma FirstSixteen(i: bv16)
    requires i < 0x100 && i >> 4 == 0
    ensures i & 15 == i
  {}

  /** The comparison at the end of `init_crc10_table` cannot fail: every constant is the computed entry. */
  lemma TableIsDivision(i: bv16)
    requires i < 0x100
    ensures Table(i) == Entry(i)
  {
    hide Row, Entry, Pick, Shifted, Xor;
    var r, c := i >> 4, i & 15;
    RawIndex(i);
    FirstRowDivides(c);
    if r == 0 {
      FirstSixteen(i);
      RowZero();
    } else {
      ColumnDivides(r);
      RowShifted(r);
      PickShifted(Row(r), ROW0, c);
      EntryXor(r << 4, c);
    }
  }

  /** `init_crc10_table`: the table computed bit by bit is the constant one. */
  method InitCrc10Table() returns (verify: seq<bv16>)
    ensures |verify| == 256
    ensures forall i :: 0 <= i < 256 ==> verify[i] == Table(i as bv16)
  {
    hide Table;
    verify := [];
    for i := 0 to 256
      invariant |verify| == i
      invariant forall k :: 0 <= k < i ==> verify[k] == Table(k as bv16)
    {
      var accum := ComputeEntry(i as bv16);
      TableIsDivision(i as bv16);
      verify := verify + [accum];
    }
  }

  /** The inner loop: eight shifts of the index. */
  method ComputeEntry(i: bv16) returns (accum: bv16)
    ensures accum == Entry(i)
  {
    hide ShiftByte;
    accum := i << 2;
    ghost var zeros := Bits(0);
    ShiftByteIsDivide(accum, 0);
    for j := 0 to 8
      invariant accum == Divide(i << 2, zeros[..j])
    {
      assert zeros[..j + 1][..j] == zeros[..j] && !zeros[j];
      accum := accum << 1;
      if accum & 0x400 != 0 {
        accum := accum ^ 0x633;
      }
    }
    assert zeros[..8] == zeros;
  }

  lemma RawAdvance(a: bv16)
    ensures (a & 3) ^ (((a >> 2) & 0xff) << 2) == a & 0x3ff
    ensures (a << 8) & 0x3ff == (a & 3) << 8
    ensures a & 3 < 4 && a & 3 < 0x400 && (a >> 2) & 0xff < 0x100 && ((a >> 2) & 0xff) << 2 < 0x400
  {}

  /** One turn of the loop in `verify_crc10_cksum`. */
  function Advance(a: bv16, b: bv16): bv16 {
    ((a << 8) & 0x3ff) ^ Table((a >> 2) & 0xff) ^ b
  }

  /** Ten bits of remainder are two that move up and eight that are divided out. */
  lemma ShiftByteSplit(a: bv16, b: bv16)
    ensures ShiftByte(a & 0x3ff, b) == Xor(ShiftByte(a & 3, b), Entry((a >> 2) & 0xff))
  {
    var low, high := a & 3, ((a >> 2) & 0xff) << 2;
    RawAdvance(a);
    assert Xor(low, high) == a & 0x3ff;
    hide Shift, ShiftByte, Divide, Xor;
    var u, zeros := Bits(b), Bits(0);
    assert XorBits(u, zeros) == u;
    ShiftByteIsDivide(a & 0x3ff, b);
    ShiftByteIsDivide(low, b);
    ShiftByteIsDivide(high, 0);
    DivideXor(low, high, u, zeros);
  }

  lemma RawReorder(a: bv16, t: bv16, b: bv16)
    ensures ((a << 8) & 0x3ff) ^ t ^ b == (((a & 3) << 8) ^ b) ^ t
  {}

  /** One table look-up does the work of eight single-bit steps, on the ten bits that matter. */
  lemma AdvanceIsShiftByte(a: bv16, b: bv16)
    requires b < 0x100
    ensures Advance(a, b) == ShiftByte(a & 0x3ff, b)
  {
    hide Table, ShiftByte, Entry;
    RawAdvance(a);
    ShiftByteSplit(a, b);
    ShortRemainder(a & 3, b);
    TableIsDivision((a >> 2) & 0xff);
    RawReorder(a, Table((a >> 2) & 0xff), b);
  }

  /** `verify_crc10_cksum`: long division, for every message and every starting value. */
  method VerifyCrc10(accum0: bv16, p: seq<bv8>) returns (accum: bv16)
    ensures accum == if p == [] then accum0 else Divide(accum0 & 0x3ff, MessageBits(p))
  {
    hide ShiftByte, Advance, Divide, Bits, Wide;
    accum := accum0;
    var a := accum0 & 0x3ff;
    TenBits(accum0);
    for i := 0 to |p|
      invariant if i == 0 then accum == accum0 else accum == Divide(a, MessageBits(p[..i])) && accum < 0x400
    {
      var b := Wide(p[i]);
      RawWiden(p[i]);
      TenBits(accum);
      DivideNothing(a);
      assert p[..i + 1][..i] == p[..i];
      AdvanceIsShiftByte(accum, b);
      ShiftByteIsDivide(accum & 0x3ff, b);
      DivideConcat(a, MessageBits(p[..i]), Bits(b));
      DivideBound(a, MessageBits(p[..i]) + Bits(b));
      accum := Advance(accum, b);
    }
    assert p[..|p|] == p;
  }

  lemma DivideNothing(a: bv16)
    ensures Divide(a, []) == a
  {}

  lemma TenBits(a: bv16)
    ensures a & 0x3ff < 0x400 && (a < 0x400 ==> a & 0x3ff == a)
  {}

  lemma RawWiden(x: bv8)
    ensures Wide(x) < 0x100
  {}

  /** Checking a message in two parts is checking it whole. */
  lemma {:induction false} MessageBitsConcat(p: seq<bv8>, q: seq<bv8>)
    ensures MessageBits(p + q) == MessageBits(p) + MessageBits(q)
  {
    hide Bits;
    if q == [] {
      assert p + q == p;
    } else {
      MessageBitsConcat(p, q[..|q| - 1]);
      assert (p + q)[..|p + q| - 1] == p + q[..|q| - 1];
    }
  }

  // ---- Generating and verifying ----

  lemma BitwiseXor0(b: bv16, d: bv16)
    ensures Bits(Xor(b, d))[0] == (Bits(b)[0] != Bits(d)[0])
    ensures Bits(Xor(b, d))[1] == (Bits(b)[1] != Bits(d)[1])
  {}

  lemma BitwiseXor1(b: bv16, d: bv16)
    ensures Bits(Xor(b, d))[2] == (Bits(b)[2] != Bits(d)[2])
    ensures Bits(Xor(b, d))[3] == (Bits(b)[3] != Bits(d)[3])
  {}

  lemma BitwiseXor2(b: bv16, d: bv16)
    ensures Bits(Xor(b, d))[4] == (Bits(b)[4] != Bits(d)[4])
    ensures Bits(Xor(b, d))[5] == (Bits(b)[5] != Bits(d)[5])
  {}

  lemma BitwiseXor3(b: bv16, d: bv16)
    ensures Bits(Xor(b, d))[6] == (Bits(b)[6] != Bits(d)[6])
    ensures Bits(Xor(b, d))[7] == (Bits(b)[7] != Bits(d)[7])
  {}

  lemma BitsXor(b: bv16, d: bv16)
    ensures Bits(Xor(b, d)) == XorBits(Bits(b), Bits(d))
  {
    hide Bits, Xor;
    BitwiseXor0(b, d);
    BitwiseXor1(b, d);
    BitwiseXor2(b, d);
    BitwiseXor3(b, d);
  }

  function Xor8(u: bv8, x: bv8): bv8 {
    u ^ x
  }

  lemma WideXor(u: bv8, x: bv8)
    ensures Wide(Xor8(u, x)) == Xor(Wide(u), Wide(x))
  {}

  /** The two octets of a 10-bit field. */
  function High(r: bv16): bv8 {
    ((r >> 8) & 3) as bv8
  }

  function Low(r: bv16): bv8 {
    (r & 0xff) as bv8
  }

  /** Lays a 10-bit value over the trailing field: the top six bits of the last octet but one stay the message's. */
  function Sealed(p: seq<bv8>, r: bv16): seq<bv8>
    requires |p| >= 2
  {
    var n := |p| - 2;
    p[..n] + [Xor8(p[n], High(r)), Xor8(p[n + 1], Low(r))]
  }

  lemma RawHalves(r: bv16)
    requires r < 0x400
    ensures (Wide(High(r)) << 8) ^ Wide(Low(r)) == r && Wide(High(r)) < 4 && Wide(Low(r)) < 0x100
    ensures (0 << 8) ^ Wide(High(r)) == Wide(High(r))
  {}

  lemma XorZero(d: bv16)
    ensures Xor(d, 0) == d && Xor(d, d) == 0
  {}

  lemma LastTwo(q: seq<bv8>, u: bv8, v: bv8)
    ensures MessageBits(q + [u, v]) == MessageBits(q) + (Bits(Wide(u)) + Bits(Wide(v)))
  {
    hide Bits, Wide;
    assert (q + [u, v])[..|q| + 1] == q + [u];
    assert (q + [u])[..|q|] == q;
  }

  /** A 10-bit value is its own remainder. */
  lemma OwnRemainder(r: bv16)
    requires r < 0x400
    ensures Divide(0, Bits(Wide(High(r))) + Bits(Wide(Low(r)))) == r
  {
    hide Divide, ShiftByte, Bits, Wide, High, Low;
    var x, y := Wide(High(r)), Wide(Low(r));
    RawHalves(r);
    DivideConcat(0, Bits(x), Bits(y));
    ShiftByteIsDivide(0, x);
    ShortRemainder(0, x);
    ShiftByteIsDivide(x, y);
    ShortRemainder(x, y);
  }

  lemma SealedLast(d: bv16, u: bv8, v: bv8, r: bv16)
    requires d < 0x400 && r < 0x400
    ensures Divide(d, Bits(Wide(Xor8(u, High(r)))) + Bits(Wide(Xor8(v, Low(r)))))
         == Xor(Divide(d, Bits(Wide(u)) + Bits(Wide(v))), r)
  {
    hide Divide, Bits, Xor, Wide, High, Low, Xor8;
    var x, y := High(r), Low(r);
    WideXor(u, x);
    WideXor(v, y);
    BitsXor(Wide(u), Wide(x));
    BitsXor(Wide(v), Wide(y));
    var s, t := Bits(Wide(u)) + Bits(Wide(v)), Bits(Wide(x)) + Bits(Wide(y));
    assert XorBits(s, t) == XorBits(Bits(Wide(u)), Bits(Wide(x))) + XorBits(Bits(Wide(v)), Bits(Wide(y)));
    XorZero(d);
    DivideXor(d, 0, s, t);
    OwnRemainder(r);
  }

  /** Laying the remainder over the trailing field, sent as zero, makes the whole message divide exactly. */
  lemma SealedDividesExactly(a: bv16, p: seq<bv8>)
    requires |p| >= 2 && a < 0x400
    ensures Divide(a, MessageBits(Sealed(p, Divide(a, MessageBits(p))))) == 0
  {
    hide Divide, Bits, Xor, MessageBits, Wide, High, Low, Xor8;
    var n, r := |p| - 2, Divide(a, MessageBits(p));
    DivideBound(a, MessageBits(p));
    var front := MessageBits(p[..n]);
    var d := Divide(a, front);
    DivideBound(a, front);
    var u, v := p[n], p[n + 1];
    var u', v' := Xor8(u, High(r)), Xor8(v, Low(r));
    assert p == p[..n] + [u, v];
    LastTwo(p[..n], u, v);
    LastTwo(p[..n], u', v');
    DivideConcat(a, front, Bits(Wide(u)) + Bits(Wide(v)));
    DivideConcat(a, front, Bits(Wide(u')) + Bits(Wide(v')));
    SealedLast(d, u, v, r);
    XorZero(r);
  }

  // ---- Schoolbook long division ----

  /** The ten coefficients of the divisor below its leading one. */
  const DIVISOR := [true, false, false, false, true, true, false, false, true, true]

  /** Cancel the leading coefficient with the divisor, drop it, and go on until ten are left. */
  function LongDivide(d: seq<bool>): seq<bool>
    decreases |d|
  {
    if |d| <= 10 then d
    else LongDivide((if d[0] then XorBits(d[1..11], DIVISOR) else d[1..11]) + d[11..])
  }

  function RemainderBits(a: bv16): (s: seq<bool>)
    ensures |s| == 10
  {
    [On(a, 0x200), On(a, 0x100), On(a, 0x80), On(a, 0x40), On(a, 0x20), On(a, 0x10), On(a, 0x08), On(a, 0x04), On(a, 0x02), On(a, 0x01)]
  }

  /** A shift without the subtraction. */
  function Plain(a: bv16, bit: bool): bv16 {
    ((a << 1) & 0x3ff) | (if bit then 1 else 0)
  }

  lemma RawPlain(a: bv16, x: bv16)
    requires a < 0x400 && x < 2
    ensures a & 0x200 != 0 ==> ((a << 1) | x) & 0x400 != 0 && ((a << 1) | x) ^ 0x633 == (((a << 1) & 0x3ff) | x) ^ 0x233
    ensures a & 0x200 == 0 ==> ((a << 1) | x) & 0x400 == 0 && (a << 1) | x == ((a << 1) & 0x3ff) | x
    ensures (a << 1) | 0 == a << 1
  {}

  lemma ShiftIsPlain(a: bv16, bit: bool)
    requires a < 0x400
    ensures Shift(a, bit) == if On(a, 0x200) then Xor(Plain(a, bit), 0x233) else Plain(a, bit)
  {
    RawPlain(a, if bit then 1 else 0);
  }

  lemma PlainBits0(a: bv16, bit: bool)
    ensures RemainderBits(Plain(a, bit))[0] == RemainderBits(a)[1]
    ensures RemainderBits(Plain(a, bit))[1] == RemainderBits(a)[2]
  {}

  lemma PlainBits1(a: bv16, bit: bool)
    ensures RemainderBits(Plain(a, bit))[2] == RemainderBits(a)[3]
    ensures RemainderBits(Plain(a, bit))[3] == RemainderBits(a)[4]
  {}

  lemma PlainBits2(a: bv16, bit: bool)
    ensures RemainderBits(Plain(a, bit))[4] == RemainderBits(a)[5]
    ensures RemainderBits(Plain(a, bit))[5] == RemainderBits(a)[6]
  {}

  lemma PlainBits3(a: bv16, bit: bool)
    ensures RemainderBits(Plain(a, bit))[6] == RemainderBits(a)[7]
    ensures RemainderBits(Plain(a, bit))[7] == RemainderBits(a)[8]
  {}

  lemma PlainBits4(a: bv16, bit: bool)
    ensures RemainderBits(Plain(a, bit))[8] == RemainderBits(a)[9]
    ensures RemainderBits(Plain(a, bit))[9] == bit
  {}

  lemma RemainderXor0(a: bv16, c: bv16)
    ensures RemainderBits(Xor(a, c))[0] == (RemainderBits(a)[0] != RemainderBits(c)[0])
    ensures RemainderBits(Xor(a, c))[1] == (RemainderBits(a)[1] != RemainderBits(c)[1])
  {}

  lemma RemainderXor1(a: bv16, c: bv16)
    ensures RemainderBits(Xor(a, c))[2] == (RemainderBits(a)[2] != RemainderBits(c)[2])
    ensures RemainderBits(Xor(a, c))[3] == (RemainderBits(a)[3] != RemainderBits(c)[3])
  {}

  lemma RemainderXor2(a: bv16, c: bv16)
    ensures RemainderBits(Xor(a, c))[4] == (RemainderBits(a)[4] != RemainderBits(c)[4])
    ensures RemainderBits(Xor(a, c))[5] == (RemainderBits(a)[5] != RemainderBits(c)[5])
  {}

  lemma RemainderXor3(a: bv16, c: bv16)
    ensures RemainderBits(Xor(a, c))[6] == (RemainderBits(a)[6] != RemainderBits(c)[6])
    ensures RemainderBits(Xor(a, c))[7] == (RemainderBits(a)[7] != RemainderBits(c)[7])
  {}

  lemma RemainderXor4(a: bv16, c: bv16)
    ensures RemainderBits(Xor(a, c))[8] == (RemainderBits(a)[8] != RemainderBits(c)[8])
    ensures RemainderBits(Xor(a, c))[9] == (RemainderBits(a)[9] != RemainderBits(c)[9])
  {}

  lemma PlainBits(a: bv16, bit: bool)
    ensures RemainderBits(Plain(a, bit)) == RemainderBits(a)[1..] + [bit]
  {
    hide RemainderBits, Plain;
    PlainBits0(a, bit);
    PlainBits1(a, bit);
    PlainBits2(a, bit);
    PlainBits3(a, bit);
    PlainBits4(a, bit);
  }

  lemma SubtractBits(a: bv16)
    ensures RemainderBits(Xor(a, 0x233)) == XorBits(RemainderBits(a), DIVISOR)
  {
    assert RemainderBits(0x233) == DIVISOR;
    hide RemainderBits, Xor;
    RemainderXor0(a, 0x233);
    RemainderXor1(a, 0x233);
    RemainderXor2(a, 0x233);
    RemainderXor3(a, 0x233);
    RemainderXor4(a, 0x233);
  }

  lemma ShiftBits(a: bv16, bit: bool)
    requires a < 0x400
    ensures var s := RemainderBits(a);
      RemainderBits(Shift(a, bit)) == if s[0] then XorBits(s[1..] + [bit], DIVISOR) else s[1..] + [bit]
  {
    hide Shift, Plain, Xor, On;
    ShiftIsPlain(a, bit);
    PlainBits(a, bit);
    SubtractBits(Plain(a, bit));
  }

  /** The shift register computes the schoolbook remainder of the polynomial `a` followed by the message. */
  lemma {:induction false} RegisterIsLongDivision(a: bv16, bits: seq<bool>)
    requires a < 0x400
    ensures LongDivide(RemainderBits(a) + bits) == RemainderBits(Divide(a, bits))
    decreases |bits|
  {
    hide RemainderBits, Shift, XorBits;
    if bits == [] {
      assert RemainderBits(a) + bits == RemainderBits(a);
    } else {
      var x, rest := bits[0], bits[1..];
      var d := RemainderBits(a) + bits;
      assert d[0] == RemainderBits(a)[0] && d[1..11] == RemainderBits(a)[1..] + [x] && d[11..] == rest;
      ShiftBits(a, x);
      ShiftIsLinear(a, x);
      RegisterIsLongDivision(Shift(a, x), rest);
      assert bits == [x] + rest;
      DivideConcat(a, [x], rest);
      DivideOne(a, x);
    }
  }
}
