/**
 The checksum verifier of tcpdump/in_cksum.c.  It walks a vector of chunks, each
 at its own address, defers carries, shifts the running sum by a byte when a
 chunk starts on an odd address, and carries half a word between chunks.
 */
module InCksum {
  import opened Bytes
  import opened OnesComplement

  datatype Chunk = Chunk(address: nat, bytes: seq<Byte>)

  function Flatten(vec: seq<Chunk>): seq<Byte> {
    if vec == [] then [] else Flatten(vec[..|vec| - 1]) + vec[|vec| - 1].bytes
  }

  /**
   What survives from one chunk to the next: the 32-bit accumulator, whether half
   a word is waiting for its second octet (`mlen == -1`), and that octet (`s_util.c[0]`).
   */
  datatype Running = Running(sum: U32, half: bool, first: Byte)

  /** Octets with the given `ByteSum` are represented exactly, the waiting octet included. */
  ghost predicate Represents(order: ByteOrder, r: Running, total: nat) {
    Same(r.sum + (if r.half then Lead(order, r.first) else 0), total)
  }

  /**
   Carries are deferred, so the accumulator grows with the octets read.  It starts
   from a shifted 16-bit value at most, which takes at least three octets to arise,
   and it is small while half a word waits.
   */
  ghost predicate Bounded(r: Running, n: nat) {
    if r.half then r.sum <= 256 * 65535 && (n < 3 ==> r.sum == 0)
    else 2 * r.sum <= 65535 * (510 + n) && (n == 0 ==> r.sum == 0)
  }

  /** An accumulator that must stay below `limit` can take `n` octets. */
  ghost predicate Fits(n: nat, limit: nat) {
    65535 * (510 + n) < 2 * limit <= 0x2_0000_0000 && 257 * 65535 < limit
  }

  /** A C `int` can take 65027 octets, its 32-bit pattern 130564. */
  lemma LimitsFit(n: nat)
    ensures Fits(n, 0x8000_0000) <==> n <= 65027
    ensures Fits(n, 0x1_0000_0000) <==> n <= 130564
  {}

  /** An addition to the accumulator, which must not reach `limit`. */
  function Plus(sum: nat, w: nat, ghost limit: nat): nat
    requires sum + w < limit
  {
    sum + w
  }

  /** The accumulator shifted left by an octet, which must not reach `limit`. */
  function Shift(sum: U16, ghost limit: nat): nat
    requires 256 * sum as int < limit
  {
    256 * sum as int
  }

  /** The `REDUCE` macro with its `ADDCARRY`. */
  function Reduce(sum: U32): U16 {
    var s := sum % 65536 + sum / 65536;
    if s > 65535 then s - 65535 else s
  }

  lemma ReduceSame(sum: U32, x: nat)
    requires Same(sum, x)
    ensures Same(Reduce(sum), x)
  {
    var high := sum / 65536;
    assert Differ(Reduce(sum), sum, if sum % 65536 + high > 65535 then -high - 1 else -high);
    SameTrans(Reduce(sum), sum, x);
  }

  function WordAt(order: ByteOrder, b: seq<Byte>, i: nat): U16
    requires i + 1 < |b|
  {
    Word(order, b[i], b[i + 1])
  }

  /** The sum of `n` consecutive words. */
  function Words(order: ByteOrder, b: seq<Byte>, start: nat, n: nat): nat
    requires start + 2 * n <= |b|
  {
    if n == 0 then 0 else Words(order, b, start, n - 1) + WordAt(order, b, start + 2 * n - 2)
  }

  lemma {:induction false} WordsAreByteSum(order: ByteOrder, b: seq<Byte>, start: nat, n: nat)
    requires start + 2 * n <= |b|
    ensures Words(order, b, start, n) == ByteSum(order, b[start..start + 2 * n])
    ensures Words(order, b, start, n) <= 65535 * n
  {
    if n != 0 {
      WordsAreByteSum(order, b, start, n - 1);
      var front, last := b[start..start + 2 * n - 2], b[start + 2 * n - 2..start + 2 * n];
      assert b[start..start + 2 * n] == front + last;
      ByteSumEven(order, front, last);
      ByteSumWord(order, last);
    }
  }

  method AddFourWords(order: ByteOrder, b: seq<Byte>, w: nat, sum0: nat, ghost start: nat, ghost n: nat, ghost limit: nat)
    returns (sum: nat)
    requires w == start + 2 * n && w + 8 <= |b| && sum0 + 4 * 65535 < limit
    ensures sum == sum0 - Words(order, b, start, n) + Words(order, b, start, n + 4)
    ensures sum <= sum0 + 4 * 65535 && sum < limit
  {
    hide Word;
    sum := Plus(sum0, WordAt(order, b, w), limit);
    sum := Plus(sum, WordAt(order, b, w + 2), limit);
    assert sum == sum0 - Words(order, b, start, n) + Words(order, b, start, n + 2);
    sum := Plus(sum, WordAt(order, b, w + 4), limit);
    sum := Plus(sum, WordAt(order, b, w + 6), limit);
  }

  /** The words that the unrolled loops take of `n` octets. */
  function Unrolled(n: nat): nat {
    4 * (n / 8)
  }

  lemma UnrolledIs(n: nat, g: nat)
    requires 8 * g <= n < 8 * g + 8
    ensures Unrolled(n) == 4 * g
  {}

  /** The two unrolled loops: sixteen words a turn, then four. */
  method AddUnrolled(order: ByteOrder, b: seq<Byte>, start: nat, sum0: nat, ghost limit: nat)
    returns (sum: nat, w: nat, ghost n: nat)
    requires start <= |b| && 2 * sum0 + 65535 * (|b| - start) < 2 * limit
    ensures w == start + 2 * n && w <= |b| < w + 8 && n == Unrolled(|b| - start)
    ensures sum == sum0 + Words(order, b, start, n)
    ensures 2 * sum + 65535 * (|b| - w) < 2 * limit && sum < limit
  {
    hide Words, Unrolled;
    ghost var g: nat := 0;
    sum, w, n := sum0, start, 0;
    NoWords(order, b, start);
    var mlen := |b| - w - 32;
    while mlen >= 0
      invariant w == start + 2 * n && w <= |b| && mlen == |b| - w - 32 && n == 4 * g
      invariant sum == sum0 + Words(order, b, start, n)
      invariant 2 * sum + 65535 * (|b| - w) < 2 * limit
    {
      sum := AddFourWords(order, b, w, sum, start, n, limit);
      sum := AddFourWords(order, b, w + 8, sum, start, n + 4, limit);
      sum := AddFourWords(order, b, w + 16, sum, start, n + 8, limit);
      sum := AddFourWords(order, b, w + 24, sum, start, n + 12, limit);
      w, n, mlen, g := w + 32, n + 16, mlen - 32, g + 4;
    }
    mlen := mlen + 32 - 8;
    while mlen >= 0
      invariant w == start + 2 * n && w <= |b| && mlen == |b| - w - 8 && n == 4 * g
      invariant sum == sum0 + Words(order, b, start, n)
      invariant 2 * sum + 65535 * (|b| - w) < 2 * limit
    {
      sum := AddFourWords(order, b, w, sum, start, n, limit);
      w, n, mlen, g := w + 8, n + 4, mlen - 8, g + 1;
    }
    UnrolledIs(|b| - start, g);
  }

  lemma NoWords(order: ByteOrder, b: seq<Byte>, start: nat)
    requires start <= |b|
    ensures Words(order, b, start, 0) == 0
  {}

  /** Pieces read in step with the words add up. */
  lemma AlignedSum(order: ByteOrder, q: seq<Byte>, words: seq<Byte>, rest: seq<Byte>)
    requires |q| % 2 == 0 && |words| % 2 == 0 && |rest| <= 1
    ensures ByteSum(order, q + words + rest)
         == ByteSum(order, q) + ByteSum(order, words) + (if |rest| == 1 then Lead(order, rest[0]) else 0)
  {
    var u := q + words;
    assert |u| % 2 == 0;
    ByteSumEven(order, q, words);
    ByteSumEven(order, u, rest);
    ByteSumShort(order, rest);
  }

  /** Words read one octet out of step count with their octets swapped. */
  lemma MisalignedSum(order: ByteOrder, q: seq<Byte>, c: Byte, words: seq<Byte>, rest: seq<Byte>)
    requires |q| % 2 == 0 && |words| % 2 == 0 && |rest| <= 1
    ensures ByteSum(order, q + [c] + words + rest)
         == ByteSum(order, q) + Lead(order, c) + ByteSum(order.Flip(), words)
            + (if |rest| == 1 then Lead(order.Flip(), rest[0]) else 0)
  {
    var u := q + [c];
    var v := u + words;
    assert |u| % 2 == 1 && |v| % 2 == 1;
    ByteSumEven(order, q, [c]);
    ByteSumOdd(order, u, words);
    ByteSumOdd(order, v, rest);
    ByteSumShort(order, [c]);
    ByteSumShort(order.Flip(), rest);
  }

  /** Shifting once before and once after the misaligned words undoes their swap. */
  lemma ShiftTwice(sum: nat, x: nat, y: nat, z: nat, c: nat)
    requires Same(sum, 256 * x + y) && Same(256 * y, z)
    ensures Same(256 * sum + c, x + z + c)
  {
    SameScale(sum, 256 * x + y);
    SameShift16(x);
    SameAdd(65536 * x, x, 256 * y, z);
    SameTrans(256 * sum, 65536 * x + 256 * y, x + z);
    SamePlus(256 * sum, x + z, c);
  }

  lemma AlignedChunk(order: ByteOrder, q: seq<Byte>, words: seq<Byte>, rest: seq<Byte>, sum: U32)
    requires |q| % 2 == 0 && |words| % 2 == 0 && |rest| <= 1
    requires Same(sum, ByteSum(order, q) + ByteSum(order, words))
    ensures |rest| == 0 ==> Represents(order, Running(sum, false, 0), ByteSum(order, q + words + rest))
    ensures |rest| == 1 ==> Represents(order, Running(sum, true, rest[0]), ByteSum(order, q + words + rest))
  {
    var tail := if |rest| == 1 then Lead(order, rest[0]) else 0;
    SamePlus(sum, ByteSum(order, q) + ByteSum(order, words), tail);
    AlignedSum(order, q, words, rest);
  }

  lemma ShiftedChunk(order: ByteOrder, q: seq<Byte>, c: Byte, words: seq<Byte>, rest: seq<Byte>, sum: U16)
    requires |q| % 2 == 0 && |words| % 2 == 0 && |rest| <= 1
    requires Same(sum, 256 * ByteSum(order, q) + ByteSum(order, words))
    ensures Same(256 * sum + Lead(order, c) + (if |rest| == 1 then Lead(order.Flip(), rest[0]) else 0),
      ByteSum(order, q + [c] + words + rest))
  {
    hide *;
    MisalignedSum(order, q, c, words, rest);
    var tail := if |rest| == 1 then Lead(order.Flip(), rest[0]) else 0;
    var x, z := ByteSum(order, q), ByteSum(order.Flip(), words);
    assert ByteSum(order, q + [c] + words + rest) == x + z + (Lead(order, c) + tail);
    ShiftedSame(order, q, words, sum, Lead(order, c) + tail);
    SameEq(256 * sum + (Lead(order, c) + tail), x + z + (Lead(order, c) + tail),
      256 * sum + Lead(order, c) + tail, ByteSum(order, q + [c] + words + rest));
  }

  lemma ShiftedSame(order: ByteOrder, q: seq<Byte>, words: seq<Byte>, sum: U16, c: nat)
    requires Same(sum, 256 * ByteSum(order, q) + ByteSum(order, words))
    ensures Same(256 * sum + c, ByteSum(order, q) + ByteSum(order.Flip(), words) + c)
  {
    ByteSumFlip(order, words);
    ShiftTwice(sum, ByteSum(order, q), ByteSum(order, words), ByteSum(order.Flip(), words), c);
  }

  /** The waiting octet and the first octet of the next chunk make one word. */
  lemma JoinHalf(order: ByteOrder, r: Running, read: seq<Byte>, next: Byte)
    requires |read| % 2 == 1 && r.half && Represents(order, r, ByteSum(order, read))
    ensures Same(r.sum + Word(order, r.first, next), ByteSum(order, read + [next]))
  {
    hide ByteSum;
    var x := Lead(order.Flip(), next);
    ByteSumOdd(order, read, [next]);
    ByteSumShort(order.Flip(), [next]);
    SamePlus(r.sum + Lead(order, r.first), ByteSum(order, read), x);
    SameEq(r.sum + Lead(order, r.first) + x, ByteSum(order, read) + x,
      r.sum + Word(order, r.first, next), ByteSum(order, read + [next]));
  }

  /** The last loop: at most three words, one at a time. */
  method AddSingly(order: ByteOrder, b: seq<Byte>, w0: nat, sum0: U16, ghost start: nat, ghost n0: nat, ghost base: nat,
                   ghost limit: nat)
    returns (sum: nat, w: nat, ghost n: nat)
    requires w0 == start + 2 * n0 && w0 <= |b| < w0 + 8 && 5 * 65535 < limit
    requires Same(sum0, base + Words(order, b, start, n0))
    ensures w == start + 2 * n && w <= |b| < w + 2
    ensures Same(sum, base + Words(order, b, start, n))
    ensures sum <= 5 * 65535 && sum < limit
    ensures w == w0 + 2 * ((|b| - w0) / 2) && sum == sum0 + Words(order, b, w0, (|b| - w0) / 2)
  {
    hide Same, Words, Word;
    sum, w, n := sum0, w0, n0;
    NoWords(order, b, w0);
    var mlen := |b| - w - 2;
    while mlen >= 0
      invariant w == start + 2 * n && w <= |b| < w + 8 && mlen == |b| - w - 2
      invariant n0 <= n && sum == sum0 + Words(order, b, w0, n - n0)
      invariant Same(sum, base + Words(order, b, start, n))
      invariant 2 * sum + 65535 * (|b| - w) <= 10 * 65535
    {
      WordsStep(order, b, start, n);
      WordsStep(order, b, w0, n - n0);
      SamePlus(sum, base + Words(order, b, start, n), WordAt(order, b, w));
      sum := Plus(sum, WordAt(order, b, w), limit);
      w, n, mlen := w + 2, n + 1, mlen - 2;
    }
  }

  /** The state that is left when the shift of a chunk is undone. */
  function Ended(order: ByteOrder, first: Byte, rest: seq<Byte>, sum: U16): Running
    requires |rest| <= 1
  {
    if |rest| == 1 then Running(256 * sum as int + Word(order, first, rest[0]), false, first)
    else Running(256 * sum as int, true, first)
  }

  /** A sum as the 32 bits it is kept in. */
  function Pattern(sum: nat): U32 {
    if sum < 0x1_0000_0000 then sum else sum % 0x1_0000_0000
  }

  /** The state after the octets of `b` from `w` on. */
  function RestAfter(order: ByteOrder, b: seq<Byte>, w: nat, sum: nat, swapped: bool, first: Byte): Running
    requires w <= |b|
  {
    var n := Unrolled(|b| - w);
    var high, v := Pattern(sum + Words(order, b, w, n)), w + 2 * n;
    if v == |b| && !swapped then Running(high, false, 0)
    else LastAfter(order, b, v, Reduce(high), swapped, first)
  }

  function LastAfter(order: ByteOrder, b: seq<Byte>, v: nat, sum: U16, swapped: bool, first: Byte): Running
    requires v <= |b|
  {
    var m := (|b| - v) / 2;
    var low, x := Pattern(sum + Words(order, b, v, m)), v + 2 * m;
    if swapped then Ended(order, first, b[x..], Reduce(low))
    else if x < |b| then Running(low, true, b[x])
    else Running(low, false, 0)
  }

  /** The state after one more chunk, whatever it stands for. */
  function ChunkAfter(order: ByteOrder, chunk: Chunk, r: Running): Running {
    var b := chunk.bytes;
    if |b| == 0 then r
    else
      var w := if r.half then 1 else 0;
      var sum := Pattern(if r.half then r.sum + Word(order, r.first, b[0]) else r.sum);
      if (chunk.address + w) % 2 == 1 && w < |b| then
        RestAfter(order, b, w + 1, 256 * Reduce(sum) as int, true, b[w])
      else RestAfter(order, b, w, sum, false, r.first)
  }

  /** The summing loops of one chunk, from position `w` on, and the way the chunk ends. */
  method AddRest(order: ByteOrder, b: seq<Byte>, start: nat, sum0: nat, swapped: bool, first: Byte,
                 ghost q: seq<Byte>, ghost all: seq<Byte>, ghost limit: nat)
    returns (r: Running)
    requires start <= |b| && |q| % 2 == 0 && Fits(|all|, limit)
    requires Same(sum0, if swapped then 256 * ByteSum(order, q) else ByteSum(order, q))
    requires if swapped then sum0 <= 256 * 65535 else 2 * sum0 <= 65535 * (510 + |q|)
    requires |q| == 0 ==> sum0 == 0
    requires all == (if swapped then q + [first] else q) + b[start..]
    ensures r.half <==> |all| % 2 == 1
    ensures Represents(order, r, ByteSum(order, all)) && Bounded(r, |all|) && r.sum < limit
    ensures r == RestAfter(order, b, start, sum0, swapped, first)
  {
    hide ByteSum, Same, Words, Word, Lead, Represents, LastAfter, RestAfter, Reduce, Unrolled;
    ghost var base := if swapped then 256 * ByteSum(order, q) else ByteSum(order, q);
    var sum: nat, w: nat, n := AddUnrolled(order, b, start, sum0, limit);
    WordsAreByteSum(order, b, start, n);
    SamePlus(sum0, base, Words(order, b, start, n));
    RestIs(order, b, start, sum0, swapped, first, sum, w, n);
    if w == |b| && !swapped {
      assert |b[start..w]| % 2 == 0;
      AlignedChunk(order, q, b[start..w], [], sum);
      assert all == q + b[start..w] + [];
      return Running(sum, false, 0);
    }
    ReduceSame(sum, base + Words(order, b, start, n));
    r := FinishChunk(order, b, w, Reduce(sum), swapped, first, q, all, start, n, limit);
  }

  /** The last few words of a chunk, and the state it leaves for the next. */
  method FinishChunk(order: ByteOrder, b: seq<Byte>, w0: nat, sum0: U16, swapped: bool, first: Byte,
                     ghost q: seq<Byte>, ghost all: seq<Byte>, ghost start: nat, ghost n0: nat, ghost limit: nat)
    returns (r: Running)
    requires w0 == start + 2 * n0 && w0 <= |b| < w0 + 8 && |q| % 2 == 0 && 257 * 65535 < limit
    requires Same(sum0, (if swapped then 256 * ByteSum(order, q) else ByteSum(order, q)) + Words(order, b, start, n0))
    requires all == (if swapped then q + [first] else q) + b[start..]
    ensures r.half <==> |all| % 2 == 1
    ensures Represents(order, r, ByteSum(order, all))
    ensures Bounded(r, |all|) && r.sum < limit
    ensures r == LastAfter(order, b, w0, sum0, swapped, first)
  {
    hide *;
    assert 5 * 65535 < 0x1_0000_0000;
    ghost var base := if swapped then 256 * ByteSum(order, q) else ByteSum(order, q);
    var sum: nat, w: nat, n := AddSingly(order, b, w0, sum0, start, n0, base, limit);
    WordsAreByteSum(order, b, start, n);
    ghost var words := b[start..w];
    ParityOfParts(|q|, n, |b| - w, swapped, |all|);
    if |q| == 0 && n == 0 {
      NothingSummed(order, q, b, start, swapped, sum);
    }
    LastIs(order, b, w0, sum0, swapped, first, sum, w);
    if swapped {
      ReduceSame(sum, base + Words(order, b, start, n));
      assert all == q + [first] + words + b[w..];
      r := EndShifted(order, b[w..], Reduce(sum), first, q, words, limit);
      BoundedEnd(|q|, n, |b| - w, swapped, |all|, Reduce(sum), r);
    } else {
      assert all == q + words + b[w..];
      AlignedChunk(order, q, words, b[w..], sum);
      r := if w < |b| then Running(sum, true, b[w]) else Running(sum, false, 0);
      SmallIsBounded(|q|, n, |b| - w, |all|, r);
    }
  }

  lemma SmallIsBounded(q: nat, n: nat, rest: nat, all: nat, r: Running)
    requires all == q + 2 * n + rest && rest <= 1 && r.sum <= 5 * 65535 && (q == 0 && n == 0 ==> r.sum == 0)
    requires q % 2 == 0 && (r.half <==> rest == 1)
    ensures Bounded(r, all)
  {}

  /** Before any octet the accumulator is zero. */
  lemma NothingSummed(order: ByteOrder, q: seq<Byte>, b: seq<Byte>, start: nat, swapped: bool, sum: nat)
    requires |q| == 0 && start <= |b|
    requires Same(sum, (if swapped then 256 * ByteSum(order, q) else ByteSum(order, q)) + Words(order, b, start, 0))
    ensures sum == 0 && Reduce(sum) == 0
  {}

  lemma LastIs(order: ByteOrder, b: seq<Byte>, v: nat, sum0: U16, swapped: bool, first: Byte, sum: nat, x: nat)
    requires v <= |b| && x == v + 2 * ((|b| - v) / 2) && sum == sum0 + Words(order, b, v, (|b| - v) / 2) && sum <= 5 * 65535
    ensures LastAfter(order, b, v, sum0, swapped, first)
         == if swapped then Ended(order, first, b[x..], Reduce(sum))
            else if x < |b| then Running(sum, true, b[x]) else Running(sum, false, 0)
  {
    hide Words, Reduce;
  }

  lemma RestIs(order: ByteOrder, b: seq<Byte>, w: nat, sum0: nat, swapped: bool, first: Byte, sum: U32, v: nat, n: nat)
    requires w <= |b| && n == Unrolled(|b| - w) && v == w + 2 * n && v <= |b| && sum == sum0 + Words(order, b, w, n)
    ensures RestAfter(order, b, w, sum0, swapped, first)
         == if v == |b| && !swapped then Running(sum, false, 0) else LastAfter(order, b, v, Reduce(sum), swapped, first)
  {
    hide Words, Reduce, LastAfter, Unrolled;
  }

  lemma BoundedEnd(q: nat, n: nat, rest: nat, swapped: bool, all: nat, sum: nat, r: Running)
    requires all == q + (if swapped then 1 else 0) + 2 * n + rest && q % 2 == 0 && rest <= 1
    requires sum <= 65535 && (q == 0 && n == 0 ==> sum == 0)
    requires swapped && (r.half <==> rest == 0) && r.sum <= 256 * sum + 65535 * rest
    ensures Bounded(r, all)
  {}

  lemma ParityOfParts(q: nat, n: nat, rest: nat, swapped: bool, all: nat)
    requires q % 2 == 0 && rest <= 1
    requires all == q + (if swapped then 1 else 0) + 2 * n + rest
    ensures all % 2 == if swapped then 1 - rest else rest
  {}

  /** The end of a shifted chunk: shift back, and complete the word begun before the shift or leave it waiting. */
  method EndShifted(order: ByteOrder, rest: seq<Byte>, sum: U16, first: Byte, ghost q: seq<Byte>, ghost words: seq<Byte>,
                    ghost limit: nat)
    returns (r: Running)
    requires |q| % 2 == 0 && |words| % 2 == 0 && |rest| <= 1 && 257 * 65535 < limit
    requires Same(sum, 256 * ByteSum(order, q) + ByteSum(order, words))
    ensures r.half <==> |rest| == 0
    ensures Represents(order, r, ByteSum(order, q + [first] + words + rest))
    ensures r == Ended(order, first, rest, sum) && r.sum < limit
    ensures r.sum <= 256 * sum as int + 65535 * |rest|
  {
    hide ByteSum, Same;
    ShiftedChunk(order, q, first, words, rest, sum);
    if |rest| == 1 {
      r := Running(Plus(Shift(sum, limit), Word(order, first, rest[0]), limit), false, first);
    } else {
      r := Running(Shift(sum, limit), true, first);
    }
    ShiftedRunning(order, first, rest, sum, r, ByteSum(order, q + [first] + words + rest));
  }

  lemma NoChunk(order: ByteOrder, chunk: Chunk, r: Running)
    requires |chunk.bytes| == 0
    ensures ChunkAfter(order, chunk, r) == r
  {}

  lemma ChunkIs(order: ByteOrder, chunk: Chunk, r: Running, sum: U32, w: nat)
    requires |chunk.bytes| > 0 && w == (if r.half then 1 else 0)
    requires sum == if r.half then r.sum + Word(order, r.first, chunk.bytes[0]) else r.sum
    ensures var b := chunk.bytes;
      ChunkAfter(order, chunk, r) ==
        if (chunk.address + w) % 2 == 1 && w < |b| then RestAfter(order, b, w + 1, 256 * Reduce(sum) as int, true, b[w])
        else RestAfter(order, b, w, sum, false, r.first)
  {
    hide RestAfter, Word, Reduce;
  }

  /** One turn of the loop over the vector; `read` is what the earlier chunks held. */
  method AddChunk(order: ByteOrder, chunk: Chunk, r: Running, ghost read: seq<Byte>, ghost limit: nat)
    returns (r': Running)
    requires Fits(|read + chunk.bytes|, limit)
    requires r.half <==> |read| % 2 == 1
    requires Represents(order, r, ByteSum(order, read)) && Bounded(r, |read|)
    ensures r'.half <==> |read + chunk.bytes| % 2 == 1
    ensures Represents(order, r', ByteSum(order, read + chunk.bytes)) && Bounded(r', |read + chunk.bytes|) && r'.sum < limit
    ensures r' == ChunkAfter(order, chunk, r)
  {
    hide ByteSum, Same, Words, Lead, Represents, RestAfter, ChunkAfter, Word, Reduce;
    var b := chunk.bytes;
    if |b| == 0 {
      assert read + b == read;
      NoChunk(order, chunk, r);
      return r;
    }
    var sum: nat, first: Byte, w: nat := r.sum, r.first, 0;
    if r.half {
      JoinHalf(order, r, read, b[0]);
      assert b[..1] == [b[0]];
      sum, w := Plus(sum, Word(order, first, b[0]), limit), 1;
    } else {
      assert read + b[..0] == read;
      NoHalf(order, r, ByteSum(order, read));
    }
    ghost var q := read + b[..w];
    assert |q| % 2 == 0 && 2 * sum <= 65535 * (510 + |q|) && (|q| == 0 ==> sum == 0);
    var swapped := (chunk.address + w) % 2 == 1 && w < |b|;
    ChunkIs(order, chunk, r, sum, w);
    if swapped {
      ReduceSame(sum, ByteSum(order, q));
      SameScale(Reduce(sum), ByteSum(order, q));
      sum := Shift(Reduce(sum), limit);
      first, w := b[w], w + 1;
    }
    assert read + b == (if swapped then q + [first] else q) + b[w..];
    r' := AddRest(order, b, w, sum, swapped, first, q, read + b, limit);
  }

  lemma WordsStep(order: ByteOrder, b: seq<Byte>, start: nat, n: nat)
    requires start + 2 * n + 2 <= |b|
    ensures Words(order, b, start, n + 1) == Words(order, b, start, n) + WordAt(order, b, start + 2 * n)
  {}

  lemma ShiftedRunning(order: ByteOrder, c: Byte, rest: seq<Byte>, sum: U16, r: Running, total: nat)
    requires |rest| <= 1
    requires Same(256 * sum + Lead(order, c) + (if |rest| == 1 then Lead(order.Flip(), rest[0]) else 0), total)
    requires r == if |rest| == 1 then Running(256 * sum + Word(order, c, rest[0]), false, c) else Running(256 * sum, true, c)
    ensures Represents(order, r, total)
  {
    SameEq(256 * sum + Lead(order, c) + (if |rest| == 1 then Lead(order.Flip(), rest[0]) else 0), total,
      r.sum + (if r.half then Lead(order, r.first) else 0), total);
  }

  lemma NoHalf(order: ByteOrder, r: Running, total: nat)
    requires !r.half && Represents(order, r, total)
    ensures Same(r.sum, total)
  {
    SameEq(r.sum + 0, total, r.sum, total);
  }

  /**
   `in_cksum`.  For every list of chunks, every split into lengths (empty and
   one-octet chunks included) and every address, the result is the complement of
   the RFC 1071 sum of the octets in order.  Every addition and shift of the
   accumulator is checked against `limit`: an `int` for up to 65027 octets, and
   its 32-bit pattern for up to 130564.
   */
  method InCksum(order: ByteOrder, vec: seq<Chunk>, ghost limit: nat) returns (r: U16)
    requires Fits(|Flatten(vec)|, limit)
    ensures r == 65535 - OnesSum(order, Flatten(vec))
  {
    hide ByteSum, Same, OnesSum;
    var run, k := Running(0, false, 0), 0;
    StartEmpty(order);
    while k < |vec|
      invariant 0 <= k <= |vec|
      invariant |Flatten(vec[..k])| <= |Flatten(vec)|
      invariant run.half <==> |Flatten(vec[..k])| % 2 == 1
      invariant Represents(order, run, ByteSum(order, Flatten(vec[..k]))) && Bounded(run, |Flatten(vec[..k])|)
    {
      FlattenStep(vec, k);
      run := AddChunk(order, vec[k], run, Flatten(vec[..k]), limit);
      k := k + 1;
    }
    assert vec[..k] == vec;
    var total := ByteSum(order, Flatten(vec));
    var sum: nat := run.sum;
    if run.half {
      PadHalf(order, run, total);
      sum := Plus(sum, Word(order, run.first, 0), limit);
    } else {
      NoHalf(order, run, total);
    }
    ReduceSame(sum, total);
    OnesSumIsByteSum(order, Flatten(vec));
    SameMeets(Reduce(sum), OnesSum(order, Flatten(vec)), total);
    r := 65535 - Reduce(sum);
  }

  lemma StartEmpty(order: ByteOrder)
    ensures Represents(order, Running(0, false, 0), ByteSum(order, []))
  {
    SameRefl(0);
  }

  lemma PadHalf(order: ByteOrder, r: Running, total: nat)
    requires r.half && Represents(order, r, total)
    ensures Same(r.sum + Word(order, r.first, 0), total)
  {
    SameEq(r.sum + Lead(order, r.first), total, r.sum + Word(order, r.first, 0), total);
  }

  lemma {:induction false} FlattenStep(vec: seq<Chunk>, k: nat)
    requires k < |vec|
    ensures Flatten(vec[..k + 1]) == Flatten(vec[..k]) + vec[k].bytes
    ensures |Flatten(vec[..k + 1])| <= |Flatten(vec)|
    decreases |vec|
  {
    assert vec[..k + 1][..k] == vec[..k];
    if k + 1 == |vec| {
      assert vec[..k + 1] == vec;
    } else {
      var front := vec[..|vec| - 1];
      assert front[..k] == vec[..k] && front[..k + 1] == vec[..k + 1];
      FlattenStep(front, k);
    }
  }

  /** `in_cksum_shouldbe`: a one's-complement addition by folding a 32-bit sum twice. */
  method InCksumShouldbe(order: ByteOrder, field: U16, computed: U16) returns (r: U16)
    ensures r == OnesAdd(field, SwapToNetwork(order, computed))
  {
    hide SwapToNetwork;
    var shouldbe: U32 := field;
    shouldbe := shouldbe + SwapToNetwork(order, computed);
    shouldbe := shouldbe % 65536 + shouldbe / 65536;
    shouldbe := shouldbe % 65536 + shouldbe / 65536;
    r := shouldbe;
  }

  /** The field value `in_cksum_shouldbe` proposes for a packet whose checksum field is at offset `at`. */
  function Proposed(order: ByteOrder, packet: seq<Byte>, at: nat): U16
    requires at + 1 < |packet|
  {
    OnesAdd(Word(BigEndian, packet[at], packet[at + 1]), SwapToNetwork(order, 65535 - OnesSum(order, packet)))
  }

  lemma ProposedIsDifference(order: ByteOrder, packet: seq<Byte>, at: nat)
    requires at + 1 < |packet|
    ensures Proposed(order, packet, at)
         == OnesAdd(Word(BigEndian, packet[at], packet[at + 1]), 65535 - OnesSum(BigEndian, packet))
  {
    hide OnesSum, Word, OnesAdd;
    SumInNetworkOrder(order, packet);
    SwapComplement(order, OnesSum(order, packet));
  }

  lemma SwapComplement(order: ByteOrder, x: U16)
    ensures SwapToNetwork(order, 65535 - x) == 65535 - SwapToNetwork(order, x)
  {
    var high, low := x / 256, x % 256;
    assert 65535 - x == 256 * (255 - high) + (255 - low);
    SwappedOctets(255 - high, 255 - low);
  }

  lemma SwappedOctets(high: nat, low: nat)
    requires high < 256 && low < 256
    ensures (256 * high + low) / 256 == high && (256 * high + low) % 256 == low
  {}

  /** Storing the proposed value always makes the packet verify; a packet that verifies keeps its field. */
  lemma ProposedVerifies(order: ByteOrder, packet: seq<Byte>, at: nat)
    requires at % 2 == 0 && at + 1 < |packet|
    ensures var v := Proposed(order, packet, at);
            Verifies(packet[at := v / 256][at + 1 := v % 256])
    ensures OnesSum(order, packet) == 65535 ==>
            Proposed(order, packet, at) == Word(BigEndian, packet[at], packet[at + 1])
  {
    hide *;
    ProposedIsDifference(order, packet, at);
    var f: nat, t: nat := Word(BigEndian, packet[at], packet[at + 1]), OnesSum(BigEndian, packet);
    OnesSumIsByteSum(BigEndian, packet);
    ByteSumAround(BigEndian, packet, at);
    var k := DifferenceCancels(f, t, ByteSum(BigEndian, packet));
    SumInNetworkOrder(order, packet);
    AllOnesBothOrders(order, OnesSum(order, packet));
    CancellingFieldVerifies(packet, at, Proposed(order, packet, at), k);
  }

  /** The arithmetic of `in_cksum_shouldbe`: `t` is the sum of a packet of integer sum `total` with field `f`. */
  lemma DifferenceCancels(f: U16, t: U16, total: nat) returns (k: int)
    requires Same(t, total) && f <= total
    ensures total - f + OnesAdd(f, 65535 - t) == 65535 * k
    ensures total != f || OnesAdd(f, 65535 - t) != 0
    ensures t == 65535 ==> OnesAdd(f, 65535 - t) == f
  {
    var l :| Differ(t, total, l);
    k := if f > t then -l else 1 - l;
  }

  lemma AllOnesBothOrders(order: ByteOrder, x: U16)
    ensures x == 65535 ==> SwapToNetwork(order, x) == 65535
  {}

  /**
   The proposed value is the complement of the sum of everything but the field,
   except in one case: when the rest sums to the non-zero representation of zero
   and the field held something, it proposes 65535 where the complement is 0.
   */
  lemma ProposedIsComplementIff(order: ByteOrder, packet: seq<Byte>, at: nat)
    requires at % 2 == 0 && at + 1 < |packet|
    ensures var rest := OnesSum(BigEndian, packet[at := 0][at + 1 := 0]);
            Proposed(order, packet, at) == 65535 - rest
            <==> !(rest == 65535 && Word(BigEndian, packet[at], packet[at + 1]) != 0)
  {
    hide ByteSum, OnesSum;
    var f := Word(BigEndian, packet[at], packet[at + 1]);
    var cleared := packet[at := 0][at + 1 := 0];
    ProposedIsDifference(order, packet, at);
    ByteSumReplaceWord(BigEndian, packet, at, 0, 0);
    OnesSumIsByteSum(BigEndian, packet);
    OnesSumIsByteSum(BigEndian, cleared);
    var t, rest := OnesSum(BigEndian, packet), OnesSum(BigEndian, cleared);
    SameOnesAdd(rest, ByteSum(BigEndian, cleared), f);
    SameMeets(OnesAdd(f, rest), t, ByteSum(BigEndian, packet));
  }

  /** A packet in that one case: 65535 is proposed where the complement of the rest is 0. */
  lemma ProposedNotComplement(order: ByteOrder)
    ensures var packet := [0x12, 0x34, 0xff, 0xff];
      Proposed(order, packet, 0) == 65535 && 65535 - OnesSum(BigEndian, packet[0 := 0][1 := 0]) == 0
  {
    var packet: seq<Byte> := [0x12, 0x34, 0xff, 0xff];
    SumOfTwo(packet);
    SumOfTwo(packet[0 := 0][1 := 0]);
    ProposedIsDifference(order, packet, 0);
  }

  lemma SumOfTwo(s: seq<Byte>)
    requires |s| == 4
    ensures OnesSum(BigEndian, s) == OnesAdd(Word(BigEndian, s[0], s[1]), Word(BigEndian, s[2], s[3]))
  {
    var rest := s[2..];
    assert rest[2..] == [];
    assert OnesSum(BigEndian, rest) == OnesAdd(Word(BigEndian, rest[0], rest[1]), OnesSum(BigEndian, rest[2..]));
  }

  // ---- The bound for an `int` is exact ----

  function Ones(n: nat): (s: seq<Byte>)
    ensures |s| == n && forall i :: 0 <= i < n ==> s[i] == 255
  {
    if n == 0 then [] else Ones(n - 1) + [255]
  }

  lemma {:induction false} WordsOfOnes(order: ByteOrder, b: seq<Byte>, w: nat, n: nat)
    requires w + 2 * n <= |b| && forall i :: 0 <= i < |b| ==> b[i] == 255
    ensures Words(order, b, w, n) == 65535 * n
  {
    if n != 0 {
      WordsOfOnes(order, b, w, n - 1);
      assert WordAt(order, b, w + 2 * n - 2) == 65535;
    }
  }

  /** Four octets of ones at an odd address make the largest value a shift leaves. */
  lemma OddFour(order: ByteOrder)
    ensures ChunkAfter(order, Chunk(1, Ones(4)), Running(0, false, 0)) == Running(257 * 65535, false, 255)
  {
    hide Words, Ones, RestAfter, LastAfter, ChunkAfter;
    var b := Ones(4);
    ChunkIs(order, Chunk(1, b), Running(0, false, 0), 0, 0);
    WordsOfOnes(order, b, 1, 0);
    WordsOfOnes(order, b, 1, 1);
    RestIs(order, b, 1, 0, true, 255, 0, 1, 0);
    LastIs(order, b, 1, 0, true, 255, 65535, 3);
    assert b[3..] == [255];
  }

  /** Ones in multiples of eight octets at an even address add up without a carry. */
  lemma EvenOnes(order: ByteOrder, n: nat, sum: U32, first: Byte)
    requires n > 0 && sum + 65535 * (4 * n) < 0x1_0000_0000
    ensures ChunkAfter(order, Chunk(0, Ones(8 * n)), Running(sum, false, first)) == Running(sum + 65535 * (4 * n), false, 0)
  {
    hide Words, Ones, LastAfter;
    var b := Ones(8 * n);
    ChunkIs(order, Chunk(0, b), Running(sum, false, first), sum, 0);
    WordsOfOnes(order, b, 0, 4 * n);
  }

  /** A vector of 65028 octets, one more than an `int` can take, after which the accumulator is past 2^31. */
  lemma OverflowAt65028(order: ByteOrder)
    ensures var first, second := Chunk(1, Ones(4)), Chunk(0, Ones(65024));
      && |Flatten([first, second])| == 65028
      && ChunkAfter(order, second, ChunkAfter(order, first, Running(0, false, 0))).sum == 32769 * 65535 > 0x7FFF_FFFF
  {
    hide Ones, ChunkAfter;
    var first, second := Chunk(1, Ones(4)), Chunk(0, Ones(65024));
    OddFour(order);
    EvenOnes(order, 8128, 257 * 65535, 255);
    assert [first, second][..1] == [first] && [first][..0] == [];
    assert Flatten([first]) == Flatten([]) + first.bytes;
  }

  // ---- Repairing a packet ----

  /** tcpdump's own functions, end to end: the field they propose makes them accept the packet, wherever it lies. */
  method Repair(order: ByteOrder, packet: seq<Byte>, at: nat, address: nat) returns (fixed: seq<Byte>, sum: U16)
    requires at % 2 == 0 && at + 1 < |packet| <= 65027
    ensures |fixed| == |packet| && sum == 0
    ensures fixed[..at] == packet[..at] && fixed[at + 2..] == packet[at + 2..]
    ensures OnesSum(order, packet) == 65535 ==> fixed == packet
  {
    hide OnesSum, Word, Verifies, OnesAdd, SwapToNetwork, Flatten, Fits;
    LimitsFit(|packet|);
    OneChunk(address, packet);
    var computed := InCksum(order, [Chunk(address, packet)], 0x8000_0000);
    var v := InCksumShouldbe(order, Word(BigEndian, packet[at], packet[at + 1]), computed);
    fixed := packet[at := v / 256][at + 1 := v % 256];
    ProposedVerifies(order, packet, at);
    OneChunk(address, fixed);
    sum := InCksum(order, [Chunk(address, fixed)], 0x8000_0000);
    assert OnesSum(order, fixed) == 65535 by { VerifiesMeans(order, fixed); }
    WordOctets(packet[at], packet[at + 1]);
  }

  lemma OneChunk(address: nat, s: seq<Byte>)
    ensures Flatten([Chunk(address, s)]) == s
  {
    assert [Chunk(address, s)][..0] == [];
    assert [] + s == s;
  }

  lemma VerifiesMeans(order: ByteOrder, s: seq<Byte>)
    requires Verifies(s)
    ensures OnesSum(order, s) == 65535
  {}

  lemma WordOctets(high: Byte, low: Byte)
    ensures Word(BigEndian, high, low) / 256 == high && Word(BigEndian, high, low) % 256 == low
  {}
}
