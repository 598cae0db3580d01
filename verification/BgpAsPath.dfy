/** The AS path attribute of tcpdump/print-bgp.c: guessing the width of its numbers, and printing them. */
module BgpAsPath {
  import opened Bytes

  const AS_PATH := 2
  const AS4_PATH := 17

  /** A path segment (section 4.3 of RFC 4271): a type and up to 255 AS numbers. */
  datatype Segment = Segment(kind: Byte, numbers: seq<nat>)

  predicate WellFormed(g: Segment, size: nat) {
    && 1 <= g.kind <= 4 && |g.numbers| <= 255
    && forall i :: 0 <= i < |g.numbers| ==> g.numbers[i] < Pow256(size)
  }

  function EncodeNumbers(numbers: seq<nat>, size: nat): (s: seq<Byte>)
    ensures |s| == |numbers| * size
  {
    if numbers == [] then []
    else
      assert |numbers| * size == size + (|numbers| - 1) * size;
      BeBytes(numbers[0], size) + EncodeNumbers(numbers[1..], size)
  }

  function EncodeSegment(g: Segment, size: nat): seq<Byte>
    requires |g.numbers| <= 255
  {
    [g.kind, |g.numbers|] + EncodeNumbers(g.numbers, size)
  }

  function EncodePath(path: seq<Segment>, size: nat): seq<Byte>
    requires forall g :: g in path ==> WellFormed(g, size)
  {
    if path == [] then []
    else
      assert WellFormed(path[0], size);
      EncodeSegment(path[0], size) + EncodePath(path[1..], size)
  }

  // ---- The guess ----

  /** From `offset` on, the octets step from 2-octet segment to 2-octet segment, all captured, and end exactly at `length`. */
  predicate Tiles(data: seq<Byte>, length: nat, offset: nat)
    decreases length - offset
  {
    if offset >= length then offset == length
    else
      && offset + 1 < |data|
      && 1 <= data[offset] <= 4
      && Tiles(data, length, offset + 2 + data[offset + 1] as int * 2)
  }

  /** `bgp_attr_get_as_size`. */
  method GetAsSize(kind: nat, data: seq<Byte>, length: nat) returns (size: nat)
    ensures size == if kind != AS4_PATH && Tiles(data, length, 0) then 2 else 4
  {
    if kind == AS4_PATH {
      return 4;
    }
    var offset := 0;
    while offset < length
      invariant Tiles(data, length, 0) == Tiles(data, length, offset)
      decreases length - offset
    {
      if offset >= |data| || data[offset] < 1 || data[offset] > 4 || offset + 1 >= |data| {
        return 4;
      }
      offset := offset + 2 + data[offset + 1] as int * 2;
    }
    size := if offset == length then 2 else 4;
  }

  // ---- The printing loop ----

  function Numbers(s: seq<Byte>, n: nat, size: nat): seq<nat>
    requires n * size <= |s|
  {
    if n == 0 then []
    else
      assert n * size == size + (n - 1) * size;
      [BeValue(s[..size])] + Numbers(s[size..], n - 1, size)
  }

  /** The segments printed and the offset the loop stopped at, or the end of the capture was met first. */
  datatype Listing = Cut | Listing(path: seq<Segment>, end: nat)

  function Before(path: seq<Segment>, l: Listing): Listing {
    if l.Cut? then Cut else Listing(path + l.path, l.end)
  }

  lemma BeforeTwice(a: seq<Segment>, b: seq<Segment>, l: Listing)
    ensures Before(a, Before(b, l)) == Before(a + b, l)
  {
    if l.Listing? {
      assert a + (b + l.path) == a + b + l.path;
    }
  }

  /** What the loop prints from `offset` on. */
  function ReadPath(data: seq<Byte>, length: nat, offset: nat, size: nat): Listing
    decreases length - offset
  {
    if offset >= length then Listing([], offset)
    else if offset + 1 >= |data| then Cut
    else
      var n: nat := data[offset + 1];
      if offset + 2 + n * size > |data| then Cut
      else
        Before([Segment(data[offset], Numbers(data[offset + 2..], n, size))],
               ReadPath(data, length, offset + 2 + n * size, size))
  }

  /** The numbers met one by one, each checked against the capture first. */
  function Collect(data: seq<Byte>, at: nat, n: nat, size: nat): Option<seq<nat>>
    decreases n
  {
    if n == 0 then Some([])
    else if at + size > |data| then None
    else
      match Collect(data, at + size, n - 1, size)
      case None => None
      case Some(rest) => Some([BeValue(data[at..at + size])] + rest)
  }

  lemma OneLess(n: nat, size: nat)
    requires n != 0
    ensures n * size == size + (n - 1) * size && 0 <= (n - 1) * size
  {}

  lemma {:induction false} CollectIsNumbers(data: seq<Byte>, at: nat, n: nat, size: nat)
    requires at <= |data|
    ensures Collect(data, at, n, size).Some? <==> at + n * size <= |data|
    ensures at + n * size <= |data| ==> Collect(data, at, n, size).value == Numbers(data[at..], n, size)
    decreases n
  {
    hide BeValue;
    if n != 0 {
      OneLess(n, size);
      if at + size <= |data| {
        CollectIsNumbers(data, at + size, n - 1, size);
        var from := data[at..];
        assert from[..size] == data[at..at + size];
        assert from[size..] == data[at + size..];
      }
    }
  }

  /** One segment: the loop over its numbers. */
  method PrintSegment(data: seq<Byte>, at: nat, n: nat, size: nat) returns (ok: bool, numbers: seq<nat>)
    requires at <= |data| && 0 < size
    ensures ok <==> at + n * size <= |data|
    ensures ok ==> numbers == Numbers(data[at..], n, size)
  {
    hide BeValue, Numbers;
    CollectIsNumbers(data, at, n, size);
    ghost var all := Collect(data, at, n, size);
    assert all.Some? ==> [] + all.value == all.value;
    numbers := [];
    var i, k := 0, 0;
    while k < n
      invariant 0 <= k <= n
      invariant var rest := Collect(data, at + i, n - k, size);
        all == if rest.Some? then Some(numbers + rest.value) else None
    {
      if at + i + size > |data| {
        return false, numbers;
      }
      ghost var rest := Collect(data, at + i + size, n - k - 1, size);
      var one := [BeValue(data[at + i..at + i + size])];
      assert rest.Some? ==> numbers + (one + rest.value) == numbers + one + rest.value;
      numbers := numbers + one;
      i, k := i + size, k + 1;
    }
    assert numbers + [] == numbers;
    ok := true;
  }

  method PrintSegments(data: seq<Byte>, length: nat, size: nat) returns (ok: bool, path: seq<Segment>)
    requires 0 < size
    ensures ok == ReadPath(data, length, 0, size).Listing?
    ensures ok ==> path == ReadPath(data, length, 0, size).path
  {
    hide Numbers;
    path := [];
    var offset := 0;
    ghost var all := ReadPath(data, length, 0, size);
    while offset < length
      invariant all == Before(path, ReadPath(data, length, offset, size))
      decreases length - offset
    {
      if offset >= |data| || offset + 1 >= |data| {
        return false, path;
      }
      var n: nat := data[offset + 1];
      var kept, numbers := PrintSegment(data, offset + 2, n, size);
      if !kept {
        return false, path;
      }
      var one := Segment(data[offset], numbers);
      BeforeTwice(path, [one], ReadPath(data, length, offset + 2 + n * size, size));
      path := path + [one];
      offset := offset + 2 + n * size;
    }
    ok := true;
  }

  datatype Shown = InvalidLength | Empty | Truncated | Path(path: seq<Segment>)

  /** The AS path case of `bgp_attr_print`. */
  function ShowPath(kind: nat, data: seq<Byte>, length: nat): Shown {
    if length % 2 != 0 then InvalidLength
    else if length == 0 then Empty
    else
      var listing := ReadPath(data, length, 0, if kind != AS4_PATH && Tiles(data, length, 0) then 2 else 4);
      if listing.Cut? then Truncated else Path(listing.path)
  }

  method PrintAsPath(kind: nat, data: seq<Byte>, length: nat) returns (shown: Shown)
    ensures shown == ShowPath(kind, data, length)
  {
    if length % 2 != 0 {
      return InvalidLength;
    }
    if length == 0 {
      return Empty;
    }
    var size := GetAsSize(kind, data, length);
    var ok, path := PrintSegments(data, length, size);
    shown := if ok then Path(path) else Truncated;
  }

  // ---- Encoded paths are read back ----

  lemma {:induction false} NumbersReadBack(numbers: seq<nat>, size: nat, rest: seq<Byte>)
    requires forall i :: 0 <= i < |numbers| ==> numbers[i] < Pow256(size)
    ensures Numbers(EncodeNumbers(numbers, size) + rest, |numbers|, size) == numbers
  {
    hide BeBytes, BeValue, Pow256;
    if numbers != [] {
      var first := BeBytes(numbers[0], size);
      var tail := EncodeNumbers(numbers[1..], size);
      NumbersReadBack(numbers[1..], size, rest);
      var s := EncodeNumbers(numbers, size) + rest;
      assert s == first + (tail + rest);
      assert s[..size] == first && s[size..] == tail + rest;
      BeRoundTrip(numbers[0], size);
      assert |numbers| * size == size + (|numbers| - 1) * size;
    }
  }

  lemma SegmentReadBack(before: seq<Byte>, g: Segment, size: nat, rest: seq<Byte>)
    requires WellFormed(g, size)
    ensures var data, at := before + EncodeSegment(g, size) + rest, |before|;
      && at + 2 <= |data| && data[at] == g.kind && data[at + 1] == |g.numbers|
      && at + 2 + |g.numbers| * size == at + |EncodeSegment(g, size)| <= |data|
      && Numbers(data[at + 2..], |g.numbers|, size) == g.numbers
  {
    hide Numbers, EncodeNumbers, Pow256;
    var numbers := EncodeNumbers(g.numbers, size);
    var data := before + EncodeSegment(g, size) + rest;
    assert data == before + [g.kind, |g.numbers|] + numbers + rest;
    assert data[|before| + 2..] == numbers + rest;
    NumbersReadBack(g.numbers, size, rest);
  }

  /** Wherever an encoded path lies, the loop prints that path and stops exactly at its end. */
  lemma {:induction false} PathReadBack(before: seq<Byte>, path: seq<Segment>, size: nat, after: seq<Byte>)
    requires 0 < size && forall g :: g in path ==> WellFormed(g, size)
    ensures var s := EncodePath(path, size);
      ReadPath(before + s + after, |before| + |s|, |before|, size) == Listing(path, |before| + |s|)
    decreases path
  {
    hide Numbers, EncodeSegment, Pow256, ReadPath;
    var s := EncodePath(path, size);
    var data, length := before + s + after, |before| + |s|;
    if path == [] {
      ReadEnd(data, length, size);
    } else {
      var g := path[0];
      assert WellFormed(g, size);
      var one := EncodeSegment(g, size);
      var rest := EncodePath(path[1..], size);
      assert data == before + one + rest + after == before + one + (rest + after);
      PathReadBack(before + one, path[1..], size, after);
      SegmentReadBack(before, g, size, rest + after);
      ReadStep(data, length, |before|, size);
      assert [g] + path[1..] == path;
    }
  }

  lemma ReadEnd(data: seq<Byte>, length: nat, size: nat)
    ensures ReadPath(data, length, length, size) == Listing([], length)
  {}

  lemma ReadStep(data: seq<Byte>, length: nat, offset: nat, size: nat)
    requires offset < length && offset + 2 <= |data|
    requires offset + 2 + data[offset + 1] as int * size <= |data|
    ensures var n: nat := data[offset + 1];
      ReadPath(data, length, offset, size) ==
      Before([Segment(data[offset], Numbers(data[offset + 2..], n, size))],
             ReadPath(data, length, offset + 2 + n * size, size))
  {
    hide Numbers, Before;
  }

  lemma {:induction false} EncodedTiles(before: seq<Byte>, path: seq<Segment>, after: seq<Byte>)
    requires forall g :: g in path ==> WellFormed(g, 2)
    ensures var s := EncodePath(path, 2); Tiles(before + s + after, |before| + |s|, |before|)
    decreases path
  {
    hide EncodeNumbers, Pow256;
    if path != [] {
      var g := path[0];
      assert WellFormed(g, 2);
      var one := EncodeSegment(g, 2);
      assert before + EncodePath(path, 2) + after == before + one + EncodePath(path[1..], 2) + after;
      EncodedTiles(before + one, path[1..], after);
    }
  }

  /** Octets that tile are an encoded 2-octet path, the one the loop then prints, whatever was captured behind it. */
  lemma {:induction false} TilesAreEncoded(data: seq<Byte>, length: nat, offset: nat)
    requires Tiles(data, length, offset) && length <= |data|
    ensures var r := ReadPath(data, length, offset, 2);
      && r.Listing? && r.end == length && offset <= length
      && (forall g :: g in r.path ==> WellFormed(g, 2))
      && EncodePath(r.path, 2) == data[offset..length]
    decreases length - offset
  {
    hide Numbers, EncodeNumbers, Pow256;
    if offset < length {
      var n: nat := data[offset + 1];
      var next := offset + 2 + n * 2;
      TilesAreEncoded(data, length, next);
      var rest := ReadPath(data, length, next, 2);
      NumbersEncoded(data[offset + 2..], n);
      var g := Segment(data[offset], Numbers(data[offset + 2..], n, 2));
      var r := ReadPath(data, length, offset, 2);
      assert r.path == [g] + rest.path && r.path[1..] == rest.path;
      assert data[offset..length] == [data[offset], data[offset + 1]] + data[offset + 2..][..n * 2] + data[next..length];
    }
  }

  /** The guess depends on the octets of the attribute only. */
  lemma {:induction false} TilesWithin(data: seq<Byte>, length: nat, offset: nat)
    requires length <= |data|
    ensures Tiles(data, length, offset) <==> Tiles(data[..length], length, offset)
    decreases length - offset
  {
    if offset + 1 < length {
      TilesWithin(data, length, offset + 2 + data[offset + 1] as int * 2);
    }
  }

  lemma {:induction false} NumbersEncoded(s: seq<Byte>, n: nat)
    requires n * 2 <= |s|
    ensures |Numbers(s, n, 2)| == n
    ensures forall i :: 0 <= i < n ==> Numbers(s, n, 2)[i] < Pow256(2)
    ensures EncodeNumbers(Numbers(s, n, 2), 2) == s[..n * 2]
  {
    hide BeBytes, BeValue, Pow256;
    if n != 0 {
      NumbersEncoded(s[2..], n - 1);
      TwoOctets(s[..2]);
      var tail := Numbers(s[2..], n - 1, 2);
      assert Numbers(s, n, 2)[1..] == tail;
      assert s[..n * 2] == s[..2] + s[2..][..(n - 1) * 2];
    }
  }

  lemma TwoOctets(s: seq<Byte>)
    requires |s| == 2
    ensures BeValue(s) < Pow256(2) && BeBytes(BeValue(s), 2) == s
  {
    hide BeValue, BeBytes, Pow256;
    var high, low := s[0], s[1];
    HighAndLow(high, low);
    OneOctet(s[..1]);
    ValueOfTwo(s);
    BytesOfTwo(BeValue(s));
    assert s == s[..1] + [low];
  }

  lemma ValueOfTwo(s: seq<Byte>)
    requires |s| == 2
    ensures BeValue(s) == 256 * BeValue(s[..1]) + s[1]
  {}

  lemma BytesOfTwo(x: nat)
    ensures BeBytes(x, 2) == BeBytes(x / 256, 1) + [x % 256] && Pow256(2) == 65536
  {
    assert Pow256(2) == 256 * Pow256(1) && Pow256(1) == 256 * Pow256(0);
  }

  lemma HighAndLow(a: Byte, b: Byte)
    ensures (256 * a as int + b) / 256 == a && (256 * a as int + b) % 256 == b
  {}

  lemma OneOctet(s: seq<Byte>)
    requires |s| == 1
    ensures BeValue(s) == s[0] && BeBytes(s[0], 1) == s
  {
    assert s[..0] == [];
    assert BeBytes(s[0] as nat / 256, 0) == [];
  }

  predicate AllEmpty(path: seq<Segment>) {
    forall i :: 0 <= i < |path| ==> path[i].numbers == []
  }

  lemma {:induction false} EncodedLengths(path: seq<Segment>)
    requires forall g :: g in path ==> WellFormed(g, 2) && WellFormed(g, 4)
    ensures |EncodePath(path, 2)| <= |EncodePath(path, 4)|
    ensures |EncodePath(path, 2)| == |EncodePath(path, 4)| ==> AllEmpty(path)
  {
    if path != [] {
      EncodedLengths(path[1..]);
      assert WellFormed(path[0], 2) && WellFormed(path[0], 4);
      if |EncodePath(path, 2)| == |EncodePath(path, 4)| {
        forall i | 0 <= i < |path| ensures path[i].numbers == [] {
          if i > 0 { assert path[i] == path[1..][i - 1]; }
        }
      }
    }
  }

  lemma {:induction false} SameWhenEmpty(path: seq<Segment>)
    requires AllEmpty(path) && forall g :: g in path ==> WellFormed(g, 4)
    ensures forall g :: g in path ==> WellFormed(g, 2)
    ensures EncodePath(path, 2) == EncodePath(path, 4)
  {
    if path != [] {
      assert WellFormed(path[0], 4) && path[0].numbers == [];
      forall i | 0 <= i < |path[1..]| ensures path[1..][i].numbers == [] {
        assert path[1..][i] == path[i + 1];
      }
      SameWhenEmpty(path[1..]);
    }
  }

  lemma {:induction false} EvenLength(path: seq<Segment>, size: nat)
    requires size == 2 || size == 4
    requires forall g :: g in path ==> WellFormed(g, size)
    ensures |EncodePath(path, size)| % 2 == 0
    ensures path != [] ==> EncodePath(path, size) != []
  {
    if path != [] {
      EvenLength(path[1..], size);
      assert WellFormed(path[0], size);
    }
  }

  /** Every 2-octet path is shown as it is, whatever was captured behind it. */
  lemma NarrowPathShown(path: seq<Segment>, after: seq<Byte>)
    requires path != [] && forall g :: g in path ==> WellFormed(g, 2)
    ensures var s := EncodePath(path, 2); ShowPath(AS_PATH, s + after, |s|) == Path(path)
  {
    hide EncodePath, Tiles, ReadPath, WellFormed;
    var s := EncodePath(path, 2);
    EvenLength(path, 2);
    assert [] + s + after == s + after;
    EncodedTiles([], path, after);
    PathReadBack([], path, 2, after);
  }

  /** A 4-octet path in `AS4_PATH` is shown as it is. */
  lemma As4PathShown(path: seq<Segment>, after: seq<Byte>)
    requires path != [] && forall g :: g in path ==> WellFormed(g, 4)
    ensures var s := EncodePath(path, 4); ShowPath(AS4_PATH, s + after, |s|) == Path(path)
  {
    hide EncodePath, Tiles, ReadPath, WellFormed;
    var s := EncodePath(path, 4);
    EvenLength(path, 4);
    assert [] + s + after == s + after;
    PathReadBack([], path, 4, after);
  }

  /**
   * A 4-octet path in `AS_PATH` is shown as it is exactly when its octets do not also tile as a 2-octet path,
   * or when it has no numbers at all; otherwise the 2-octet path with the same octets is shown.
   */
  lemma WidePathShown(path: seq<Segment>, after: seq<Byte>)
    requires path != [] && forall g :: g in path ==> WellFormed(g, 4)
    ensures var s := EncodePath(path, 4);
      ShowPath(AS_PATH, s + after, |s|) == Path(path) <==> !Tiles(s, |s|, 0) || AllEmpty(path)
    ensures var s := EncodePath(path, 4);
      Tiles(s, |s|, 0) ==>
        var shown := ShowPath(AS_PATH, s + after, |s|);
        shown.Path? && (forall g :: g in shown.path ==> WellFormed(g, 2)) && EncodePath(shown.path, 2) == s
  {
    hide EncodePath, Tiles, ReadPath, WellFormed, AllEmpty;
    var s := EncodePath(path, 4);
    var data := s + after;
    EvenLength(path, 4);
    assert [] + s + after == data && data[..|s|] == s;
    PathReadBack([], path, 4, after);
    TilesWithin(data, |s|, 0);
    if Tiles(s, |s|, 0) {
      TilesAreEncoded(data, |s|, 0);
      assert data[0..|s|] == s;
      var r := ReadPath(data, |s|, 0, 2);
      if r.path == path {
        EncodedLengths(path);
      }
      if AllEmpty(path) {
        SameWhenEmpty(path);
        PathReadBack([], path, 2, after);
      }
    }
  }

  /** A loop that is not cut has passed the end of the attribute, and everything it passed was captured. */
  lemma {:induction false} ListedIsCaptured(data: seq<Byte>, length: nat, offset: nat, size: nat)
    requires offset <= |data|
    ensures var r := ReadPath(data, length, offset, size); r.Listing? ==> length <= r.end <= |data|
    decreases length - offset
  {
    hide Numbers;
    if offset < length && offset + 1 < |data| {
      var next := offset + 2 + data[offset + 1] as int * size;
      if next <= |data| {
        ListedIsCaptured(data, length, next, size);
      }
    }
  }

  /** A path whose attribute was not captured whole is always reported as truncated. */
  lemma ShortCaptureTruncated(kind: nat, data: seq<Byte>, length: nat)
    requires |data| < length && length % 2 == 0
    ensures ShowPath(kind, data, length) == Truncated
  {
    hide ReadPath, Tiles;
    ListedIsCaptured(data, length, 0, 2);
    ListedIsCaptured(data, length, 0, 4);
  }

  const WIDE := [Segment(2, [65792])]
  const NARROW := [Segment(2, [1]), Segment(1, [])]

  lemma WideOctets()
    ensures WellFormed(WIDE[0], 4) && EncodePath(WIDE, 4) == [2, 1, 0, 1, 1, 0]
  {
    assert BeBytes(65792, 4) == [0, 1, 1, 0] by {
      assert BeBytes(257, 3) == [0, 1, 1] by { assert BeBytes(1, 2) == [0, 1]; }
    }
    assert Pow256(4) == 4294967296 by {
      assert Pow256(2) == 65536 by { assert Pow256(1) == 256; }
    }
    assert [65792][1..] == [] && WIDE[1..] == [];
    assert EncodeSegment(WIDE[0], 4) == [2, 1, 0, 1, 1, 0];
  }

  lemma NarrowOctets()
    ensures WellFormed(NARROW[0], 2) && WellFormed(NARROW[1], 2) && EncodePath(NARROW, 2) == [2, 1, 0, 1, 1, 0]
  {
    assert BeBytes(1, 2) == [0, 1];
    assert Pow256(2) == 65536 by { assert Pow256(1) == 256; }
    assert EncodeNumbers([1], 2) == [0, 1] by { assert [1][1..] == []; }
    assert NARROW[1..] == [Segment(1, [])];
    assert EncodePath(NARROW[1..], 2) == [1, 0];
    assert EncodeSegment(NARROW[0], 2) + [1, 0] == [2, 1, 0, 1, 1, 0];
  }

  /** The 4-octet AS number 65792 is shown as the number 1 and an empty second segment. */
  lemma WideAsNarrow(after: seq<Byte>)
    ensures WellFormed(WIDE[0], 4)
    ensures var s := EncodePath(WIDE, 4); ShowPath(AS_PATH, s + after, |s|) == Path(NARROW)
  {
    hide EncodePath, ShowPath, WellFormed;
    WideOctets();
    NarrowOctets();
    NarrowPathShown(NARROW, after);
  }
}
