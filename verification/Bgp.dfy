/**
 The format guesses of tcpdump/print-bgp.c: whether reachability information
 carries path identifiers, and whether an AS path is made of 2-octet or 4-octet
 numbers.  `data` is what was captured from the start of the attribute on; it may
 be shorter or longer than the attribute's `length`.
 */
module Bgp {
  import opened Bytes

  function PrefixOctets(plen: nat): nat {
    (plen + 7) / 8
  }

  // ---- What the two formats are ----

  /** An address prefix as it is sent (section 4.3 of RFC 4271), with the path identifier of section 3 of RFC 7911. */
  datatype Prefix = Prefix(pathId: seq<Byte>, plen: Byte, octets: seq<Byte>)

  predicate WellFormed(p: Prefix, ids: bool, max: nat) {
    && |p.octets| == PrefixOctets(p.plen) && p.plen <= max
    && (if ids then |p.pathId| == 4 else p.pathId == [] && p.plen >= 1)
  }

  function EncodePrefix(p: Prefix): seq<Byte> {
    p.pathId + [p.plen] + p.octets
  }

  function EncodeList(list: seq<Prefix>): seq<Byte> {
    if list == [] then [] else EncodePrefix(list[0]) + EncodeList(list[1..])
  }

  /** The octets are a list of add-path prefixes, or a plain list of prefixes longer than zero. */
  ghost predicate IsList(s: seq<Byte>, ids: bool, max: nat) {
    exists list :: ListOf(list, s, ids, max)
  }

  ghost predicate ListOf(list: seq<Prefix>, s: seq<Byte>, ids: bool, max: nat) {
    (forall p :: p in list ==> WellFormed(p, ids, max)) && EncodeList(list) == s
  }

  // ---- The two scans ----

  /** The scan from `offset` on steps from prefix to prefix and ends exactly at `length`, or runs out of capture. */
  predicate Steps(data: seq<Byte>, length: nat, offset: nat, ids: bool, max: nat)
    decreases length - offset
  {
    var skip := if ids then 4 else 0;
    if offset >= length then offset == length
    else if offset + skip >= |data| then offset + skip <= length
    else
      var plen := data[offset + skip];
      && (ids || plen >= 1) && plen <= max
      && Steps(data, length, offset + skip + 1 + PrefixOctets(plen), ids, max)
  }

  method ScanAddPath(data: seq<Byte>, length: nat, max: nat) returns (fits: bool)
    ensures fits == Steps(data, length, 0, true, max)
  {
    var offset := 0;
    while offset < length
      invariant Steps(data, length, 0, true, max) == Steps(data, length, offset, true, max)
      decreases length - offset
    {
      offset := offset + 4;
      if offset >= |data| {
        break;
      }
      var plen := data[offset];
      if plen > max {
        return false;
      }
      offset := offset + 1 + PrefixOctets(plen);
    }
    fits := offset <= length;
  }

  method ScanPlain(data: seq<Byte>, length: nat, max: nat) returns (fits: bool)
    ensures fits == Steps(data, length, 0, false, max)
  {
    var offset := 0;
    while offset < length
      invariant Steps(data, length, 0, false, max) == Steps(data, length, offset, false, max)
      decreases length - offset
    {
      if offset >= |data| {
        break;
      }
      var plen := data[offset];
      if plen < 1 || plen > max {
        return false;
      }
      offset := offset + 1 + PrefixOctets(plen);
    }
    fits := offset <= length;
  }

  /**
   What the scan accepts when the attribute was captured whole: a list, or, if the
   capture ends with the attribute, an add-path list with four octets left over.
   */
  ghost predicate Accepted(data: seq<Byte>, length: nat, ids: bool, max: nat)
    requires length <= |data|
  {
    || IsList(data[..length], ids, max)
    || (ids && |data| == length && length >= 4 && IsList(data[..length - 4], ids, max))
  }

  /** `check_add_path`. */
  method CheckAddPath(data: seq<Byte>, length: nat, max: nat) returns (addPath: bool)
    ensures addPath == (length >= 5 && Steps(data, length, 0, true, max) && !Steps(data, length, 0, false, max))
    ensures |data| >= length ==>
      addPath == (length >= 5 && Accepted(data, length, true, max) && !IsList(data[..length], false, max))
  {
    if |data| >= length {
      StepsIsList(data, length, true, max);
      StepsIsList(data, length, false, max);
    }
    if length < 5 {
      return false;
    }
    var ids := ScanAddPath(data, length, max);
    if !ids {
      return false;
    }
    var plain := ScanPlain(data, length, max);
    addPath := !plain;
  }

  // ---- The scans recognise exactly the lists ----

  lemma {:induction false} StepsGiveList(data: seq<Byte>, length: nat, offset: nat, ids: bool, max: nat)
    returns (list: seq<Prefix>, end: nat)
    requires length <= |data| && offset <= length && Steps(data, length, offset, ids, max)
    ensures end == length || (ids && |data| == length && end == length - 4)
    ensures offset <= end && ListOf(list, data[offset..end], ids, max)
    decreases length - offset
  {
    var skip := if ids then 4 else 0;
    var at := offset + skip;
    if offset == length {
      list, end := [], length;
    } else if at >= |data| {
      list, end := [], offset;
    } else {
      var plen := data[at];
      var next := at + 1 + PrefixOctets(plen);
      StepsEndBy(data, length, next, ids, max);
      var rest;
      rest, end := StepsGiveList(data, length, next, ids, max);
      list := Prepend(data, offset, at, next, end, rest, ids, max);
    }
  }

  lemma Prepend(data: seq<Byte>, offset: nat, at: nat, next: nat, end: nat, rest: seq<Prefix>, ids: bool, max: nat)
    returns (list: seq<Prefix>)
    requires offset <= at < next <= end <= |data| && at == offset + (if ids then 4 else 0)
    requires next == at + 1 + PrefixOctets(data[at]) && data[at] <= max && (ids || data[at] >= 1)
    requires ListOf(rest, data[next..end], ids, max)
    ensures ListOf(list, data[offset..end], ids, max)
  {
    var p := Prefix(data[offset..at], data[at], data[at + 1..next]);
    list := [p] + rest;
    assert list[1..] == rest;
    assert WellFormed(p, ids, max);
    FourParts(data, offset, at, next, end);
  }

  lemma FourParts(data: seq<Byte>, offset: nat, at: nat, next: nat, end: nat)
    requires offset <= at < next <= end <= |data|
    ensures data[offset..end] == data[offset..at] + [data[at]] + data[at + 1..next] + data[next..end]
  {}

  lemma StepsEndBy(data: seq<Byte>, length: nat, offset: nat, ids: bool, max: nat)
    requires Steps(data, length, offset, ids, max)
    ensures offset <= length
  {}

  lemma {:induction false} ListGivesSteps(data: seq<Byte>, length: nat, offset: nat, list: seq<Prefix>, end: nat, ids: bool, max: nat)
    requires offset <= end <= length <= |data| && ListOf(list, data[offset..end], ids, max)
    requires end == length || (ids && |data| == length && end == length - 4)
    ensures Steps(data, length, offset, ids, max)
    decreases |list|
  {
    if list == [] {
      assert offset == end;
    } else {
      var p, rest := list[0], list[1..];
      assert WellFormed(p, ids, max);
      var e := EncodePrefix(p);
      assert data[offset..end] == e + EncodeList(rest);
      FirstOfTwo(data, offset, end, e, EncodeList(rest));
      var skip := if ids then 4 else 0;
      assert |e| == skip + 1 + PrefixOctets(p.plen) && e[skip] == p.plen;
      ListGivesSteps(data, length, offset + |e|, rest, end, ids, max);
    }
  }

  lemma FirstOfTwo(data: seq<Byte>, offset: nat, end: nat, a: seq<Byte>, b: seq<Byte>)
    requires offset <= end <= |data| && data[offset..end] == a + b
    ensures offset + |a| <= end && data[offset + |a|..end] == b
    ensures forall i :: 0 <= i < |a| ==> data[offset + i] == a[i]
  {
    var s := data[offset..end];
    assert s[|a|..] == b;
    assert forall i :: 0 <= i < |a| ==> s[i] == a[i];
  }

  lemma StepsIsList(data: seq<Byte>, length: nat, ids: bool, max: nat)
    requires length <= |data|
    ensures Steps(data, length, 0, ids, max) <==> Accepted(data, length, ids, max)
  {
    hide Steps, ListOf;
    assert data[0..length] == data[..length];
    if Steps(data, length, 0, ids, max) {
      var list, end := StepsGiveList(data, length, 0, ids, max);
      assert data[0..end] == data[..end];
    }
    if IsList(data[..length], ids, max) {
      var list :| ListOf(list, data[..length], ids, max);
      ListGivesSteps(data, length, 0, list, length, ids, max);
    } else if Accepted(data, length, ids, max) {
      assert data[0..length - 4] == data[..length - 4];
      var list :| ListOf(list, data[..length - 4], ids, max);
      ListGivesSteps(data, length, 0, list, length - 4, ids, max);
    }
  }

  /**
   Plain lists are never taken for add-path, and add-path lists always are unless they
   also read as plain, whatever was captured behind the list.
   */
  lemma GuessIsRight(list: seq<Prefix>, ids: bool, max: nat, after: seq<Byte>)
    requires list != [] && forall p :: p in list ==> WellFormed(p, ids, max)
    ensures var s := EncodeList(list);
      var data := s + after;
      var guess := |s| >= 5 && Steps(data, |s|, 0, true, max) && !Steps(data, |s|, 0, false, max);
      if ids then guess <==> !IsList(s, false, max) else !guess
  {
    hide Steps;
    var s := EncodeList(list);
    assert ListOf(list, s, ids, max);
    assert (s + after)[..|s|] == s;
    StepsIsList(s + after, |s|, true, max);
    StepsIsList(s + after, |s|, false, max);
    assert WellFormed(list[0], ids, max);
  }

  /** Some octets are both: three one-bit prefixes, or one add-path entry. */
  lemma BothReadings()
    ensures var s := [1, 0, 1, 0, 1, 0];
      IsList(s, true, 32) && IsList(s, false, 32)
  {
    var p := Prefix([], 1, [0]);
    var plain := [p, p, p];
    var ids := [Prefix([1, 0, 1, 0], 1, [0])];
    assert plain[1..] == [p, p] && plain[1..][1..] == [p] && plain[1..][1..][1..] == [];
    assert EncodeList([p]) == [1, 0];
    assert EncodeList([p, p]) == [1, 0, 1, 0];
    assert ListOf(plain, [1, 0, 1, 0, 1, 0], false, 32);
    assert ids[1..] == [];
    assert ListOf(ids, [1, 0, 1, 0, 1, 0], true, 32);
  }

  /** The left-over four octets are not noticed: an entry and a bare path identifier are labelled add-path. */
  lemma DanglingIdentifier()
    ensures var s := [0, 0, 0, 1, 8, 10, 0, 0, 0, 2];
      && !IsList(s, true, 32) && !IsList(s, false, 32)
      && Steps(s, |s|, 0, true, 32) && !Steps(s, |s|, 0, false, 32)
  {
    var s := [0, 0, 0, 1, 8, 10, 0, 0, 0, 2];
    assert s + [0] == [0, 0, 0, 1, 8, 10, 0, 0, 0, 2, 0];
    var t: seq<Byte> := s + [0];
    assert t[..10] == s;
    StepsIsList(t, 10, true, 32);
    StepsIsList(t, 10, false, 32);
    assert Steps(s, 10, 6, true, 32);
    assert !Steps(t, 10, 11, true, 32);
    assert !Steps(t, 10, 6, true, 32);
  }
}
