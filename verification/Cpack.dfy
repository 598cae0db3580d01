/**
 The cursor over a packed structure of tcpdump/cpack.c: little-endian integers,
 each at the next multiple of its own width from the start of the buffer.
 */
module Cpack {
  import opened Bytes

  datatype Kind = Kind(width: nat, signed: bool)

  predicate Known(k: Kind) {
    Natural(k.width)
  }

  /** The values of a kind, in two's complement if signed. */
  predicate InRange(k: Kind, v: int) {
    if k.signed then 0 - Pow256(k.width) <= 2 * v < Pow256(k.width) else 0 <= v < Pow256(k.width)
  }

  function Encode(k: Kind, v: int): (s: seq<Byte>)
    requires InRange(k, v)
    ensures |s| == k.width
  {
    LeBytes(if v < 0 then v + Pow256(k.width) else v, k.width)
  }

  /** The byte-wise EXTRACT_LE macros, with the cast to the signed type. */
  function Decode(k: Kind, s: seq<Byte>): int
    requires |s| == k.width
  {
    var u := LeValue(s);
    if k.signed && 2 * u >= Pow256(k.width) then u - Pow256(k.width) else u
  }

  lemma DecodeEncode(k: Kind, v: int)
    requires InRange(k, v)
    ensures Decode(k, Encode(k, v)) == v
  {
    var u := if v < 0 then v + Pow256(k.width) else v;
    LeRoundTrip(u, k.width);
  }

  predicate Natural(alignment: nat) {
    alignment == 1 || alignment == 2 || alignment == 4 || alignment == 8
  }

  /** `p % alignment`, for the alignments in use. */
  function Misalignment(p: nat, alignment: nat): (m: nat)
    requires Natural(alignment)
    ensures m < alignment
  {
    if alignment == 1 then 0 else if alignment == 2 then p % 2 else if alignment == 4 then p % 4 else p % 8
  }

  /** `cpack_next_boundary`, on offsets. */
  function NextBoundary(p: nat, alignment: nat): (q: nat)
    requires Natural(alignment)
    ensures p <= q < p + alignment
  {
    var misalignment := Misalignment(p, alignment);
    if misalignment == 0 then p else p + (alignment - misalignment)
  }

  /** The boundary is the first multiple of the alignment from the cursor on. */
  lemma BoundaryIsFirst(p: nat, alignment: nat, q: nat)
    requires Natural(alignment)
    ensures Misalignment(NextBoundary(p, alignment), alignment) == 0
    ensures p <= q && Misalignment(q, alignment) == 0 ==> NextBoundary(p, alignment) <= q
  {
    if alignment == 1 {
    } else if alignment == 2 {
    } else if alignment == 4 {
    } else {
    }
  }

  /** One read at offset `pos`: the value and where the cursor ends, or nothing if the field does not fit. */
  function ReadField(buf: seq<Byte>, pos: nat, k: Kind): Option<(int, nat)>
    requires Known(k)
  {
    var at := NextBoundary(pos, k.width);
    if at + k.width > |buf| then None else Some((Decode(k, buf[at..at + k.width]), at + k.width))
  }

  class CpackState {
    const buf: seq<Byte>
    var next: nat

    ghost predicate Valid()
      reads this
    {
      next <= |buf|
    }

    /** `cpack_init`. */
    constructor (buf: seq<Byte>)
      ensures Valid() && this.buf == buf && next == 0
    {
      this.buf, next := buf, 0;
    }

    /** `cpack_align_and_reserve`: a boundary with room behind it, or nothing. */
    function AlignAndReserve(wordsize: nat): (r: Option<nat>)
      requires Known(Kind(wordsize, false))
      reads this
      ensures r.Some? ==> next <= r.value && r.value + wordsize <= |buf| && Misalignment(r.value, wordsize) == 0
      ensures r == None ==>
        forall q :: next <= q && Misalignment(q, wordsize) == 0 ==> q + wordsize > |buf|
    {
      BoundaryIsFirst(next, wordsize, next);
      assert forall q :: next <= q && Misalignment(q, wordsize) == 0 ==> NextBoundary(next, wordsize) <= q by {
        forall q | next <= q && Misalignment(q, wordsize) == 0
          ensures NextBoundary(next, wordsize) <= q
        {
          BoundaryIsFirst(next, wordsize, q);
        }
      }
      var at := NextBoundary(next, wordsize);
      if at + wordsize > |buf| then None else Some(at)
    }

    /** `cpack_advance`. */
    method Advance(toskip: nat) returns (rc: int)
      requires Valid()
      modifies this
      ensures Valid()
      ensures rc == 0 <==> old(next) + toskip <= |buf|
      ensures next == if rc == 0 then old(next) + toskip else old(next)
    {
      if next + toskip > |buf| {
        return -1;
      }
      next := next + toskip;
      rc := 0;
    }

    /**
     The eight `cpack_(u)intN` readers.  Single octets are not aligned; the others
     are read at the boundary.  A read that does not fit leaves the cursor alone.
     */
    method Unpack(k: Kind) returns (rc: int, u: int)
      requires Valid() && Known(k)
      modifies this
      ensures Valid() && old(next) <= next
      ensures rc == 0 || rc == -1
      ensures rc == 0 ==> ReadField(buf, old(next), k) == Some((u, next))
      ensures rc != 0 ==> ReadField(buf, old(next), k) == None && next == old(next)
    {
      hide Decode;
      u := 0;
      if k.width == 1 {
        if next >= |buf| {
          return -1, 0;
        }
        u := Decode(k, buf[next..next + 1]);
        next := next + 1;
      } else {
        var at := AlignAndReserve(k.width);
        if at == None {
          return -1, 0;
        }
        u := Decode(k, buf[at.value..at.value + k.width]);
        next := at.value + k.width;
      }
      rc := 0;
    }
  }

  // ---- Whole structures ----

  /** Reads fields one after another, stopping at the first that does not fit: the values read and the cursor. */
  function ReadFields(buf: seq<Byte>, pos: nat, kinds: seq<Kind>): (seq<int>, nat)
    requires forall k :: k in kinds ==> Known(k)
    decreases |kinds|
  {
    if kinds == [] then ([], pos)
    else
      match ReadField(buf, pos, kinds[0])
      case None => ([], pos)
      case Some((v, next)) => var (vs, end) := ReadFields(buf, next, kinds[1..]); ([v] + vs, end)
  }

  datatype Field = Field(kind: Kind, value: int)

  predicate Sound(f: Field) {
    Known(f.kind) && InRange(f.kind, f.value)
  }

  function Kinds(fields: seq<Field>): (r: seq<Kind>)
    requires forall f :: f in fields ==> Sound(f)
    ensures |r| == |fields| && forall i :: 0 <= i < |r| ==> r[i] == fields[i].kind && Known(r[i])
  {
    assert forall i :: 0 <= i < |fields| ==> Sound(fields[i]);
    seq(|fields|, i requires 0 <= i < |fields| => fields[i].kind)
  }

  function Values(fields: seq<Field>): (v: seq<int>)
    ensures |v| == |fields| && forall i :: 0 <= i < |v| ==> v[i] == fields[i].value
  {
    seq(|fields|, i requires 0 <= i < |fields| => fields[i].value)
  }

  /** The buffer holds the fields from `pos` to `end`, each at natural alignment, whatever the padding. */
  ghost predicate LaidOut(buf: seq<Byte>, pos: nat, fields: seq<Field>, end: nat)
    requires forall f :: f in fields ==> Sound(f)
    decreases |fields|
  {
    if fields == [] then pos == end
    else
      var f := fields[0];
      assert Sound(f);
      var at := NextBoundary(pos, f.kind.width);
      && at + f.kind.width <= |buf|
      && buf[at..at + f.kind.width] == Encode(f.kind, f.value)
      && LaidOut(buf, at + f.kind.width, fields[1..], end)
  }

  /** A writer: pads to the boundary and appends. */
  function Layout(buf: seq<Byte>, fields: seq<Field>): (r: seq<Byte>)
    requires forall f :: f in fields ==> Sound(f)
    ensures buf <= r
    decreases |fields|
  {
    if fields == [] then buf
    else
      var f := fields[0];
      assert Sound(f);
      var pad := NextBoundary(|buf|, f.kind.width) - |buf|;
      Layout(buf + LeBytes(0, pad) + Encode(f.kind, f.value), fields[1..])
  }

  lemma {:induction false} LayoutIsLaidOut(buf: seq<Byte>, fields: seq<Field>)
    requires forall f :: f in fields ==> Sound(f)
    ensures LaidOut(Layout(buf, fields), |buf|, fields, |Layout(buf, fields)|)
    decreases |fields|
  {
    hide Encode, LeBytes, NextBoundary, InRange;
    if fields != [] {
      var f := fields[0];
      assert Sound(f);
      var at := NextBoundary(|buf|, f.kind.width);
      var more := buf + LeBytes(0, at - |buf|) + Encode(f.kind, f.value);
      LayoutIsLaidOut(more, fields[1..]);
      var r := Layout(buf, fields);
      assert r[at..at + f.kind.width] == more[at..at + f.kind.width];
    }
  }

  /** Every structure laid out at natural alignment is read back exactly, and the cursor ends where it ends. */
  lemma {:induction false} ReadBack(buf: seq<Byte>, pos: nat, fields: seq<Field>, end: nat)
    requires (forall f :: f in fields ==> Sound(f)) && LaidOut(buf, pos, fields, end)
    ensures ReadFields(buf, pos, Kinds(fields)) == (Values(fields), end)
    decreases |fields|
  {
    hide Encode, Decode, InRange, NextBoundary;
    if fields == [] {
    } else {
      var f, rest := fields[0], fields[1..];
      assert Sound(f);
      DecodeEncode(f.kind, f.value);
      var next := NextBoundary(pos, f.kind.width) + f.kind.width;
      ReadBack(buf, next, rest, end);
      assert Kinds(fields)[1..] == Kinds(rest);
      assert Values(fields) == [f.value] + Values(rest);
    }
  }

  lemma WriteThenRead(buf: seq<Byte>, fields: seq<Field>)
    requires forall f :: f in fields ==> Sound(f)
    ensures ReadFields(Layout(buf, fields), |buf|, Kinds(fields)) == (Values(fields), |Layout(buf, fields)|)
  {
    LayoutIsLaidOut(buf, fields);
    ReadBack(Layout(buf, fields), |buf|, fields, |Layout(buf, fields)|);
  }
}
