/** `parse_elements` of tcpdump/print-802_11.c: the information elements of a management frame. */
module Elements {
  import opened Bytes

  const SSID := 0
  const RATES := 1
  const DS := 3
  const CF := 4
  const TIM := 5
  const CHALLENGE := 16

  /** An information element: one octet of identifier, one of length, and the body. */
  datatype Element = Element(id: Byte, body: seq<Byte>)

  predicate Sized(es: seq<Element>) {
    forall i :: 0 <= i < |es| ==> |es[i].body| <= 255
  }

  function Encode(es: seq<Element>): seq<Byte>
    requires Sized(es)
  {
    if es == [] then [] else [es[0].id, |es[0].body|] + es[0].body + Encode(es[1..])
  }

  /** A body too long for the structure that would hold it; it ends the parse. */
  predicate TooLong(e: Element) {
    || (e.id == SSID && |e.body| > 32)
    || (e.id == CHALLENGE && |e.body| > 253)
    || (e.id == RATES && |e.body| > 16)
    || (e.id == TIM && |e.body| > 254)
  }

  /** An element that may be stored for its kind. */
  predicate Acceptable(e: Element) {
    if e.id == SSID then |e.body| <= 32
    else if e.id == CHALLENGE then |e.body| <= 253
    else if e.id == RATES then 0 < |e.body| <= 16
    else if e.id == DS then |e.body| == 1
    else if e.id == CF then |e.body| == 6
    else if e.id == TIM then 3 < |e.body| <= 254
    else false
  }

  /** The first acceptable element of a kind. */
  function First(es: seq<Element>, id: nat): Option<seq<Byte>> {
    if es == [] then None
    else if es[0].id == id && Acceptable(es[0]) then Some(es[0].body)
    else First(es[1..], id)
  }

  lemma {:induction false} FirstAppend(es: seq<Element>, e: Element, id: nat)
    ensures First(es + [e], id) ==
      if First(es, id).Some? then First(es, id) else if e.id == id && Acceptable(e) then Some(e.body) else None
  {
    if es == [] {
      assert es + [e] == [e] && [e][1..] == [];
    } else {
      FirstAppend(es[1..], e, id);
      assert (es + [e])[1..] == es[1..] + [e];
    }
  }

  lemma NoneFirst()
    ensures forall id :: First([], id) == None
  {}

  datatype Parsed = Parsed(ok: bool, seen: seq<Element>)

  function Prepend(es: seq<Element>, p: Parsed): Parsed {
    Parsed(p.ok, es + p.seen)
  }

  /** The elements met from `offset` on in `length` octets of which `data` was captured, up to the first bad one. */
  function Parse(data: seq<Byte>, offset: nat, length: nat): Parsed
    decreases length
  {
    if length == 0 then Parsed(true, [])
    else if offset + 2 > |data| || length < 2 then Parsed(false, [])
    else
      var n: nat := data[offset + 1];
      if offset + 2 + n > |data| || length < n + 2 then Parsed(false, [])
      else
        var e := Element(data[offset], data[offset + 2..offset + 2 + n]);
        if TooLong(e) then Parsed(false, [])
        else Prepend([e], Parse(data, offset + 2 + n, length - 2 - n))
  }

  /** A whole element at `offset` is one round. */
  lemma ParseStep(data: seq<Byte>, offset: nat, length: nat, e: Element)
    requires !TooLong(e) && |e.body| <= 255
    requires offset + 2 + |e.body| <= |data| && 2 + |e.body| <= length
    requires data[offset] == e.id && data[offset + 1] == |e.body|
    requires data[offset + 2..offset + 2 + |e.body|] == e.body
    ensures Parse(data, offset, length) == Prepend([e], Parse(data, offset + 2 + |e.body|, length - 2 - |e.body|))
  {
    hide TooLong, Prepend;
  }

  lemma PrependTwice(a: seq<Element>, b: seq<Element>, p: Parsed)
    ensures Prepend(a, Prepend(b, p)) == Prepend(a + b, p)
  {
    assert a + (b + p.seen) == a + b + p.seen;
  }

  /** `struct mgmt_body_t`, the elements part: each kind's contents when its `present` flag is set. */
  class MgmtBody {
    var challenge: Option<seq<Byte>>
    var ssid: Option<seq<Byte>>
    var rates: Option<seq<Byte>>
    var ds: Option<seq<Byte>>
    var cf: Option<seq<Byte>>
    var tim: Option<seq<Byte>>

    /** Every field holds the first acceptable element of its kind. */
    ghost predicate Holds(es: seq<Element>)
      reads this
    {
      && challenge == First(es, CHALLENGE) && ssid == First(es, SSID) && rates == First(es, RATES)
      && ds == First(es, DS) && cf == First(es, CF) && tim == First(es, TIM)
    }

    constructor ()
    {
      challenge, ssid, rates, ds, cf, tim := None, None, None, None, None, None;
    }

    /** One element, by its kind: refused if too long, else stored if it is the first acceptable one. */
    method Store(id: Byte, body: seq<Byte>, ghost es: seq<Element>) returns (ok: bool)
      requires Holds(es)
      modifies this
      ensures ok <==> !TooLong(Element(id, body))
      ensures Holds(if ok then es + [Element(id, body)] else es)
    {
      hide First;
      ghost var e := Element(id, body);
      FirstAppend(es, e, CHALLENGE);
      FirstAppend(es, e, SSID);
      FirstAppend(es, e, RATES);
      FirstAppend(es, e, DS);
      FirstAppend(es, e, CF);
      FirstAppend(es, e, TIM);
      if id == SSID {
        if |body| > 32 {
          return false;
        }
        if ssid == None {
          ssid := Some(body);
        }
      } else if id == CHALLENGE {
        if |body| > 253 {
          return false;
        }
        if challenge == None {
          challenge := Some(body);
        }
      } else if id == RATES {
        if |body| > 16 {
          return false;
        }
        if rates == None && |body| != 0 {
          rates := Some(body);
        }
      } else if id == DS {
        if |body| == 1 && ds == None {
          ds := Some(body);
        }
      } else if id == CF {
        if |body| == 6 && cf == None {
          cf := Some(body);
        }
      } else if id == TIM {
        if |body| > 3 {
          if |body| - 3 > 251 {
            return false;
          }
          if tim == None {
            tim := Some(body);
          }
        }
      }
      ok := true;
    }

    /** `parse_elements`. */
    method ParseElements(data: seq<Byte>, start: nat, total: nat) returns (ok: bool)
      modifies this
      ensures ok == Parse(data, start, total).ok
      ensures Holds(Parse(data, start, total).seen)
    {
      hide First, TooLong, Acceptable;
      challenge, ssid, rates, ds, cf, tim := None, None, None, None, None, None;
      var offset: nat, length: nat := start, total;
      ghost var seen: seq<Element> := [];
      assert Holds([]) by { NoneFirst(); }
      while length != 0
        invariant offset + length == start + total
        invariant Prepend(seen, Parse(data, offset, length)) == Parse(data, start, total)
        invariant Holds(seen)
        decreases length
      {
        assert seen + [] == seen;
        if offset + 2 > |data| {
          return false;
        }
        if length < 2 {
          return false;
        }
        var n: nat := data[offset + 1];
        if offset + 2 + n > |data| {
          return false;
        }
        if length < n + 2 {
          return false;
        }
        ghost var e := Element(data[offset], data[offset + 2..offset + 2 + n]);
        var kept := Store(data[offset], data[offset + 2..offset + 2 + n], seen);
        if !kept {
          return false;
        }
        offset, length := offset + 2 + n, length - 2 - n;
        PrependTwice(seen, [e], Parse(data, offset, length));
        seen := seen + [e];
      }
      assert seen + [] == seen;
      ok := true;
    }
  }

  // ---- The element-list view ----

  lemma ParseNothing(data: seq<Byte>, offset: nat)
    ensures Parse(data, offset, 0) == Parsed(true, [])
  {}

  lemma ElementAt(before: seq<Byte>, e: Element, after: seq<Byte>)
    requires |e.body| <= 255
    ensures var data, at := before + ([e.id, |e.body|] + e.body) + after, |before|;
      && data[at] == e.id && data[at + 1] == |e.body|
      && data[at + 2..at + 2 + |e.body|] == e.body
  {}

  /** Encoded elements, none too long, parse as themselves wherever they lie. */
  lemma {:induction false} EncodedParses(before: seq<Byte>, es: seq<Element>, after: seq<Byte>)
    requires Sized(es) && forall e :: e in es ==> !TooLong(e)
    ensures Parse(before + Encode(es) + after, |before|, |Encode(es)|) == Parsed(true, es)
    decreases es
  {
    hide TooLong, Parse;
    var data, length := before + Encode(es) + after, |Encode(es)|;
    if es == [] {
      ParseNothing(data, |before|);
    } else {
      var e := es[0];
      var one: seq<Byte> := [e.id, |e.body|] + e.body;
      var rest := Encode(es[1..]);
      EncodedParses(before + one, es[1..], after);
      assert data == before + one + rest + after;
      ElementAt(before, e, rest + after);
      assert data == before + one + (rest + after);
      ParseStep(data, |before|, length, e);
      assert [e] + es[1..] == es;
    }
  }

  /** A parse that succeeds has found all the octets to be the encoding of the elements seen, none too long. */
  lemma {:induction false} ParsedIsEncoded(data: seq<Byte>, offset: nat, length: nat)
    requires Parse(data, offset, length).ok && (length == 0 ==> offset <= |data|)
    ensures var es := Parse(data, offset, length).seen;
      && offset + length <= |data| && Sized(es) && (forall e :: e in es ==> !TooLong(e))
      && Encode(es) == data[offset..offset + length]
    decreases length
  {
    hide TooLong;
    if length != 0 {
      var n: nat := data[offset + 1];
      var e := Element(data[offset], data[offset + 2..offset + 2 + n]);
      var rest := Parse(data, offset + 2 + n, length - 2 - n);
      ParsedIsEncoded(data, offset + 2 + n, length - 2 - n);
      assert Parse(data, offset, length) == Prepend([e], rest);
      EncodeOneMore(e, rest.seen);
      HeadElement(data, offset, n, offset + length);
    }
  }

  lemma EncodeOneMore(e: Element, rest: seq<Element>)
    requires |e.body| <= 255 && Sized(rest)
    ensures Sized([e] + rest) && Encode([e] + rest) == [e.id, |e.body|] + e.body + Encode(rest)
  {
    assert ([e] + rest)[1..] == rest;
  }

  lemma HeadElement(data: seq<Byte>, offset: nat, n: nat, end: nat)
    requires offset + 2 + n <= end <= |data|
    ensures data[offset..end] == [data[offset], data[offset + 1]] + data[offset + 2..offset + 2 + n] + data[offset + 2 + n..end]
  {}

  /** The region is the encoding of these elements, none of them too long, and all of it was captured. */
  ghost predicate View(data: seq<Byte>, offset: nat, length: nat, es: seq<Element>) {
    && offset + length <= |data| && Sized(es) && (forall e :: e in es ==> !TooLong(e))
    && Encode(es) == data[offset..offset + length]
  }

  /** The parse succeeds exactly on the regions that are element lists, and sees that list. */
  lemma ParseIsView(data: seq<Byte>, offset: nat, length: nat)
    requires offset <= |data|
    ensures Parse(data, offset, length).ok <==> exists es :: View(data, offset, length, es)
    ensures forall es :: View(data, offset, length, es) ==> Parse(data, offset, length) == Parsed(true, es)
  {
    hide Parse, TooLong, Encode, Sized;
    if Parse(data, offset, length).ok {
      ParsedIsEncoded(data, offset, length);
      assert View(data, offset, length, Parse(data, offset, length).seen);
    }
    forall es | View(data, offset, length, es) ensures Parse(data, offset, length) == Parsed(true, es) {
      EncodedParses(data[..offset], es, data[offset + length..]);
      assert data[..offset] + Encode(es) + data[offset + length..] == data;
    }
  }

  /** What "first acceptable" means: acceptable, and preceded by none of its kind that is. */
  lemma {:induction false} FirstIsFirst(es: seq<Element>, id: nat)
    ensures First(es, id) == None <==> forall i :: 0 <= i < |es| && es[i].id == id ==> !Acceptable(es[i])
    ensures First(es, id).Some? ==> exists i :: 0 <= i < |es| && IsFirst(es, id, i) && First(es, id) == Some(es[i].body)
  {
    hide Acceptable;
    if es != [] {
      if es[0].id == id && Acceptable(es[0]) {
        assert IsFirst(es, id, 0);
      } else {
        FirstIsFirst(es[1..], id);
        if First(es, id).Some? {
          var i :| 0 <= i < |es[1..]| && IsFirst(es[1..], id, i) && First(es[1..], id) == Some(es[1..][i].body);
          assert es[1..][i] == es[i + 1];
          forall k | 0 <= k < i + 1 ensures !(es[k].id == id && Acceptable(es[k])) {
            if k > 0 { assert es[k] == es[1..][k - 1]; }
          }
          assert IsFirst(es, id, i + 1);
        } else {
          forall i | 0 <= i < |es| && es[i].id == id ensures !Acceptable(es[i]) {
            if i > 0 { assert es[i] == es[1..][i - 1]; }
          }
        }
      }
    }
  }

  predicate IsFirst(es: seq<Element>, id: nat, i: nat)
    requires i < |es|
  {
    && es[i].id == id && Acceptable(es[i])
    && forall k :: 0 <= k < i ==> !(es[k].id == id && Acceptable(es[k]))
  }
}
