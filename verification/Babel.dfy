/**
 * The Babel decoder of tcpdump/print-babel.c, in its verbose mode: prefix decompression and the loop over the
 * TLVs of a packet, against the encoding of section 4.4.9 of RFC 6126.
 */
module Babel {
  import opened Bytes

  type Address = s: seq<Byte> | |s| == 16 witness [0, 0, 0, 0, 0, 0, 0, 0, 0, 0, 0, 0, 0, 0, 0, 0]

  const V4PREFIX: Address := [0, 0, 0, 0, 0, 0, 0, 0, 0, 0, 0xFF, 0xFF, 0, 0, 0, 0]

  /** An IPv4 address inside IPv6 (section 2.5.5.2 of RFC 4291). */
  predicate Mapped(a: Address) {
    a[..12] == V4PREFIX[..12]
  }

  function Zeros(n: nat): (s: seq<Byte>)
    ensures |s| == n && forall i :: 0 <= i < n ==> s[i] == 0
  {
    if n == 0 then [] else Zeros(n - 1) + [0]
  }

  function Padded(s: seq<Byte>): Address
    requires |s| <= 16
  {
    s + Zeros(16 - |s|)
  }

  const LINK_LOCAL: seq<Byte> := [0xfe, 0x80, 0, 0, 0, 0, 0, 0]

  // ---- One prefix ----

  /** The octets of a prefix of `plen` bits; a negative length stands for a whole address. */
  function PrefixOctets(ae: nat, plen: int): nat {
    if plen >= 0 then (plen + 7) / 8 else if ae == 1 then 4 else 16
  }

  datatype Found = Bad | Found(prefix: Address, consumed: nat)

  /** How many octets of the prefix are sent, when `omitted` are not. */
  function Sent(pb: nat, omitted: nat): nat {
    if pb > omitted then pb - omitted else 0
  }

  /** A prefix that begins with `known`, goes on with `n` octets of `p`, and ends in zeros. */
  function Completed(known: seq<Byte>, p: seq<Byte>, n: nat): (r: Found)
    requires |known| + n <= 16
    ensures r.Found? ==> r.consumed <= |p|
  {
    if n > |p| then Bad else Found(Padded(known + p[..n]), n)
  }

  function PrefixV4(pb: nat, omitted: nat, p: seq<Byte>, base: Option<Address>): Found {
    if omitted > 4 || pb > 4 || (omitted > 0 && base == None) then Bad
    else Completed(if omitted > 0 then base.value[..12 + omitted] else V4PREFIX[..12], p, Sent(pb, omitted))
  }

  function PrefixV6(pb: nat, omitted: nat, p: seq<Byte>, base: Option<Address>): Found
    requires pb <= 16
  {
    if omitted > 16 || (omitted > 0 && base == None) then Bad
    else Completed(if omitted > 0 then base.value[..omitted] else [], p, Sent(pb, omitted))
  }

  /** The prefix that `p` completes: its first `omitted` octets come from the default prefix `base`. */
  function Prefix(ae: nat, plen: int, omitted: nat, p: seq<Byte>, base: Option<Address>): (r: Found)
    ensures r.Found? ==> r.consumed <= |p|
  {
    var pb := PrefixOctets(ae, plen);
    if pb > 16 then Bad
    else if ae == 0 then Found(Zeros(16), 0)
    else if ae == 1 then PrefixV4(pb, omitted, p, base)
    else if ae == 2 then PrefixV6(pb, omitted, p, base)
    else if ae == 3 then Completed(LINK_LOCAL, p, Sent(pb, 8))
    else Bad
  }

  /** `dst[at..at + |src|] = src`. */
  function Copied(dst: seq<Byte>, at: nat, src: seq<Byte>): seq<Byte>
    requires at + |src| <= |dst|
  {
    dst[..at] + src + dst[at + |src|..]
  }

  method Memcpy(dst: array<Byte>, at: nat, src: seq<Byte>)
    requires at + |src| <= dst.Length
    modifies dst
    ensures dst[..] == Copied(old(dst[..]), at, src)
  {
    for i := 0 to |src|
      invariant dst[..] == Copied(old(dst[..]), at, src[..i])
    {
      ghost var was := dst[..];
      dst[at + i] := src[i];
      assert dst[..] == was[at + i := src[i]];
      assert src[..i + 1] == src[..i] + [src[i]];
    }
    assert src[..|src|] == src;
  }

  lemma CopyOver(s: seq<Byte>, t: seq<Byte>)
    requires |s| <= |t| <= 16
    ensures Copied(Padded(s), 0, t) == Padded(t)
  {}

  lemma CopyAfter(s: seq<Byte>, t: seq<Byte>)
    requires |s| + |t| <= 16
    ensures Copied(Padded(s), |s|, t) == Padded(s + t)
  {}

  lemma PadNothing(s: seq<Byte>)
    requires |s| <= 16 && forall i :: 0 <= i < |s| ==> s[i] == 0
    ensures Padded(s) == Zeros(16)
  {}

  lemma PadLinkLocal(s: seq<Byte>)
    requires |s| == 16 && s == Zeros(16)[0 := 0xfe][1 := 0x80]
    ensures s == Padded(LINK_LOCAL)
  {}

  lemma CopyAll(s: seq<Byte>, t: seq<Byte>)
    requires |s| == |t|
    ensures Copied(s, 0, t) == t
  {}

  /** The copy of the octets sent. */
  method Complete(prefix: array<Byte>, ghost known: seq<Byte>, at: nat, pb: nat, omitted: nat, p: seq<Byte>)
    returns (consumed: nat)
    requires prefix.Length == 16 && |known| == at && at + Sent(pb, omitted) <= 16 && prefix[..] == Padded(known)
    requires Sent(pb, omitted) <= |p|
    modifies prefix
    ensures Completed(known, p, Sent(pb, omitted)) == Found(prefix[..], consumed)
  {
    hide Padded, Copied;
    consumed := 0;
    assert known + [] == known;
    if pb > omitted {
      CopyAfter(known, p[..pb - omitted]);
      Memcpy(prefix, at, p[..pb - omitted]);
      consumed := pb - omitted;
    }
  }

  method FillV4(prefix: array<Byte>, pb: nat, omitted: nat, p: seq<Byte>, dp: Option<Address>) returns (consumed: int)
    requires prefix.Length == 16 && prefix[..] == Zeros(16)
    modifies prefix
    ensures consumed < 0 <==> PrefixV4(pb, omitted, p, dp).Bad?
    ensures consumed >= 0 ==> PrefixV4(pb, omitted, p, dp) == Found(prefix[..], consumed)
  {
    hide Padded, Copied, Zeros;
    if omitted > 4 || pb > 4 || (pb > omitted && |p| < pb - omitted) {
      return -1;
    }
    PadNothing([]);
    ghost var known: seq<Byte> := V4PREFIX[..12];
    CopyOver([], known);
    Memcpy(prefix, 0, V4PREFIX[..12]);
    if omitted > 0 {
      if dp == None {
        return -1;
      }
      CopyOver(known, dp.value[..12 + omitted]);
      known := dp.value[..12 + omitted];
      Memcpy(prefix, 0, dp.value[..12 + omitted]);
    }
    consumed := Complete(prefix, known, 12 + omitted, pb, omitted, p);
  }

  method FillV6(prefix: array<Byte>, pb: nat, omitted: nat, p: seq<Byte>, dp: Option<Address>) returns (consumed: int)
    requires prefix.Length == 16 && prefix[..] == Zeros(16) && pb <= 16
    modifies prefix
    ensures consumed < 0 <==> PrefixV6(pb, omitted, p, dp).Bad?
    ensures consumed >= 0 ==> PrefixV6(pb, omitted, p, dp) == Found(prefix[..], consumed)
  {
    hide Padded, Copied, Zeros;
    if omitted > 16 || (pb > omitted && |p| < pb - omitted) {
      return -1;
    }
    PadNothing([]);
    ghost var known: seq<Byte> := [];
    if omitted > 0 {
      if dp == None {
        return -1;
      }
      known := dp.value[..omitted];
      CopyOver([], known);
      Memcpy(prefix, 0, dp.value[..omitted]);
    }
    consumed := Complete(prefix, known, omitted, pb, omitted, p);
  }

  method FillLinkLocal(prefix: array<Byte>, pb: nat, p: seq<Byte>) returns (consumed: int)
    requires prefix.Length == 16 && prefix[..] == Zeros(16) && pb <= 16
    modifies prefix
    ensures consumed < 0 <==> Completed(LINK_LOCAL, p, Sent(pb, 8)).Bad?
    ensures consumed >= 0 ==> Completed(LINK_LOCAL, p, Sent(pb, 8)) == Found(prefix[..], consumed)
  {
    hide Padded, Zeros;
    if pb > 8 && |p| < pb - 8 {
      return -1;
    }
    prefix[0] := 0xfe;
    prefix[1] := 0x80;
    assert prefix[..] == Zeros(16)[0 := 0xfe][1 := 0x80];
    PadLinkLocal(prefix[..]);
    consumed := Complete(prefix, LINK_LOCAL, 8, pb, 8, p);
  }

  /** `network_prefix`: the octets consumed, or -1 with the caller's buffer untouched. */
  method NetworkPrefix(ae: nat, plen: int, omitted: nat, p: seq<Byte>, dp: Option<Address>, pr: array<Byte>)
    returns (consumed: int)
    requires pr.Length == 16
    modifies pr
    ensures consumed < 0 <==> Prefix(ae, plen, omitted, p, dp).Bad?
    ensures consumed < 0 ==> pr[..] == old(pr[..])
    ensures consumed >= 0 ==> Prefix(ae, plen, omitted, p, dp) == Found(pr[..], consumed)
  {
    hide PrefixV4, PrefixV6, Completed, Copied, Zeros;
    var pb := if plen >= 0 then (plen + 7) / 8 else if ae == 1 then 4 else 16;
    if pb > 16 {
      return -1;
    }
    var prefix := new Byte[16](_ => 0);
    consumed := 0;
    assert prefix[..] == Zeros(16);
    if ae == 0 {
    } else if ae == 1 {
      consumed := FillV4(prefix, pb, omitted, p, dp);
    } else if ae == 2 {
      consumed := FillV6(prefix, pb, omitted, p, dp);
    } else if ae == 3 {
      consumed := FillLinkLocal(prefix, pb, p);
    } else {
      return -1;
    }
    if consumed < 0 {
      return -1;
    }
    CopyAll(pr[..], prefix[..]);
    Memcpy(pr, 0, prefix[..]);
  }

  // ---- The TLVs of a packet ----

  const UPDATE := 8

  datatype Update = Update(ae: Byte, flags: Byte, plen: Byte, interval: U16, seqno: U16, metric: U16, prefix: Address)

  /** The two default prefixes that an Update may leave for the Updates after it. */
  datatype Defaults = Defaults(v4: Address, v6: Address)

  function Base(d: Defaults, ae: nat): Option<Address> {
    Some(if ae == 1 then d.v4 else d.v6)
  }

  /** Flag 0x80 makes the prefix of an Update a default. */
  function Kept(d: Defaults, u: Update): Defaults {
    if u.flags < 0x80 then d
    else if u.ae == 1 then d.(v4 := u.prefix)
    else d.(v6 := u.prefix)
  }

  function OfTwo(high: Byte, low: Byte): U16 {
    256 * high as int + low
  }

  /** The body of an Update TLV. */
  function ReadUpdate(body: seq<Byte>, d: Defaults): Option<Update> {
    if |body| < 10 then None
    else
      match Prefix(body[0], body[2], body[3], body[10..], Base(d, body[0]))
      case Bad => None
      case Found(prefix, _) =>
        Some(Update(body[0], body[1], body[2], OfTwo(body[4], body[5]), OfTwo(body[6], body[7]),
                    OfTwo(body[8], body[9]), prefix))
  }

  /** A prefix as a TLV announces it: its length, negative for a whole address, and the octets it omits. */
  datatype Piece = Piece(plen: int, omitted: nat)

  /** The octets a piece takes, if its family allows it. */
  function Takes(ae: nat, piece: Piece): Option<nat> {
    var pb := PrefixOctets(ae, piece.plen);
    if pb > 16 || ae > 3 then None
    else if ae == 1 && (pb > 4 || piece.omitted > 4) then None
    else if ae == 2 && piece.omitted > 16 then None
    else Some(if ae == 0 then 0 else Sent(pb, if ae == 3 then 8 else piece.omitted))
  }

  /** The octets that pieces take together. */
  function TakeAll(ae: nat, pieces: seq<Piece>): Option<nat> {
    if pieces == [] then Some(0)
    else
      var first, rest := Takes(ae, pieces[0]), TakeAll(ae, pieces[1..]);
      if first == None || rest == None then None else Some(first.value + rest.value)
  }

  /** The octets of the fixed part of a TLV of each kind but Update. */
  function Fixed(kind: Byte): nat {
    match kind
    case 2 => 6
    case 3 => 2
    case 4 => 6
    case 5 => 6
    case 6 => 10
    case 7 => 2
    case 9 => 2
    case 10 => 14
    case 11 => 6
    case 12 => 18
    case 13 => 10
    case 14 => 3
    case 15 => 14
    case _ => 0
  }

  /** The prefixes that must follow the fixed part. */
  function Carried(kind: Byte, body: seq<Byte>): seq<Piece>
    requires Fixed(kind) <= |body|
  {
    match kind
    case 7 => [Piece(-1, 0)]
    case 9 => [Piece(body[1], 0)]
    case 10 => [Piece(body[1], 0)]
    case 13 => [Piece(body[2], body[3]), Piece(body[1], 0)]
    case 14 => [Piece(body[1], 0), Piece(body[2], 0)]
    case 15 => [Piece(body[1], 0), Piece(body[5], 0)]
    case _ => []
  }

  /** A body with room for its fixed part and all the prefixes it announces. */
  predicate Sufficient(kind: Byte, body: seq<Byte>) {
    && Fixed(kind) <= |body|
    && (Carried(kind, body) == [] ||
        (TakeAll(body[0], Carried(kind, body)).Some?
         && Fixed(kind) + TakeAll(body[0], Carried(kind, body)).value <= |body|))
  }

  /** `network_prefix` fails exactly for pieces that are not allowed or do not fit. */
  lemma PrefixTakes(ae: nat, piece: Piece, p: seq<Byte>, base: Option<Address>)
    requires base.Some? || piece.omitted == 0
    ensures var r, n := Prefix(ae, piece.plen, piece.omitted, p, base), Takes(ae, piece);
      if n.Some? && n.value <= |p| then r.Found? && r.consumed == n.value else r.Bad?
  {
    hide Padded;
  }

  /** Octets behind a sufficient body, such as sub-TLVs, leave it sufficient. */
  lemma SufficientGrows(kind: Byte, body: seq<Byte>, extra: seq<Byte>)
    requires Sufficient(kind, body)
    ensures Sufficient(kind, body + extra)
  {
    assert Carried(kind, body + extra) == Carried(kind, body);
  }

  datatype Item = Pad1 | Route(update: Update) | Other(kind: Byte)
  datatype Verdict = Done | Truncated | Invalid | BadHeader | BadVersion
  datatype Round = Stop(verdict: Verdict) | Go(item: Item, next: nat, d: Defaults)

  /** One round of the loop, at offset `i` of the body; `data` is what was captured of a packet of `length` octets. */
  function Tlv(data: seq<Byte>, length: nat, bodylen: nat, i: nat, d: Defaults): (r: Round)
    ensures r.Go? ==> i < r.next
  {
    var m := 4 + i;
    if m >= |data| then Stop(Truncated)
    else if data[m] == 0 then Go(Pad1, i + 1, d)
    else if m + 2 > |data| then Stop(Truncated)
    else if i + 2 > bodylen || i + 2 > length then Stop(Invalid)
    else
      var len: nat := data[m + 1];
      if m + 2 + len > |data| then Stop(Truncated)
      else if i + 2 + len > bodylen || i + 2 + len > length then Stop(Invalid)
      else
        var body := data[m + 2..m + 2 + len];
        if data[m] == UPDATE then
          match ReadUpdate(body, d)
          case None => Stop(Invalid)
          case Some(u) => Go(Route(u), i + 2 + len, Kept(d, u))
        else if Sufficient(data[m], body) then Go(Other(data[m]), i + 2 + len, d)
        else Stop(Invalid)
  }

  datatype Listing = Listing(items: seq<Item>, verdict: Verdict, d: Defaults)

  function Before(items: seq<Item>, l: Listing): Listing {
    l.(items := items + l.items)
  }

  /** What the loop shows from offset `i` on, how it ends, and the defaults it leaves. */
  function Decode(data: seq<Byte>, length: nat, bodylen: nat, i: nat, d: Defaults): Listing
    decreases bodylen - i
  {
    if i >= bodylen then Listing([], Done, d)
    else
      match Tlv(data, length, bodylen, i, d)
      case Stop(verdict) => Listing([], verdict, d)
      case Go(item, next, kept) => Before([item], Decode(data, length, bodylen, next, kept))
  }

  const START := Defaults(V4PREFIX, Zeros(16))

  /** What is shown of a packet. */
  function Show(data: seq<Byte>, length: nat): Listing {
    if |data| < 4 then Listing([], Truncated, START)
    else if data[0] != 42 then Listing([], BadHeader, START)
    else if data[1] != 2 then Listing([], BadVersion, START)
    else if length < 4 then Listing([], Invalid, START)
    else Decode(data, length, OfTwo(data[2], data[3]), 0, START)
  }

  ghost function Held(v4: array<Byte>, v6: array<Byte>): Defaults
    requires v4.Length == 16 && v6.Length == 16
    reads v4, v6
  {
    Defaults(v4[..], v6[..])
  }

  /** The Update case: on success the prefix is shown and, when flagged, copied over one of the two defaults. */
  method UpdateTlv(body: seq<Byte>, v4: array<Byte>, v6: array<Byte>) returns (ok: bool, u: Update)
    requires v4.Length == 16 && v6.Length == 16 && v4 != v6
    modifies v4, v6
    ensures ok <==> ReadUpdate(body, old(Held(v4, v6))).Some?
    ensures ok ==> ReadUpdate(body, old(Held(v4, v6))) == Some(u) && Held(v4, v6) == Kept(old(Held(v4, v6)), u)
    ensures !ok ==> Held(v4, v6) == old(Held(v4, v6))
  {
    hide Prefix, Copied;
    u := Update(0, 0, 0, 0, 0, 0, V4PREFIX);
    if |body| < 10 {
      return false, u;
    }
    var prefix := new Byte[16];
    var ae := body[0];
    var dp: Address := if ae == 1 then v4[..] else v6[..];
    var rc := NetworkPrefix(ae, body[2], body[3], body[10..], Some(dp), prefix);
    if rc < 0 {
      return false, u;
    }
    u := Update(ae, body[1], body[2], OfTwo(body[4], body[5]), OfTwo(body[6], body[7]), OfTwo(body[8], body[9]),
                prefix[..]);
    if body[1] >= 0x80 {
      if ae == 1 {
        CopyAll(v4[..], prefix[..]);
        Memcpy(v4, 0, prefix[..]);
      } else {
        CopyAll(v6[..], prefix[..]);
        Memcpy(v6, 0, prefix[..]);
      }
    }
    ok := true;
  }

  method CheckPrefix(ae: nat, plen: int, p: seq<Byte>) returns (ok: bool)
    ensures var n := TakeAll(ae, [Piece(plen, 0)]); ok <==> n.Some? && n.value <= |p|
  {
    hide Prefix, Takes;
    var scratch := new Byte[16];
    var rc := NetworkPrefix(ae, plen, 0, p, None, scratch);
    PrefixTakes(ae, Piece(plen, 0), p, None);
    assert [Piece(plen, 0)][1..] == [];
    ok := rc >= 0;
  }

  /** A destination prefix and then a source prefix, as the source-specific TLVs carry them. */
  method CheckTwoPrefixes(ae: nat, plen: nat, omitted: nat, dp: Option<Address>, srcPlen: nat, p: seq<Byte>)
    returns (ok: bool)
    requires dp.Some? || omitted == 0
    ensures var n := TakeAll(ae, [Piece(plen, omitted), Piece(srcPlen, 0)]); ok <==> n.Some? && n.value <= |p|
  {
    hide Prefix, Takes;
    ghost var pieces := [Piece(plen, omitted), Piece(srcPlen, 0)];
    assert pieces[1..] == [Piece(srcPlen, 0)];
    var scratch := new Byte[16];
    var rc := NetworkPrefix(ae, plen, omitted, p, dp, scratch);
    PrefixTakes(ae, Piece(plen, omitted), p, dp);
    if rc < 0 {
      return false;
    }
    ok := CheckPrefix(ae, srcPlen, p[rc..]);
  }

  /** The checks of every other case: such a TLV passes exactly when its body is sufficient. */
  method CheckTlv(kind: Byte, body: seq<Byte>, d: Defaults) returns (ok: bool)
    ensures ok <==> Sufficient(kind, body)
  {
    hide TakeAll;
    var len := |body|;
    match kind {
      case 2 => ok := len >= 6;
      case 3 => ok := len >= 2;
      case 4 => ok := len >= 6;
      case 5 => ok := len >= 6;
      case 6 => ok := len >= 10;
      case 7 =>
        if len < 2 { return false; }
        ok := CheckPrefix(body[0], -1, body[2..]);
      case 9 =>
        if len < 2 { return false; }
        ok := CheckPrefix(body[0], body[1], body[2..]);
      case 10 =>
        if len < 14 { return false; }
        ok := CheckPrefix(body[0], body[1], body[14..]);
      case 11 => ok := len >= 6;
      case 12 => ok := len >= 18;
      case 13 =>
        if len < 10 { return false; }
        ok := CheckTwoPrefixes(body[0], body[2], body[3], Some(if body[0] == 1 then d.v4 else d.v6), body[1], body[10..]);
      case 14 =>
        if len < 3 { return false; }
        ok := CheckTwoPrefixes(body[0], body[1], 0, None, body[2], body[3..]);
      case 15 =>
        if len < 14 { return false; }
        ok := CheckTwoPrefixes(body[0], body[1], 0, None, body[5], body[14..]);
      case _ => ok := true;
    }
  }

  /** One round of the loop of `babel_print_v2`. */
  method NextTlv(data: seq<Byte>, length: nat, bodylen: nat, i: nat, v4: array<Byte>, v6: array<Byte>)
    returns (verdict: Verdict, item: Item, next: nat)
    requires v4.Length == 16 && v6.Length == 16 && v4 != v6 && i < bodylen
    modifies v4, v6
    ensures verdict != Done ==>
      Tlv(data, length, bodylen, i, old(Held(v4, v6))) == Stop(verdict) && Held(v4, v6) == old(Held(v4, v6))
    ensures verdict == Done ==>
      Tlv(data, length, bodylen, i, old(Held(v4, v6))) == Go(item, next, Held(v4, v6)) && i < next
  {
    hide ReadUpdate, Sufficient, Kept;
    item, next := Pad1, i;
    var m := 4 + i;
    if m >= |data| {
      return Truncated, item, next;
    }
    if data[m] == 0 {
      return Done, Pad1, i + 1;
    }
    if m + 2 > |data| {
      return Truncated, item, next;
    }
    if i + 2 > bodylen || i + 2 > length {
      return Invalid, item, next;
    }
    var len: nat := data[m + 1];
    if m + 2 + len > |data| {
      return Truncated, item, next;
    }
    if i + 2 + len > bodylen || i + 2 + len > length {
      return Invalid, item, next;
    }
    next := i + 2 + len;
    var body := data[m + 2..m + 2 + len];
    if data[m] == UPDATE {
      var ok, u := UpdateTlv(body, v4, v6);
      item := Route(u);
      verdict := if ok then Done else Invalid;
    } else {
      var ok := CheckTlv(data[m], body, Defaults(v4[..], v6[..]));
      item := Other(data[m]);
      verdict := if ok then Done else Invalid;
    }
  }

  lemma BeforeTwice(a: seq<Item>, b: seq<Item>, l: Listing)
    ensures Before(a, Before(b, l)) == Before(a + b, l)
  {
    assert a + (b + l.items) == a + b + l.items;
  }

  /** `babel_print` and `babel_print_v2`. */
  method BabelPrint(data: seq<Byte>, length: nat) returns (items: seq<Item>, verdict: Verdict)
    ensures items == Show(data, length).items && verdict == Show(data, length).verdict
  {
    hide Tlv, Zeros;
    items := [];
    if |data| < 4 {
      return [], Truncated;
    }
    if data[0] != 42 {
      return [], BadHeader;
    }
    if data[1] != 2 {
      return [], BadVersion;
    }
    if length < 4 {
      return [], Invalid;
    }
    var v4 := new Byte[16](i requires 0 <= i < 16 => V4PREFIX[i]);
    var v6 := new Byte[16](_ => 0);
    assert v4[..] == V4PREFIX && v6[..] == Zeros(16);
    var bodylen := OfTwo(data[2], data[3]);
    var i := 0;
    ghost var all := Decode(data, length, bodylen, 0, START);
    while i < bodylen
      invariant all == Before(items, Decode(data, length, bodylen, i, Held(v4, v6)))
      decreases bodylen - i
    {
      var item, next;
      verdict, item, next := NextTlv(data, length, bodylen, i, v4, v6);
      if verdict != Done {
        return items, verdict;
      }
      BeforeTwice(items, [item], Decode(data, length, bodylen, next, Held(v4, v6)));
      items := items + [item];
      i := next;
    }
    verdict := Done;
  }

  // ---- The IPv4 default stays an IPv4 address ----

  lemma PrefixIsMapped(plen: int, omitted: nat, p: seq<Byte>, base: Address)
    requires Mapped(base)
    ensures var r := Prefix(1, plen, omitted, p, Some(base)); r.Found? ==> Mapped(r.prefix)
  {
    hide Zeros;
    var r := Prefix(1, plen, omitted, p, Some(base));
    if r.Found? && omitted > 0 {
      assert base[..12 + omitted][..12] == base[..12];
    }
  }

  predicate MappedItem(item: Item) {
    item.Route? && item.update.ae == 1 ==> Mapped(item.update.prefix)
  }

  lemma RoundKeepsMapped(data: seq<Byte>, length: nat, bodylen: nat, i: nat, d: Defaults)
    requires Mapped(d.v4)
    ensures var r := Tlv(data, length, bodylen, i, d); r.Go? ==> Mapped(r.d.v4) && MappedItem(r.item)
  {
    hide Prefix, Mapped, Sufficient;
    var m := 4 + i;
    if m + 2 <= |data| && m + 2 + data[m + 1] as int <= |data| {
      var body := data[m + 2..m + 2 + data[m + 1] as int];
      if |body| >= 10 && body[0] == 1 {
        PrefixIsMapped(body[2], body[3], body[10..], d.v4);
      }
    }
  }

  /** Whatever the packet holds, every AE 1 Update is shown with an IPv4 prefix and the default left is one. */
  lemma {:induction false} DecodeKeepsMapped(data: seq<Byte>, length: nat, bodylen: nat, i: nat, d: Defaults)
    requires Mapped(d.v4)
    ensures var l := Decode(data, length, bodylen, i, d);
      Mapped(l.d.v4) && forall k :: 0 <= k < |l.items| ==> MappedItem(l.items[k])
    decreases bodylen - i
  {
    hide Tlv, Mapped, MappedItem;
    if i < bodylen {
      RoundKeepsMapped(data, length, bodylen, i, d);
      var r := Tlv(data, length, bodylen, i, d);
      if r.Go? {
        DecodeKeepsMapped(data, length, bodylen, r.next, r.d);
      }
    }
  }

  // ---- Encoded packets are read back ----

  function Two(x: U16): seq<Byte> {
    [x / 256, x % 256]
  }

  /** The address an encoder of family `ae` sees: its own 4 or 16 octets. */
  function Own(ae: nat, a: Address): seq<Byte> {
    if ae == 1 then a[12..] else a
  }

  /** An IPv4 or IPv6 prefix of at most its family's length, with zeros past that length. */
  predicate Canonical(u: Update) {
    var own, pb := Own(u.ae, u.prefix), PrefixOctets(u.ae, u.plen);
    && (u.ae == 1 || u.ae == 2)
    && (u.ae == 1 ==> Mapped(u.prefix))
    && pb <= |own|
    && (forall i :: pb <= i < |own| ==> own[i] == 0)
  }

  /** The first `omitted` octets are those of the current default. */
  predicate Shared(d: Defaults, u: Update, omitted: nat)
    requires omitted <= |Own(u.ae, u.prefix)|
  {
    Own(u.ae, u.prefix)[..omitted] == Own(u.ae, Base(d, u.ae).value)[..omitted]
  }

  function SentOctets(u: Update, omitted: nat): seq<Byte>
    requires PrefixOctets(u.ae, u.plen) <= |Own(u.ae, u.prefix)|
  {
    var pb := PrefixOctets(u.ae, u.plen);
    if omitted < pb then Own(u.ae, u.prefix)[omitted..pb] else []
  }

  /** An Update is read back, and exactly its octets consumed, if and only if what it omits is shared. */
  lemma PrefixReadBack(d: Defaults, u: Update, omitted: nat, extra: seq<Byte>)
    requires Canonical(u) && Mapped(d.v4) && omitted <= |Own(u.ae, u.prefix)|
    ensures var r := Prefix(u.ae, u.plen, omitted, SentOctets(u, omitted) + extra, Base(d, u.ae));
      r.Found? && r.consumed == |SentOctets(u, omitted)| && (r.prefix == u.prefix <==> Shared(d, u, omitted))
  {
    hide Zeros;
    var sent := SentOctets(u, omitted);
    assert (sent + extra)[..|sent|] == sent;
    if u.ae == 1 {
      V4ReadBack(d, u, omitted);
    } else {
      V6ReadBack(d, u, omitted);
    }
  }

  lemma V6ReadBack(d: Defaults, u: Update, omitted: nat)
    requires Canonical(u) && u.ae == 2 && omitted <= 16
    ensures Padded((if omitted > 0 then d.v6[..omitted] else []) + SentOctets(u, omitted)) == u.prefix
      <==> Shared(d, u, omitted)
  {
    var back := Padded(d.v6[..omitted] + SentOctets(u, omitted));
    assert d.v6[..0] == [];
    assert back[..omitted] == d.v6[..omitted];
  }

  lemma V4ReadBack(d: Defaults, u: Update, omitted: nat)
    requires Canonical(u) && u.ae == 1 && Mapped(d.v4) && omitted <= 4
    ensures Padded((if omitted > 0 then d.v4[..12 + omitted] else V4PREFIX[..12]) + SentOctets(u, omitted)) == u.prefix
      <==> Shared(d, u, omitted)
  {
    var head := V4PREFIX[..12];
    assert u.prefix == head + u.prefix[12..];
    assert d.v4[..12 + omitted] == head + d.v4[12..][..omitted];
    var back := Padded(d.v4[..12 + omitted] + SentOctets(u, omitted));
    assert back[12..][..omitted] == d.v4[12..][..omitted];
  }

  /**
   * What a sender puts in a packet: padding, any other TLV that has all it announces, and Updates with the octets
   * left out and any sub-TLVs.
   */
  datatype Entry = OnePad | Plain(kind: Byte, body: seq<Byte>) | Announce(u: Update, omitted: Byte, extra: seq<Byte>)

  predicate Legal(e: Entry, d: Defaults) {
    match e
    case OnePad => true
    case Plain(kind, body) => kind != 0 && kind != UPDATE && |body| <= 255 && Sufficient(kind, body)
    case Announce(u, omitted, extra) =>
      && Canonical(u) && omitted <= |Own(u.ae, u.prefix)| && Shared(d, u, omitted)
      && 10 + |SentOctets(u, omitted)| + |extra| <= 255
  }

  function AnnounceBody(u: Update, omitted: Byte, extra: seq<Byte>): seq<Byte>
    requires Canonical(u)
  {
    [u.ae, u.flags, u.plen, omitted] + Two(u.interval) + Two(u.seqno) + Two(u.metric) + SentOctets(u, omitted) + extra
  }

  function EncodeEntry(e: Entry, d: Defaults): seq<Byte>
    requires Legal(e, d)
  {
    match e
    case OnePad => [0]
    case Plain(kind, body) => [kind, |body|] + body
    case Announce(u, omitted, extra) =>
      var body := AnnounceBody(u, omitted, extra);
      [UPDATE, |body|] + body
  }

  function ItemOf(e: Entry): Item {
    match e
    case OnePad => Pad1
    case Plain(kind, _) => Other(kind)
    case Announce(u, _, _) => Route(u)
  }

  function After(e: Entry, d: Defaults): Defaults {
    if e.Announce? then Kept(d, e.u) else d
  }

  /** Each entry is legal under the defaults the earlier ones leave. */
  predicate LegalAll(entries: seq<Entry>, d: Defaults) {
    entries == [] || (Legal(entries[0], d) && LegalAll(entries[1..], After(entries[0], d)))
  }

  function EncodeAll(entries: seq<Entry>, d: Defaults): seq<Byte>
    requires LegalAll(entries, d)
  {
    if entries == [] then []
    else EncodeEntry(entries[0], d) + EncodeAll(entries[1..], After(entries[0], d))
  }

  function ItemsOf(entries: seq<Entry>): seq<Item> {
    if entries == [] then [] else [ItemOf(entries[0])] + ItemsOf(entries[1..])
  }

  lemma AnnounceReadBack(u: Update, omitted: Byte, extra: seq<Byte>, d: Defaults)
    requires Legal(Announce(u, omitted, extra), d) && Mapped(d.v4)
    ensures ReadUpdate(AnnounceBody(u, omitted, extra), d) == Some(u)
  {
    hide Prefix, SentOctets, Shared, Mapped;
    var body := AnnounceBody(u, omitted, extra);
    assert body[10..] == SentOctets(u, omitted) + extra;
    PrefixReadBack(d, u, omitted, extra);
  }

  lemma AfterKeepsMapped(e: Entry, d: Defaults)
    requires Legal(e, d) && Mapped(d.v4)
    ensures Mapped(After(e, d).v4)
  {}

  /** One encoded entry, wherever it lies in the packet, is one round of the loop. */
  lemma EntryReadBack(before: seq<Byte>, e: Entry, rest: seq<Byte>, length: nat, bodylen: nat, d: Defaults)
    requires |before| >= 4 && Legal(e, d) && Mapped(d.v4)
    requires |before| - 4 + |EncodeEntry(e, d)| <= bodylen <= length
    ensures Tlv(before + EncodeEntry(e, d) + rest, length, bodylen, |before| - 4, d)
         == Go(ItemOf(e), |before| - 4 + |EncodeEntry(e, d)|, After(e, d))
  {
    hide ReadUpdate, AnnounceBody, Kept, Canonical, Shared, SentOctets, Mapped, Sufficient;
    var one := EncodeEntry(e, d);
    var data, m := before + one + rest, |before|;
    assert data[m] == one[0];
    if e.Announce? {
      var body := AnnounceBody(e.u, e.omitted, e.extra);
      assert data[m + 2..m + 2 + |body|] == body;
      AnnounceReadBack(e.u, e.omitted, e.extra, d);
    } else if e.Plain? {
      assert data[m + 1] == |e.body|;
      assert data[m + 2..m + 2 + |e.body|] == e.body;
    }
  }

  /** The defaults after all entries. */
  function AfterAll(entries: seq<Entry>, d: Defaults): Defaults {
    if entries == [] then d else AfterAll(entries[1..], After(entries[0], d))
  }

  /** Legal entries anywhere in a packet, whatever was captured behind them, come back in order. */
  lemma {:induction false} EntriesReadBack(before: seq<Byte>, entries: seq<Entry>, after: seq<Byte>, length: nat, d: Defaults)
    requires |before| >= 4 && LegalAll(entries, d) && Mapped(d.v4)
    requires |before| - 4 + |EncodeAll(entries, d)| <= length
    ensures var all := before + EncodeAll(entries, d);
      Decode(all + after, length, |all| - 4, |before| - 4, d) == Listing(ItemsOf(entries), Done, AfterAll(entries, d))
    decreases entries
  {
    hide Tlv, EncodeEntry, Legal, After, ItemOf, Mapped;
    if entries != [] {
      var e, later := entries[0], After(entries[0], d);
      var one, rest := EncodeEntry(e, d), EncodeAll(entries[1..], later);
      var all := before + EncodeAll(entries, d);
      assert all == before + one + rest;
      assert all + after == before + one + (rest + after);
      AfterKeepsMapped(e, d);
      EntryReadBack(before, e, rest + after, length, |all| - 4, d);
      EntriesReadBack(before + one, entries[1..], after, length, later);
    }
  }

  /** The prefix of the last flagged Update of a family, or the default the packet started with. */
  function LastFlagged(entries: seq<Entry>, ae: nat, start: Address): Address {
    if entries == [] then start
    else
      var e := entries[|entries| - 1];
      if e.Announce? && e.u.ae == ae && e.u.flags / 128 == 1 then e.u.prefix
      else LastFlagged(entries[..|entries| - 1], ae, start)
  }

  lemma {:induction false} LastFlaggedAfter(e: Entry, rest: seq<Entry>, ae: nat, start: Address)
    ensures LastFlagged([e] + rest, ae, start) == LastFlagged(rest, ae, LastFlagged([e], ae, start))
  {
    if rest == [] {
      assert [e] + rest == [e];
    } else {
      var n := |rest| - 1;
      LastFlaggedAfter(e, rest[..n], ae, start);
      assert ([e] + rest)[..n + 1] == [e] + rest[..n];
    }
  }

  /** The defaults left are the prefixes of the last flagged Updates of the two families. */
  lemma {:induction false} DefaultsAreLast(entries: seq<Entry>, d: Defaults)
    requires LegalAll(entries, d)
    ensures AfterAll(entries, d) == Defaults(LastFlagged(entries, 1, d.v4), LastFlagged(entries, 2, d.v6))
    decreases entries
  {
    hide Shared, SentOctets;
    if entries != [] {
      var e, rest, later := entries[0], entries[1..], After(entries[0], d);
      DefaultsAreLast(rest, later);
      assert [e] + rest == entries;
      LastFlaggedAfter(e, rest, 1, d.v4);
      LastFlaggedAfter(e, rest, 2, d.v6);
      assert later == Defaults(LastFlagged([e], 1, d.v4), LastFlagged([e], 2, d.v6)) by { OneFlagged(e, d); }
    }
  }

  lemma OneFlagged(e: Entry, d: Defaults)
    requires Legal(e, d)
    ensures After(e, d) == Defaults(LastFlagged([e], 1, d.v4), LastFlagged([e], 2, d.v6))
  {
    hide Shared, SentOctets, Mapped;
    assert [e][..0] == [];
  }

  /**
   * A whole packet: every entry comes back, Updates with their full prefixes, and the loop ends at the last octet of
   * the body, whatever was captured behind it and whatever more the datagram holds.
   */
  lemma PacketReadBack(entries: seq<Entry>, after: seq<Byte>, length: nat)
    requires LegalAll(entries, START) && |EncodeAll(entries, START)| < 0x10000
    requires length >= 4 + |EncodeAll(entries, START)|
    ensures var body := EncodeAll(entries, START);
      var packet := [42, 2] + Two(|body|) + body;
      Show(packet + after, length)
      == Listing(ItemsOf(entries), Done, Defaults(LastFlagged(entries, 1, V4PREFIX), LastFlagged(entries, 2, Zeros(16))))
  {
    hide Decode, EncodeAll, AfterAll, LastFlagged;
    DefaultsAreLast(entries, START);
    var body := EncodeAll(entries, START);
    var header := [42, 2] + Two(|body|);
    assert Mapped(START.v4);
    EntriesReadBack(header, entries, after, length, START);
    assert [42, 2] + Two(|body|) + body == header + body;
  }
}
