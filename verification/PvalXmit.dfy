/**
 The transmit side of the pval device (kmod/pval_main.c): the in-place move of
 the Ethernet and IP headers that makes room for the 12-byte Pval IP option, and
 what tcpdump reads back from the frame (tcpdump/print-ip.c).
 */
module PvalXmit {
  import opened Bytes
  import opened OnesComplement
  import opened PvalChecksum
  import InCksum

  const ETH_LEN := 14
  const IP_LEN := 20
  const OPT_LEN := 12
  const IPOPT_PVAL := 222

  // ---- What the result should be, on values ----

  function EtherType(f: seq<Byte>): U16
    requires |f| >= ETH_LEN
  {
    Word(BigEndian, f[12], f[13])
  }

  /** The `ihl` nibble and the total-length field of an IPv4 header. */
  function HeaderWords(h: seq<Byte>): (w: nat)
    requires |h| >= IP_LEN
    ensures w < 16
  {
    h[0] % 16
  }

  function TotalLength(h: seq<Byte>): U16
    requires |h| >= IP_LEN
  {
    Word(BigEndian, h[2], h[3])
  }

  function SetLengths(h: seq<Byte>, words: nat, total: U16): (r: seq<Byte>)
    requires |h| >= IP_LEN && words < 16
    ensures |r| == |h|
  {
    h[0 := h[0] - h[0] % 16 + words][2 := total / 256][3 := total % 256]
  }

  function ClearCheck(h: seq<Byte>): (r: seq<Byte>)
    requires |h| >= IP_LEN
    ensures |r| == |h|
  {
    h[10 := 0][11 := 0]
  }

  function PvalOption(order: ByteOrder, cpu: Byte, number: U64): (o: seq<Byte>)
    ensures |o| == OPT_LEN
  {
    [222, 12, 0, cpu] + U64Bytes(order, number)
  }

  /** The header `pval_xmit` checksums: lengths grown by one option, checksum field zero. */
  function Unsealed(order: ByteOrder, h: seq<Byte>, cpu: Byte, number: U64): (r: seq<Byte>)
    requires |h| == IP_LEN
    ensures |r| == IP_LEN + OPT_LEN
  {
    ClearCheck(SetLengths(h, (HeaderWords(h) + 3) % 16, (TotalLength(h) + 12) % 65536)) + PvalOption(order, cpu, number)
  }

  function WithOption(order: ByteOrder, f: seq<Byte>, cpu: Byte, number: U64): (g: seq<Byte>)
    requires |f| >= ETH_LEN + IP_LEN
    ensures |g| == |f| + OPT_LEN
  {
    f[..14] + Sealed(order, Unsealed(order, f[14..34], cpu, number), 10) + f[34..]
  }

  // ---- The in-place code ----

  /** `s` with the `n` octets at `src` laid over those at `dst`. */
  function Moved(s: seq<Byte>, dst: nat, src: nat, n: nat): (r: seq<Byte>)
    requires dst + n <= |s| && src + n <= |s|
    ensures |r| == |s|
  {
    s[..dst] + s[src..src + n] + s[dst + n..]
  }

  lemma MovedUp(s: seq<Byte>, dst: nat, src: nat, i: nat)
    requires dst <= src && src + i + 1 <= |s|
    ensures Moved(s, dst, src, i)[src + i] == s[src + i]
    ensures Moved(s, dst, src, i + 1) == Moved(s, dst, src, i)[dst + i := s[src + i]]
  {}

  /** The move after all but its first `i` octets, the last ones first. */
  function MovedFrom(s: seq<Byte>, dst: nat, src: nat, i: nat, n: nat): (r: seq<Byte>)
    requires dst + n <= |s| && src + n <= |s| && i <= n
    ensures |r| == |s|
  {
    Moved(s, dst + i, src + i, n - i)
  }

  lemma MovedDown(s: seq<Byte>, dst: nat, src: nat, i: nat, n: nat)
    requires src <= dst && dst + n <= |s| && i < n
    ensures MovedFrom(s, dst, src, i + 1, n)[src + i] == s[src + i]
    ensures MovedFrom(s, dst, src, i, n) == MovedFrom(s, dst, src, i + 1, n)[dst + i := s[src + i]]
  {}

  lemma MovedEnds(s: seq<Byte>, dst: nat, src: nat, n: nat)
    requires dst + n <= |s| && src + n <= |s|
    ensures MovedFrom(s, dst, src, n, n) == s && MovedFrom(s, dst, src, 0, n) == Moved(s, dst, src, n)
  {}

  method CopyUp(a: array<Byte>, dst: nat, src: nat, n: nat)
    requires dst <= src && src + n <= a.Length
    modifies a
    ensures a[..] == Moved(old(a[..]), dst, src, n)
  {
    ghost var was := a[..];
    var i := 0;
    assert Moved(was, dst, src, 0) == was;
    hide Moved;
    while i < n
      invariant 0 <= i <= n && a[..] == Moved(was, dst, src, i)
    {
      MovedUp(was, dst, src, i);
      ghost var before := a[..];
      assert before[src + i] == was[src + i];
      a[dst + i] := a[src + i];
      assert a[..] == before[dst + i := was[src + i]];
      i := i + 1;
    }
  }

  method CopyDown(a: array<Byte>, dst: nat, src: nat, n: nat)
    requires src <= dst && dst + n <= a.Length
    modifies a
    ensures a[..] == Moved(old(a[..]), dst, src, n)
  {
    ghost var was := a[..];
    var i := n;
    hide Moved, MovedFrom;
    MovedEnds(was, dst, src, n);
    while i > 0
      invariant 0 <= i <= n
      invariant a[..] == MovedFrom(was, dst, src, i, n)
    {
      i := i - 1;
      MovedDown(was, dst, src, i, n);
      ghost var before := a[..];
      assert before[src + i] == was[src + i];
      a[dst + i] := a[src + i];
      assert a[..] == before[dst + i := was[src + i]];
    }
  }

  /** `memmove` inside one buffer, in the direction that is safe for the overlap. */
  method Memmove(a: array<Byte>, dst: nat, src: nat, n: nat)
    requires dst + n <= a.Length && src + n <= a.Length
    modifies a
    ensures a[..] == Moved(old(a[..]), dst, src, n)
  {
    if dst <= src {
      CopyUp(a, dst, src, n);
    } else {
      CopyDown(a, dst, src, n);
    }
  }

  class SkBuff {
    const head: array<Byte>
    var data: nat
    var mac: nat
    var network: nat
    const tail: nat

    ghost predicate Valid()
      reads this
    {
      && data <= tail <= head.Length
      && mac == data && network == data + ETH_LEN
    }

    ghost function Frame(): seq<Byte>
      requires Valid()
      reads this, head
    {
      head[data..tail]
    }

    constructor (head: array<Byte>, data: nat, tail: nat)
      requires data <= tail <= head.Length
      ensures Valid() && this.head == head && this.data == data && this.tail == tail
    {
      this.head, this.data, this.tail := head, data, tail;
      this.mac, this.network := data, data + ETH_LEN;
    }

    /** Copies a string of octets into the buffer. */
    method Store(at: nat, s: seq<Byte>)
      requires at + |s| <= head.Length
      modifies head
      ensures head[..] == old(head[..])[..at] + s + old(head[..])[at + |s|..]
    {
      ghost var was := head[..];
      var i := 0;
      while i < |s|
        invariant 0 <= i <= |s|
        invariant forall k :: at <= k < at + i ==> head[k] == s[k - at]
        invariant forall k :: 0 <= k < head.Length && !(at <= k < at + i) ==> head[k] == was[k]
      {
        head[at + i] := s[i];
        i := i + 1;
      }
    }

    /** `__skb_push`, the two header moves and the bookkeeping of the header offsets. */
    method OpenGap()
      requires Valid() && OPT_LEN <= data && data + ETH_LEN + IP_LEN <= tail
      modifies this, head
      ensures Valid() && data == old(data) - OPT_LEN
      ensures head[..] == Gapped(old(head[..]), data)
    {
      var ethOld, iphOld := mac, network;
      data := data - OPT_LEN;
      mac := data;
      network := data + ETH_LEN;
      Memmove(head, mac, ethOld, ETH_LEN);
      Memmove(head, network, iphOld, IP_LEN);
    }

    /** The option and the two length fields, written into the moved header; the checksum field is cleared. */
    method GrowHeader(order: ByteOrder, cpu: Byte, number: U64)
      requires network + IP_LEN + OPT_LEN <= head.Length
      modifies head
      ensures head[..] == Spliced(old(head[..]), network, Unsealed(order, old(head[..])[network..network + 20], cpu, number))
    {
      hide Unsealed, PvalOption, SwapToNetwork, Stored, Word, Spliced, Edited;
      var n := network;
      ghost var s := head[..];
      ghost var h := s[n..n + 20];
      Store(n + IP_LEN, PvalOption(order, cpu, number));
      ghost var t := head[..];
      assert t[n] == h[0] && t[n + 2] == h[2] && t[n + 3] == h[3];
      head[n] := head[n] - head[n] % 16 + (head[n] % 16 + 3) % 16;
      var total: int := SwapToNetwork(order, Word(order, head[n + 2], head[n + 3]));
      var grown := Stored(order, SwapToNetwork(order, (total + 12) % 65536));
      head[n + 2], head[n + 3] := grown.0, grown.1;
      head[n + 10], head[n + 11] := 0, 0;
      ghost var first := h[0] - h[0] % 16 + (h[0] % 16 + 3) % 16;
      assert head[..] == t[n := first][n + 2 := grown.0][n + 3 := grown.1][n + 10 := 0][n + 11 := 0];
      UnsealedSteps(order, h, cpu, number, grown);
      EditsInPlace(s, n, PvalOption(order, cpu, number), first, grown.0, grown.1);
    }

    /** The checksum over the 32 header octets, stored in the cleared field. */
    method SealHeader(order: ByteOrder)
      requires network + IP_LEN + OPT_LEN <= head.Length
      modifies head
      ensures head[..] == Spliced(old(head[..]), network, Sealed(order, old(head[..])[network..network + 32], 10))
    {
      hide OnesSum, ByteSum, Same, Lost, Stored, WrapSum;
      var n := network;
      ghost var u := head[n..n + 32];
      var check := Checksum(order, head[n..n + 32], 32, 0);
      assert u[..32] == u;
      var stored := Stored(order, WrapSum(order, check));
      head[n + 10], head[n + 11] := stored.0, stored.1;
    }

    /**
     The option insertion of `pval_xmit`: frames that are not IPv4, and every frame
     while the option is off, pass unchanged and use no sequence number.  Only the
     type field is looked at before that, and only an IPv4 frame needs a header of
     20 octets and the headroom the device asks for.
     */
    method InsertOption(order: ByteOrder, ipopt: bool, cpu: Byte, number: U64) returns (next: U64)
      requires Valid()
      requires ipopt ==> |Frame()| >= ETH_LEN
      requires ipopt && EtherType(Frame()) == 0x0800 ==> OPT_LEN <= data && |Frame()| >= ETH_LEN + IP_LEN
      modifies this, head
      ensures Valid()
      ensures var taken := ipopt && EtherType(old(Frame())) == 0x0800;
        && Frame() == (if taken then WithOption(order, old(Frame()), cpu, number) else old(Frame()))
        && next == (if taken then (number + 1) % 0x1_0000_0000_0000_0000 else number)
    {
      hide OnesSum, Unsealed, Sealed, WithOption, Gapped, Spliced;
      next := number;
      if !ipopt {
        return;
      }
      LoadedNetwork(order, head[mac + 12], head[mac + 13]);
      if SwapToNetwork(order, Word(order, head[mac + 12], head[mac + 13])) != 0x0800 {
        return;
      }
      ghost var s := head[..];
      OpenGap();
      ghost var d := data;
      GrowHeader(order, cpu, number);
      SealHeader(order);
      next := (number as int + 1) % 0x1_0000_0000_0000_0000;
      InsertedInPlace(order, s, d, tail, cpu, number);
    }
  }

  /** Moves and rewrites together, on the whole buffer `s` whose old frame started at `d + 12`. */
  lemma InsertedInPlace(order: ByteOrder, s: seq<Byte>, d: nat, tail: nat, cpu: Byte, number: U64)
    requires d + 46 <= tail <= |s|
    ensures var g := Gapped(s, d);
      var u := Spliced(g, d + 14, Unsealed(order, g[d + 14..d + 34], cpu, number));
      Spliced(u, d + 14, Sealed(order, u[d + 14..d + 46], 10))[d..tail] == WithOption(order, s[d + 12..tail], cpu, number)
  {
    hide Gapped, Unsealed, Sealed, WithOption, Spliced;
    var f, g := s[d + 12..tail], Gapped(s, d);
    GappedParts(s, d);
    assert f[..34] == s[d + 12..d + 46];
    assert f[34..] == s[d + 46..][..tail - d - 46];
    assert g[d + 46..tail] == g[d + 46..][..tail - d - 46];
    Assemble(order, g, d, tail, f, cpu, number);
  }

  /** The two header rewrites, seen from the frame that started at `d` after the moves. */
  lemma Assemble(order: ByteOrder, s: seq<Byte>, d: nat, tail: nat, f: seq<Byte>, cpu: Byte, number: U64)
    requires d + 46 <= tail <= |s| && |f| == tail - d - 12
    requires s[d..d + 34] == f[..34] && s[d + 46..tail] == f[34..]
    ensures var u := Spliced(s, d + 14, Unsealed(order, s[d + 14..d + 34], cpu, number));
      Spliced(u, d + 14, Sealed(order, u[d + 14..d + 46], 10))[d..tail] == WithOption(order, f, cpu, number)
  {
    hide OnesSum, Unsealed;
    assert s[d + 14..d + 34] == s[d..d + 34][14..] == f[14..34];
    var h := Unsealed(order, f[14..34], cpu, number);
    var u := Spliced(s, d + 14, h);
    assert u[d + 14..d + 46] == h;
    var v := Spliced(u, d + 14, Sealed(order, h, 10));
    assert s[d..d + 14] == s[d..d + 34][..14] == f[..14];
    assert u[d..d + 14] == s[d..d + 14];
    assert v[d..d + 14] == u[d..d + 14];
    assert v[d + 14..d + 46] == Sealed(order, h, 10);
    assert v[d + 46..tail] == s[d + 46..tail];
    assert v[d..tail] == v[d..d + 14] + v[d + 14..d + 46] + v[d + 46..tail];
  }

  lemma UnsealedSteps(order: ByteOrder, h: seq<Byte>, cpu: Byte, number: U64, grown: (Byte, Byte))
    requires |h| == IP_LEN
    requires grown == Stored(order, SwapToNetwork(order, (SwapToNetwork(order, Word(order, h[2], h[3])) as int + 12) % 65536))
    ensures Unsealed(order, h, cpu, number)
         == Edited(h + PvalOption(order, cpu, number), h[0] - h[0] % 16 + (h[0] % 16 + 3) % 16, grown.0, grown.1)
  {
    hide PvalOption, SwapToNetwork, Stored, Word, SetLengths, ClearCheck, Edited;
    GrownLength(order, h[2], h[3]);
    HeaderEdits(h, (HeaderWords(h) + 3) % 16, (TotalLength(h) + 12) % 65536);
    EditInFront(h, PvalOption(order, cpu, number), h[0] - h[0] % 16 + (h[0] % 16 + 3) % 16, grown.0, grown.1);
  }

  lemma HeaderEdits(h: seq<Byte>, words: nat, total: U16)
    requires |h| == IP_LEN && words < 16
    ensures ClearCheck(SetLengths(h, words, total)) == Edited(h, h[0] - h[0] % 16 + words, total / 256, total % 256)
  {}

  /** The option stored and the header edited in place make one replacement. */
  lemma EditsInPlace(s: seq<Byte>, n: nat, option: seq<Byte>, first: Byte, high: Byte, low: Byte)
    requires n + IP_LEN + OPT_LEN <= |s| && |option| == OPT_LEN
    ensures var t := s[..n + IP_LEN] + option + s[n + IP_LEN + OPT_LEN..];
      t[n := first][n + 2 := high][n + 3 := low][n + 10 := 0][n + 11 := 0]
      == Spliced(s, n, Edited(s[n..n + IP_LEN] + option, first, high, low))
  {
    var h := s[n..n + IP_LEN] + option;
    var e := Edited(h, first, high, low);
    var t := s[..n + IP_LEN] + option + s[n + IP_LEN + OPT_LEN..];
    assert t == s[..n] + h + s[n + |h|..];
    var u := t[n := first][n + 2 := high][n + 3 := low][n + 10 := 0][n + 11 := 0];
    assert u[n..n + |h|] == e;
    assert u == s[..n] + e + s[n + |h|..];
  }

  /** Header with its first octet, total length and checksum field overwritten. */
  ghost function Edited(h: seq<Byte>, first: Byte, high: Byte, low: Byte): seq<Byte>
    requires |h| >= IP_LEN
  {
    h[0 := first][2 := high][3 := low][10 := 0][11 := 0]
  }

  lemma EditInFront(h: seq<Byte>, option: seq<Byte>, first: Byte, high: Byte, low: Byte)
    requires |h| == IP_LEN
    ensures Edited(h + option, first, high, low) == Edited(h, first, high, low) + option
  {}

  lemma GrownLength(order: ByteOrder, high: Byte, low: Byte)
    ensures var total := (Word(BigEndian, high, low) as int + 12) % 65536;
      Stored(order, SwapToNetwork(order, (SwapToNetwork(order, Word(order, high, low)) as int + 12) % 65536))
      == (total / 256, total % 256)
  {
    hide *;
    LoadedNetwork(order, high, low);
    StoredNetwork(order, (Word(BigEndian, high, low) as int + 12) % 65536);
  }

  /** Header edits inside a larger buffer, as one replacement. */
  ghost function Spliced(s: seq<Byte>, at: nat, h: seq<Byte>): (r: seq<Byte>)
    requires at + |h| <= |s|
    ensures |r| == |s|
  {
    s[..at] + h + s[at + |h|..]
  }

  /** The buffer after both moves; `d` is where the frame now starts. */
  function Gapped(s: seq<Byte>, d: nat): (r: seq<Byte>)
    requires d + 46 <= |s|
    ensures |r| == |s|
  {
    Moved(Moved(s, d, d + 12, 14), d + 14, d + 26, 20)
  }

  /** The overlapping moves lose nothing: the headers arrive whole and the payload stays where it was. */
  lemma GappedParts(s: seq<Byte>, d: nat)
    requires d + 46 <= |s|
    ensures Gapped(s, d)[d..d + 34] == s[d + 12..d + 46]
    ensures Gapped(s, d)[d + 46..] == s[d + 46..]
    ensures Gapped(s, d)[..d] == s[..d]
  {
    var m := Moved(s, d, d + 12, 14);
    var g := Moved(m, d + 14, d + 26, 20);
    assert m[d + 26..d + 46] == s[d + 26..d + 46];
    assert g[d..d + 14] == s[d + 12..d + 26];
    assert g[d + 14..d + 34] == s[d + 26..d + 46];
    assert g[d..d + 34] == g[d..d + 14] + g[d + 14..d + 34];
    assert s[d + 12..d + 46] == s[d + 12..d + 26] + s[d + 26..d + 46];
  }

  // ---- What the receiver sees ----

  /** Takes the option back out, shrinking the two lengths; the checksum field is left cleared. */
  function RemoveOption(g: seq<Byte>): seq<Byte>
    requires |g| >= ETH_LEN + IP_LEN + OPT_LEN
  {
    var h := g[14..34];
    g[..14] + ClearCheck(SetLengths(h, (HeaderWords(h) + 13) % 16, (TotalLength(h) as int + 65524) % 65536)) + g[46..]
  }

  lemma GrownHeader(order: ByteOrder, f: seq<Byte>, cpu: Byte, number: U64)
    requires |f| >= ETH_LEN + IP_LEN
    ensures var g, h := WithOption(order, f, cpu, number), f[14..34];
      && ClearCheck(g[14..34]) == ClearCheck(SetLengths(h, (HeaderWords(h) + 3) % 16, (TotalLength(h) as int + 12) % 65536))
      && g[34..46] == PvalOption(order, cpu, number)
      && g[..14] == f[..14] && g[46..] == f[34..]
      && g[14..46] == Sealed(order, Unsealed(order, h, cpu, number), 10)
  {
    hide OnesSum, PvalOption, SetLengths;
    var g, h := WithOption(order, f, cpu, number), f[14..34];
    var u := Unsealed(order, h, cpu, number);
    assert g[14..46] == Sealed(order, u, 10);
    assert g[14..34] == g[14..46][..20] && g[34..46] == g[14..46][20..];
    assert g[34..46] == u[20..];
    assert ClearCheck(g[14..34]) == ClearCheck(u[..20]);
  }

  lemma LengthsRead(h: seq<Byte>, words: nat, total: U16)
    requires |h| == IP_LEN && words < 16
    ensures HeaderWords(SetLengths(h, words, total)) == words && TotalLength(SetLengths(h, words, total)) == total
  {}

  /** Clearing the checksum field disturbs neither length field. */
  lemma LengthsIgnoreCheck(h: seq<Byte>, k: seq<Byte>)
    requires |h| == |k| == IP_LEN && ClearCheck(h) == ClearCheck(k)
    ensures HeaderWords(h) == HeaderWords(k) && TotalLength(h) == TotalLength(k)
  {
    assert forall i :: 0 <= i < 10 ==> h[i] == ClearCheck(h)[i] && k[i] == ClearCheck(k)[i];
  }

  /**
   MAC header and payload are untouched, the option sits right after the 20-byte
   header, and each length field grows by the option exactly when it has room to.
   */
  lemma OptionInserted(order: ByteOrder, f: seq<Byte>, cpu: Byte, number: U64)
    requires |f| >= ETH_LEN + IP_LEN
    ensures var g, h := WithOption(order, f, cpu, number), f[14..34];
      && g[..14] == f[..14] && g[46..] == f[34..] && g[34..46] == PvalOption(order, cpu, number)
      && (HeaderWords(g[14..34]) == HeaderWords(h) + 3 <==> HeaderWords(h) <= 12)
      && (TotalLength(g[14..34]) == TotalLength(h) + 12 <==> TotalLength(h) <= 65523)
  {
    hide WithOption, SetLengths, PvalOption, ClearCheck, HeaderWords, TotalLength, Unsealed, Sealed;
    var g, h := WithOption(order, f, cpu, number), f[14..34];
    GrownHeader(order, f, cpu, number);
    RoomToGrow(HeaderWords(h), TotalLength(h));
    var words, total := (HeaderWords(h) + 3) % 16, (TotalLength(h) as int + 12) % 65536;
    LengthsRead(h, words, total);
    LengthsIgnoreCheck(g[14..34], SetLengths(h, words, total));
  }

  /** A header of 13 to 15 words has no room: the field wraps, and the header claims to be shorter than any can be. */
  lemma LongHeaderBreaks(order: ByteOrder, f: seq<Byte>, cpu: Byte, number: U64)
    requires |f| >= ETH_LEN + IP_LEN && HeaderWords(f[14..34]) >= 13
    ensures HeaderWords(WithOption(order, f, cpu, number)[14..34]) == HeaderWords(f[14..34]) - 13 < 5
  {
    hide WithOption, SetLengths, PvalOption, ClearCheck, HeaderWords, TotalLength, Unsealed, Sealed;
    var g, h := WithOption(order, f, cpu, number), f[14..34];
    GrownHeader(order, f, cpu, number);
    var words, total := (HeaderWords(h) + 3) % 16, (TotalLength(h) as int + 12) % 65536;
    LengthsRead(h, words, total);
    LengthsIgnoreCheck(g[14..34], SetLengths(h, words, total));
  }

  lemma RoomToGrow(words: nat, total: U16)
    requires words < 16
    ensures (words + 3) % 16 == words + 3 <==> words <= 12
    ensures (total as int + 12) % 65536 == total + 12 <==> total <= 65523
  {}

  /** Removing the option recovers the whole frame, the checksum field aside. */
  lemma RemoveUndoesInsert(order: ByteOrder, f: seq<Byte>, cpu: Byte, number: U64)
    requires |f| >= ETH_LEN + IP_LEN
    ensures RemoveOption(WithOption(order, f, cpu, number)) == f[..14] + ClearCheck(f[14..34]) + f[34..]
  {
    hide WithOption, SetLengths, PvalOption, ClearCheck, HeaderWords, TotalLength, Unsealed, Sealed;
    var g, h := WithOption(order, f, cpu, number), f[14..34];
    GrownHeader(order, f, cpu, number);
    var words, total := (HeaderWords(h) + 3) % 16, (TotalLength(h) as int + 12) % 65536;
    LengthsRead(h, words, total);
    LengthsIgnoreCheck(g[14..34], SetLengths(h, words, total));
    ShrinkUndoesGrow(h, g[14..34], words, total);
  }

  lemma ShrinkUndoesGrow(h: seq<Byte>, k: seq<Byte>, words: nat, total: U16)
    requires |h| == |k| == IP_LEN && words == (HeaderWords(h) + 3) % 16 && total == (TotalLength(h) as int + 12) % 65536
    requires ClearCheck(k) == ClearCheck(SetLengths(h, words, total))
    ensures ClearCheck(SetLengths(k, (words + 13) % 16, (total as int + 65524) % 65536)) == ClearCheck(h)
  {
    assert (words + 13) % 16 == HeaderWords(h) && (total as int + 65524) % 65536 == TotalLength(h);
    RestoreLengths(h, k, words, total);
  }

  lemma RestoreLengths(h: seq<Byte>, k: seq<Byte>, words: nat, total: U16)
    requires |h| == |k| == IP_LEN && words < 16 && ClearCheck(k) == ClearCheck(SetLengths(h, words, total))
    ensures ClearCheck(SetLengths(k, HeaderWords(h), TotalLength(h))) == ClearCheck(h)
  {
    assert k[0] == ClearCheck(k)[0] == h[0] - h[0] % 16 + words;
    var a, b := ClearCheck(SetLengths(k, HeaderWords(h), TotalLength(h))), ClearCheck(h);
    assert a[0] == b[0] && a[2] == b[2] && a[3] == b[3];
    forall i | 0 <= i < IP_LEN && i != 0 && i != 2 && i != 3
      ensures a[i] == b[i]
    {
      assert ClearCheck(k)[i] == ClearCheck(SetLengths(h, words, total))[i];
    }
  }

  /** The options an IPv4 header already carries. */
  function OldOptions(f: seq<Byte>): seq<Byte>
    requires WholeHeader(f)
  {
    f[34..14 + 4 * HeaderWords(f[14..34])]
  }

  /** A frame that holds its whole IPv4 header, with room in it for the option. */
  predicate WholeHeader(f: seq<Byte>) {
    |f| >= ETH_LEN + IP_LEN && 5 <= HeaderWords(f[14..34]) <= 12 && 14 + 4 * HeaderWords(f[14..34]) <= |f|
  }

  /** The header after the insertion: the 32 octets that were summed, then the options that were there before. */
  lemma HeaderParts(order: ByteOrder, f: seq<Byte>, cpu: Byte, number: U64)
    requires WholeHeader(f)
    ensures var g := WithOption(order, f, cpu, number);
      && HeaderWords(g[14..34]) == HeaderWords(f[14..34]) + 3
      && g[14..14 + 4 * HeaderWords(g[14..34])] == g[14..46] + OldOptions(f)
      && g[34..14 + 4 * HeaderWords(g[14..34])] == PvalOption(order, cpu, number) + OldOptions(f)
  {
    hide WithOption, PvalOption, HeaderWords;
    OptionInserted(order, f, cpu, number);
    var g, n := WithOption(order, f, cpu, number), 4 * HeaderWords(f[14..34]) - 20;
    assert g[46..46 + n] == g[46..][..n] == f[34..][..n] == OldOptions(f);
    assert g[14..46 + n] == g[14..46] + g[46..46 + n];
    assert g[34..46 + n] == g[34..46] + g[46..46 + n];
  }

  /**
   The header leaves with a checksum over its first 32 octets, so over the length
   it now claims it verifies exactly when the options it had before sum to zero.
   */
  lemma HeaderVerifies(order: ByteOrder, f: seq<Byte>, cpu: Byte, number: U64)
    requires WholeHeader(f)
    ensures var g := WithOption(order, f, cpu, number);
      && HeaderWords(g[14..34]) == HeaderWords(f[14..34]) + 3
      && (Verifies(g[14..14 + 4 * HeaderWords(g[14..34])]) <==> SumsToZero(OldOptions(f)))
  {
    hide OnesSum, WithOption, Sealed, HeaderWords, OldOptions, SumsToZero;
    GrownHeader(order, f, cpu, number);
    HeaderParts(order, f, cpu, number);
    SealedVerifies(order, Unsealed(order, f[14..34], cpu, number), 10);
    VerifiesWithMore(WithOption(order, f, cpu, number)[14..46], OldOptions(f));
  }

  /** So a header without options always verifies, and one with a router alert option never does. */
  lemma PlainAndRouterAlert(order: ByteOrder, f: seq<Byte>, cpu: Byte, number: U64)
    requires WholeHeader(f)
    ensures var g := WithOption(order, f, cpu, number);
      && HeaderWords(g[14..34]) == HeaderWords(f[14..34]) + 3
      && (HeaderWords(f[14..34]) == 5 ==> Verifies(g[14..46]))
      && (OldOptions(f) == [0x94, 4, 0, 0] ==> !Verifies(g[14..14 + 4 * HeaderWords(g[14..34])]))
  {
    hide WithOption, HeaderWords, Verifies;
    HeaderVerifies(order, f, cpu, number);
    if OldOptions(f) == [0x94, 4, 0, 0] {
      InCksum.SumOfTwo(OldOptions(f));
    }
  }

  datatype OptionSeen = Single(code: Byte) | Other(code: Byte, length: nat) | Pval(cpu: Byte, number: nat) | BadLength

  /** `ip_optprint`: what tcpdump prints for the option octets of a captured header. */
  function OptionsSeen(order: ByteOrder, o: seq<Byte>): seq<OptionSeen> {
    if o == [] then []
    else if o[0] == 0 then [Single(0)]
    else if o[0] == 1 then [Single(1)] + OptionsSeen(order, o[1..])
    else if |o| < 2 || o[1] < 2 || o[1] > |o| then [BadLength]
    else
      var seen :=
        if o[0] != IPOPT_PVAL then Other(o[0], o[1])
        else if o[1] < OPT_LEN then BadLength
        else Pval(o[3], U64Value(order, o[4..12]));
      [seen] + OptionsSeen(order, o[o[1]..])
  }

  /**
   End to end: tcpdump shows the option with the processor and sequence number of
   the sender, then the options that were there before.  The number is sent in the
   byte order of the sender, so it is the sender's on a receiver of the same order.
   */
  lemma ReceiverReadsOption(sender: ByteOrder, receiver: ByteOrder, f: seq<Byte>, cpu: Byte, number: U64)
    requires WholeHeader(f)
    ensures var g := WithOption(sender, f, cpu, number);
      && HeaderWords(g[14..34]) == HeaderWords(f[14..34]) + 3
      && OptionsSeen(receiver, g[34..14 + 4 * HeaderWords(g[14..34])])
         == [Pval(cpu, U64Value(receiver, U64Bytes(sender, number)))] + OptionsSeen(receiver, OldOptions(f))
    ensures sender == receiver ==> U64Value(receiver, U64Bytes(sender, number)) == number
  {
    hide WithOption, U64Bytes, U64Value, HeaderWords, OldOptions;
    HeaderParts(sender, f, cpu, number);
    U64RoundTrip(sender, number);
    OptionFirst(sender, receiver, cpu, number, OldOptions(f));
  }

  lemma OptionFirst(sender: ByteOrder, receiver: ByteOrder, cpu: Byte, number: U64, rest: seq<Byte>)
    ensures OptionsSeen(receiver, PvalOption(sender, cpu, number) + rest)
         == [Pval(cpu, U64Value(receiver, U64Bytes(sender, number)))] + OptionsSeen(receiver, rest)
  {
    hide U64Bytes, U64Value;
    var o := PvalOption(sender, cpu, number) + rest;
    assert o[4..12] == U64Bytes(sender, number);
    assert o[12..] == rest;
  }

  /** tcpdump's `in_cksum`, on a host of either order and at any address, accepts exactly those headers. */
  method ReceiverChecks(sender: ByteOrder, receiver: ByteOrder, f: seq<Byte>, cpu: Byte, number: U64, address: nat)
    returns (sum: U16)
    requires WholeHeader(f)
    ensures sum == 0 <==> SumsToZero(OldOptions(f))
  {
    hide OnesSum, WithOption, SumsToZero, OldOptions;
    HeaderVerifies(sender, f, cpu, number);
    var g := WithOption(sender, f, cpu, number);
    var header := g[14..14 + 4 * HeaderWords(g[14..34])];
    var vec := [InCksum.Chunk(address, header)];
    assert InCksum.Flatten(vec) == header by {
      assert InCksum.Flatten([]) == [];
      assert vec[..0] == [];
    }
    InCksum.LimitsFit(|header|);
    sum := InCksum.InCksum(receiver, vec, 0x8000_0000);
    VerifiesInEitherOrder(header);
  }
}
