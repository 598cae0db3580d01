/** The address printers of tcpdump/addrtostr.c, and `intoa` of tcpdump/addrtoname.c. */
module Addrtostr {
  import opened Bytes
  import opened AddrText

  // ---- What IPv6 addresses should look like ----

  /** `n` zero words from `base`. */
  ghost predicate ZeroRun(w: seq<U16>, base: int, n: int) {
    && 0 <= base && 1 <= n && base + n <= |w|
    && forall i :: base <= i < base + n ==> w[i] == 0
  }

  /**
   The run to compress (sections 4.2.2 and 4.2.3 of RFC 5952): a longest run of
   at least two zero words, the first of them if several are longest; -1 if none.
   */
  ghost predicate BestRun(w: seq<U16>, base: int, n: int) {
    if base == -1 then forall b, m :: ZeroRun(w, b, m) ==> m < 2
    else
      && ZeroRun(w, base, n) && 2 <= n
      && forall b, m :: ZeroRun(w, b, m) ==> m < n || (m == n && base <= b)
  }

  /** IPv4-compatible and IPv4-mapped addresses end in a dotted quad. */
  predicate Embedded(w: seq<U16>, base: int, n: int)
    requires |w| == 8
  {
    base == 0 && (n == 6 || (n == 5 && w[5] == 0xffff))
  }

  function RightFields(src: seq<Byte>, base: int, n: int): seq<string>
    requires |src| == 16 && 0 <= base && 0 <= n && base + n <= 8
  {
    var w := WordsOf(src);
    if Embedded(w, base, n) then HexFields(w[n..6]) + [Dotted(src[12..])] else HexFields(w[base + n..])
  }

  function Text6(src: seq<Byte>, base: int, n: int): string
    requires |src| == 16 && (base == -1 || (0 <= base && 0 <= n && base + n <= 8))
  {
    var w := WordsOf(src);
    if base == -1 then Join(HexFields(w), ':')
    else Join(HexFields(w[..base]), ':') + "::" + Join(RightFields(src, base, n), ':')
  }

  // ---- The printed text determines the address ----

  lemma HexFieldsClean(w: seq<U16>)
    ensures forall f :: f in HexFields(w) ==> Clean(f, ':')
  {
    forall f | f in HexFields(w)
      ensures Clean(f, ':')
    {
      var i :| 0 <= i < |w| && HexFields(w)[i] == f;
      HexFieldsAt(w, i);
      NumeralsAreClean(w[i], 0);
    }
  }

  lemma DottedClean(a: seq<Byte>)
    requires |a| == 4
    ensures Clean(Dotted(a), ':') && '.' in Dotted(a)
  {
    hide DecText;
    NumeralsAreClean(0, a[0]);
    NumeralsAreClean(0, a[1]);
    NumeralsAreClean(0, a[2]);
    NumeralsAreClean(0, a[3]);
    var f := [DecText(a[0]), DecText(a[1]), DecText(a[2]), DecText(a[3])];
    DottedParts(a);
  }

  lemma DottedParts(a: seq<Byte>)
    requires |a| == 4
    ensures Dotted(a) == DecText(a[0]) + "." + DecText(a[1]) + "." + DecText(a[2]) + "." + DecText(a[3])
  {
    hide DecText;
    var p, q, r, s := DecText(a[0]), DecText(a[1]), DecText(a[2]), DecText(a[3]);
    assert [p, q, r, s][..3] == [p, q, r] && [p, q, r][..2] == [p, q] && [p, q][..1] == [p];
    assert Join([p], '.') == p;
    assert Join([p, q], '.') == p + "." + q;
    assert Join([p, q, r], '.') == p + "." + q + "." + r;
  }

  lemma SideParses(fields: seq<string>, quad: bool, w: seq<U16>)
    requires forall f :: f in fields ==> Clean(f, ':')
    requires ParseFields(fields, quad) == Some(w)
    ensures Side(Join(fields, ':'), quad) == Some(w)
  {
    if fields != [] {
      JoinIsSingle(fields);
      SplitJoin(fields, ':');
    }
  }

  lemma HexSide(w: seq<U16>, quad: bool)
    ensures Side(Join(HexFields(w), ':'), quad) == Some(w)
  {
    hide HexText, Split, Join;
    HexFieldsClean(w);
    HexFieldsParse(w, [], quad, []);
    assert HexFields(w) + [] == HexFields(w) && w + [] == w;
    SideParses(HexFields(w), quad, w);
  }

  lemma LastFour(src: seq<Byte>)
    requires |src| == 16
    ensures WordsOf(src[12..]) == WordsOf(src)[6..]
  {
    WordsFrom(src, 6);
  }

  lemma {:induction false} WordsFrom(b: seq<Byte>, k: nat)
    requires |b| % 2 == 0 && 2 * k <= |b|
    ensures WordsOf(b)[k..] == WordsOf(b[2 * k..])
  {
    if k == 0 {
      assert b[0..] == b;
    } else {
      WordsFrom(b[2..], k - 1);
      assert b[2..][2 * (k - 1)..] == b[2 * k..];
      assert WordsOf(b)[1..] == WordsOf(b[2..]);
      assert WordsOf(b)[k..] == WordsOf(b)[1..][k - 1..];
    }
  }

  lemma RightSide(src: seq<Byte>, base: int, n: int)
    requires |src| == 16 && 0 <= base && 0 <= n && base + n <= 8
    ensures Side(Join(RightFields(src, base, n), ':'), true) == Some(WordsOf(src)[base + n..])
  {
    hide HexText, Split, Join, WordsOf, Dotted, ParseDotted;
    var w := WordsOf(src);
    if Embedded(w, base, n) {
      var a, head := src[12..], w[n..6];
      DottedRoundTrip(a);
      DottedClean(a);
      LastFour(src);
      HexFieldsClean(head);
      HexFieldsParse(head, [Dotted(a)], true, w[6..]);
      assert head + w[6..] == w[n..];
      SideParses(HexFields(head) + [Dotted(a)], true, w[n..]);
    } else {
      HexSide(w[base + n..], true);
    }
  }

  /** Every address is recovered from its text, whichever zero run was compressed. */
  lemma Text6RoundTrip(src: seq<Byte>, base: int, n: int)
    requires |src| == 16 && (base == -1 || ZeroRun(WordsOf(src), base, n))
    ensures Parse6(Text6(src, base, n)) == Some(src)
  {
    hide HexFields, Side, Join, WordsOf, BytesOf, DoubleColon, RightFields;
    var w := WordsOf(src);
    WordsRoundTrip(src);
    if base == -1 {
      HexFieldsClean(w);
      JoinIsSingle(HexFields(w));
      NoDouble(Join(HexFields(w), ':'));
      HexSide(w, true);
    } else {
      var left, right := Join(HexFields(w[..base]), ':'), Join(RightFields(src, base, n), ':');
      HexFieldsClean(w[..base]);
      JoinIsSingle(HexFields(w[..base]));
      JoinNothing(w[..base]);
      FirstDouble(left, right);
      var text := left + "::" + right;
      assert text[..|left|] == left && text[|left| + 2..] == right;
      HexSide(w[..base], false);
      RightSide(src, base, n);
      assert w == w[..base] + Zeros(n) + w[base + n..];
    }
  }

  lemma JoinNothing(w: seq<U16>)
    ensures w == [] ==> Join(HexFields(w), ':') == []
  {}

  // ---- The IPv4 printer ----

  /** The digits of one octet, as the loop body of `addrtostr` picks them. */
  method PutOctet(octet: Byte, dst: array<char>, dp0: nat) returns (dp: nat)
    requires dp0 + 3 <= dst.Length
    modifies dst
    ensures dp0 < dp <= dp0 + 3
    ensures dst[..dp] == old(dst[..dp0]) + DecText(octet)
  {
    DecDigits(octet);
    hide Digit, DecText;
    dp := dp0;
    var n: int, nonZero := octet, false;
    ghost var was := dst[..dp0];
    if nonZero || n / 100 > 0 {
      dst[dp] := Digit(n / 100);
      dp, n, nonZero := dp + 1, n % 100, true;
    }
    assert dst[..dp] == was + if octet / 100 > 0 then [Digit(octet / 100)] else [];
    if nonZero || n / 10 > 0 {
      dst[dp] := Digit(n / 10);
      dp, n, nonZero := dp + 1, n % 10, true;
    }
    dst[dp] := Digit(n);
    dp := dp + 1;
  }

  lemma DecDigits(n: Byte)
    ensures n / 10 / 10 == n / 100 < 10 && n % 100 / 10 == n / 10 % 10 && n % 100 % 10 == n % 10
    ensures DecText(n) ==
      if n / 100 > 0 then [Digit(n / 100), Digit(n / 10 % 10), Digit(n % 10)]
      else if n / 10 > 0 then [Digit(n / 10), Digit(n % 10)] else [Digit(n)]
  {}

  /** The text of the first `i` octets, each but the last followed by its dot. */
  ghost function Quads(a: seq<Byte>, i: nat): string
    requires |a| == 4 && i <= 4
  {
    if i == 0 then [] else Quads(a, i - 1) + DecText(a[i - 1]) + if i < 4 then "." else ""
  }

  lemma QuadsAreDotted(a: seq<Byte>)
    requires |a| == 4
    ensures Quads(a, 4) == Dotted(a)
  {
    hide DecText, Dotted;
    DottedParts(a);
    assert Quads(a, 1) == DecText(a[0]) + ".";
    assert Quads(a, 2) == DecText(a[0]) + "." + DecText(a[1]) + ".";
    assert Quads(a, 3) == DecText(a[0]) + "." + DecText(a[1]) + "." + DecText(a[2]) + ".";
  }

  /** A text and its terminator stand in the buffer from `at` on. */
  ghost predicate Stands(dst: array<char>, at: nat, text: string)
    reads dst
  {
    at + |text| < dst.Length && dst[at..at + |text|] == text && dst[at + |text|] == '\0'
  }

  /** `addrtostr`, writing at offset `at` of a buffer with `size` characters left. */
  method Addrtostr(src: seq<Byte>, dst: array<char>, at: nat, size: nat) returns (ok: bool)
    requires |src| == 4 && at + size <= dst.Length
    modifies dst
    ensures ok <==> size >= 16
    ensures dst[..at] == old(dst[..at])
    ensures ok ==> |Dotted(src)| < 16 && Stands(dst, at, Dotted(src))
  {
    hide DecText, Dotted, Quads;
    if size < 16 {
      return false;
    }
    ghost var was := dst[..at];
    var dp := at;
    assert Quads(src, 0) == [] by { NoQuads(src); }
    for i := 0 to 4
      invariant at <= dp <= at + 4 * i <= dst.Length && (i == 4 ==> dp < at + 16)
      invariant dst[..dp] == was + Quads(src, i)
    {
      dp := PutOctetAndDot(src[i], dst, dp, i != 3);
      QuadsStep(was, src, i);
    }
    QuadsAreDotted(src);
    ghost var text := dst[..dp];
    dst[dp] := '\0';
    assert dst[..dp] == text == was + Dotted(src);
    assert dst[at..dp] == dst[..dp][at..] == Dotted(src);
    ok := true;
  }

  method PutOctetAndDot(octet: Byte, dst: array<char>, dp0: nat, dot: bool) returns (dp: nat)
    requires dp0 + 4 <= dst.Length
    modifies dst
    ensures dp0 < dp <= dp0 + (if dot then 4 else 3)
    ensures dst[..dp] == old(dst[..dp0]) + DecText(octet) + if dot then "." else ""
  {
    hide DecText;
    dp := PutOctet(octet, dst, dp0);
    if dot {
      ghost var text := dst[..dp];
      dst[dp] := '.';
      assert dst[..dp] == text;
      dp := dp + 1;
    }
  }

  lemma NoQuads(a: seq<Byte>)
    requires |a| == 4
    ensures Quads(a, 0) == []
  {}

  lemma QuadsStep(was: string, a: seq<Byte>, i: nat)
    requires |a| == 4 && i < 4
    ensures was + Quads(a, i) + DecText(a[i]) + (if i != 3 then "." else "") == was + Quads(a, i + 1)
  {
    hide DecText;
  }

  // ---- Finding the run to compress ----

  /** The best run among those that end by `limit`; `base == -1` when there is none. */
  ghost predicate BestBy(w: seq<U16>, base: int, n: int, limit: int) {
    && (base == -1 || (ZeroRun(w, base, n) && base + n <= limit))
    && forall b, m :: ZeroRun(w, b, m) && b + m <= limit ==> base != -1 && (m < n || (m == n && base <= b))
  }

  /** A run that began right after a non-zero word and ends before one. */
  lemma CloseRun(w: seq<U16>, base: int, n: int, curBase: int, curLen: int)
    requires BestBy(w, base, n, curBase) && ZeroRun(w, curBase, curLen)
    requires curBase == 0 || w[curBase - 1] != 0
    ensures if base == -1 || curLen > n then BestBy(w, curBase, curLen, curBase + curLen)
            else BestBy(w, base, n, curBase + curLen)
    ensures curBase + curLen < |w| && w[curBase + curLen] != 0 ==>
            if base == -1 || curLen > n then BestBy(w, curBase, curLen, curBase + curLen + 1)
            else BestBy(w, base, n, curBase + curLen + 1)
  {
    forall b, m | ZeroRun(w, b, m) && curBase < b + m <= curBase + curLen
      ensures curBase <= b && m <= curLen && (m == curLen ==> b == curBase)
    {}
    if base != -1 && curLen > n {
      forall b, m | ZeroRun(w, b, m) && b + m <= curBase
        ensures m <= n
      {}
    }
    if curBase + curLen < |w| && w[curBase + curLen] != 0 {
      forall b, m | ZeroRun(w, b, m)
        ensures b + m != curBase + curLen + 1
      {}
    }
  }

  /** The loop that tracks `best` and `cur`. */
  method FindBestRun(w: seq<U16>) returns (base: int, n: int)
    ensures base == -1 || (0 <= base && 2 <= n && base + n <= |w|)
    ensures BestRun(w, base, n)
  {
    hide ZeroRun;
    base, n := -1, 0;
    var curBase, curLen := -1, 0;
    EmptyLimit(w);
    for i := 0 to |w|
      invariant curBase == -1 || (0 <= curBase && curLen == i - curBase && ZeroRun(w, curBase, curLen))
      invariant curBase == -1 ==> BestBy(w, base, n, i) && (i == 0 || w[i - 1] != 0)
      invariant curBase != -1 ==> BestBy(w, base, n, curBase) && (curBase == 0 || w[curBase - 1] != 0)
    {
      if w[i] == 0 {
        ExtendRun(w, if curBase == -1 then i else curBase, i);
        if curBase == -1 {
          curBase, curLen := i, 1;
        } else {
          curLen := curLen + 1;
        }
      } else if curBase != -1 {
        CloseRun(w, base, n, curBase, curLen);
        if base == -1 || curLen > n {
          base, n := curBase, curLen;
        }
        curBase := -1;
      } else {
        SkipWord(w, base, n, i);
      }
    }
    if curBase != -1 {
      CloseRun(w, base, n, curBase, curLen);
      if base == -1 || curLen > n {
        base, n := curBase, curLen;
      }
    }
    FinalRun(w, base, n);
    if base != -1 && n < 2 {
      base := -1;
    }
  }

  lemma EmptyLimit(w: seq<U16>)
    ensures BestBy(w, -1, 0, 0)
  {}

  lemma ExtendRun(w: seq<U16>, base: int, i: int)
    requires 0 <= base <= i < |w| && w[i] == 0 && (base == i || ZeroRun(w, base, i - base))
    ensures ZeroRun(w, base, i + 1 - base)
  {}

  lemma SkipWord(w: seq<U16>, base: int, n: int, i: int)
    requires 0 <= i < |w| && w[i] != 0 && BestBy(w, base, n, i)
    ensures BestBy(w, base, n, i + 1)
  {}

  lemma FinalRun(w: seq<U16>, base: int, n: int)
    requires BestBy(w, base, n, |w|)
    ensures BestRun(w, if base != -1 && n < 2 then -1 else base, n)
    ensures base != -1 ==> 0 <= base && base + n <= |w|
  {}

  // ---- The IPv6 printer ----

  /** What one turn of the formatting loop adds, the embedded quad aside. */
  ghost function Piece(w: seq<U16>, base: int, n: int, i: nat): (s: string)
    requires i < |w|
    ensures |s| <= 5
  {
    if base != -1 && base <= i < base + n then if i == base then ":" else ""
    else (if i != 0 then ":" else "") + HexText(w[i])
  }

  ghost function Emitted(w: seq<U16>, base: int, n: int, i: nat): (s: string)
    requires i <= |w|
    ensures |s| <= 5 * i
  {
    if i == 0 then [] else Emitted(w, base, n, i - 1) + Piece(w, base, n, i - 1)
  }

  function JoinHex(w: seq<U16>): string {
    Join(HexFields(w), ':')
  }

  lemma JoinHexSnoc(w: seq<U16>, v: U16)
    ensures JoinHex(w + [v]) == (if w == [] then "" else JoinHex(w) + ":") + HexText(v)
  {
    hide HexText;
    assert (w + [v])[..|w|] == w;
    assert HexFields(w + [v]) == HexFields(w) + [HexText(v)];
    if w != [] {
      var f := HexFields(w + [v]);
      assert f[..|f| - 1] == HexFields(w);
    }
  }

  lemma JoinHexNothing(w: seq<U16>)
    ensures w == [] ==> JoinHex(w) == []
  {}

  /** Before the run, the words so far. */
  lemma {:induction false} EmittedBefore(w: seq<U16>, base: int, n: int, i: nat)
    requires i <= |w| && (base == -1 || i <= base)
    ensures Emitted(w, base, n, i) == JoinHex(w[..i])
  {
    hide HexText, JoinHex, Emitted;
    if i == 0 {
      EmittedNothing(w, base, n);
      JoinHexNothing(w[..0]);
    } else {
      var k := i - 1;
      var left, h := JoinHex(w[..k]), HexText(w[k]);
      EmittedBefore(w, base, n, k);
      EmittedStep(w, base, n, k);
      assert w[..i] == w[..k] + [w[k]];
      JoinHexSnoc(w[..k], w[k]);
      if k == 0 {
        EmittedNothing(w, base, n);
        assert [] + ("" + h) == "" + h;
      } else {
        assert left + (":" + h) == left + ":" + h;
      }
    }
  }

  /** Inside the run, one colon more. */
  lemma {:induction false} EmittedInside(w: seq<U16>, base: int, n: int, i: nat)
    requires 0 <= base < i <= base + n <= |w|
    ensures Emitted(w, base, n, i) == JoinHex(w[..base]) + ":"
  {
    hide HexText, JoinHex;
    if i == base + 1 {
      EmittedBefore(w, base, n, base);
    } else {
      EmittedInside(w, base, n, i - 1);
    }
  }

  /** After the run, the second colon and the words that follow. */
  lemma {:induction false} EmittedAfter(w: seq<U16>, base: int, n: int, i: nat)
    requires 0 <= base && 0 < n && base + n < i <= |w|
    ensures Emitted(w, base, n, i) == JoinHex(w[..base]) + "::" + JoinHex(w[base + n..i])
    decreases i
  {
    hide HexText, JoinHex, Emitted;
    var left, k := JoinHex(w[..base]), i - 1;
    EmittedStep(w, base, n, k);
    assert w[base + n..i] == w[base + n..k] + [w[k]];
    JoinHexSnoc(w[base + n..k], w[k]);
    assert Piece(w, base, n, k) == ":" + HexText(w[k]);
    if k == base + n {
      EmittedInside(w, base, n, k);
      assert left + ":" + (":" + HexText(w[k])) == left + "::" + HexText(w[k]);
    } else {
      EmittedAfter(w, base, n, k);
      var right := JoinHex(w[base + n..k]);
      assert left + "::" + right + (":" + HexText(w[k])) == left + "::" + (right + ":" + HexText(w[k]));
    }
  }

  /** The pieces, put together, are the text. */
  lemma PlainText(src: seq<Byte>, base: int, n: int)
    requires |src| == 16 && (base == -1 || (0 <= base && 2 <= n && base + n <= 8))
    requires base == -1 || !Embedded(WordsOf(src), base, n)
    ensures Text6(src, base, n)
         == Emitted(WordsOf(src), base, n, 8) + if base != -1 && base + n == 8 then ":" else ""
  {
    hide HexText, WordsOf, Emitted, Join, HexFields;
    var w := WordsOf(src);
    if base == -1 {
      EmittedBefore(w, base, n, 8);
      assert w[..8] == w;
    } else if base + n == 8 {
      EmittedInside(w, base, n, 8);
      assert w[8..] == [];
      JoinNothing(w[8..]);
      var left := JoinHex(w[..base]);
      assert left + ":" + ":" == left + "::" + [];
    } else {
      EmittedAfter(w, base, n, 8);
      assert w[base + n..8] == w[base + n..];
    }
  }

  lemma EmbeddedText(src: seq<Byte>, n: int)
    requires |src| == 16 && Embedded(WordsOf(src), 0, n)
    ensures Text6(src, 0, n) == Emitted(WordsOf(src), 0, n, 6) + ":" + Dotted(src[12..])
    ensures |Emitted(WordsOf(src), 0, n, 6)| <= 6
  {
    hide HexText, WordsOf, Emitted, Dotted;
    var w, q := WordsOf(src), Dotted(src[12..]);
    JoinNothing(w[..0]);
    if n == 6 {
      EmittedInside(w, 0, 6, 6);
      assert HexFields(w[6..6]) + [q] == [q];
      assert [] + "::" + q == [] + ":" + ":" + q;
    } else {
      EmittedAfter(w, 0, 5, 6);
      var h := HexText(w[5]);
      assert w[5..6] == [w[5]];
      OneField(w[5]);
      TwoFields(h, q);
      assert [] + "::" + (h + ":" + q) == [] + "::" + h + ":" + q;
    }
  }

  lemma OneField(v: U16)
    ensures HexFields([v]) == [HexText(v)] && JoinHex([v]) == HexText(v)
  {
    assert [v][..0] == [];
  }

  lemma TwoFields(f: string, g: string)
    ensures Join([f, g], ':') == f + ":" + g && Join([f] + [g], ':') == f + ":" + g && Join([g], ':') == g
  {
    assert [f, g][..1] == [f];
    assert [f] + [g] == [f, g];
  }

  /** The buffer size from which on the printer succeeds. */
  ghost function Needed(src: seq<Byte>, base: int, n: int): nat
    requires |src| == 16 && (base == -1 || (0 <= base && 2 <= n && base + n <= 8))
  {
    if base != -1 && Embedded(WordsOf(src), base, n) then |Emitted(WordsOf(src), base, n, 6)| + 17
    else |Text6(src, base, n)| + 1
  }

  /** 46 characters, `INET6_ADDRSTRLEN`, always suffice. */
  lemma NeededBound(src: seq<Byte>, base: int, n: int)
    requires |src| == 16 && (base == -1 || (0 <= base && 2 <= n && base + n <= 8))
    ensures Needed(src, base, n) <= 46
  {
    hide WordsOf, Emitted, Text6;
    if base != -1 && Embedded(WordsOf(src), base, n) {
      EmbeddedText(src, n);
    } else {
      PlainText(src, base, n);
    }
  }

  lemma {:induction false} EmittedGrows(w: seq<U16>, base: int, n: int, i: nat, j: nat)
    requires i <= j <= |w|
    ensures |Emitted(w, base, n, i)| <= |Emitted(w, base, n, j)|
  {
    hide Piece;
    if i < j {
      EmittedGrows(w, base, n, i, j - 1);
    }
  }

  lemma EmittedBelowNeeded(src: seq<Byte>, base: int, n: int, i: nat)
    requires |src| == 16 && (base == -1 || (0 <= base && 2 <= n && base + n <= 8))
    requires i <= if base != -1 && Embedded(WordsOf(src), base, n) then 6 else 8
    ensures |Emitted(WordsOf(src), base, n, i)| < Needed(src, base, n)
  {
    hide WordsOf, Emitted, Text6;
    if base != -1 && Embedded(WordsOf(src), base, n) {
      EmittedGrows(WordsOf(src), base, n, i, 6);
    } else {
      EmittedGrows(WordsOf(src), base, n, i, 8);
      PlainText(src, base, n);
    }
  }

  /** Copies the words out of the octets. */
  method LoadWords(src: seq<Byte>) returns (w: seq<U16>)
    requires |src| % 2 == 0
    ensures w == WordsOf(src)
  {
    hide WordsOf;
    w := [];
    for i := 0 to |src| / 2
      invariant w == WordsOf(src)[..i]
    {
      WordsFrom(src, i);
      FirstWord(src[2 * i..]);
      assert WordsOf(src)[i] == WordsOf(src)[i..][0];
      w := w + [256 * (src[2 * i] as int) + src[2 * i + 1]];
    }
  }

  lemma FirstWord(b: seq<Byte>)
    requires |b| >= 2
    ensures WordsOf(b)[0] == Word(BigEndian, b[0], b[1])
  {}

  method PutText(s: string, dst: array<char>, dp0: nat) returns (dp: nat)
    requires dp0 + |s| <= dst.Length
    modifies dst
    ensures dp == dp0 + |s| && dst[..dp] == old(dst[..dp0]) + s
  {
    ghost var was := dst[..dp0];
    dp := dp0;
    for i := 0 to |s|
      invariant dp == dp0 + i && dst[..dp] == was + s[..i]
    {
      dst[dp] := s[i];
      dp := dp + 1;
      assert s[..i + 1] == s[..i] + [s[i]];
    }
    assert s[..|s|] == s;
  }

  /** `strlen` from an offset. */
  method Strlen(dst: array<char>, at: nat, ghost text: string) returns (n: nat)
    requires Stands(dst, at, text) && '\0' !in text
    ensures n == |text|
  {
    n := 0;
    while dst[at + n] != '\0'
      invariant n <= |text|
      decreases |text| - n
    {
      n := n + 1;
    }
  }

  /** One turn of the formatting loop; it fails when the piece does not fit with room for a terminator. */
  method PutPiece(w: seq<U16>, base: int, n: int, i: nat, dst: array<char>, dp0: nat, size: nat)
    returns (ok: bool, dp: nat)
    requires i < |w| && dp0 <= size <= dst.Length
    modifies dst
    ensures !ok ==> size <= dp0 + |Piece(w, base, n, i)|
    ensures ok ==> dp == dp0 + |Piece(w, base, n, i)| <= size && dst[..dp] == old(dst[..dp0]) + Piece(w, base, n, i)
  {
    hide HexText;
    ghost var was := dst[..dp0];
    dp := dp0;
    if base != -1 && base <= i < base + n {
      if i == base {
        if size - dp == 0 {
          return false, dp;
        }
        dst[dp] := ':';
        dp := dp + 1;
      }
      assert dst[..dp] == was + Piece(w, base, n, i);
      return true, dp;
    }
    if i != 0 {
      if size - dp == 0 {
        return false, dp;
      }
      dst[dp] := ':';
      dp := dp + 1;
    }
    ghost var colon := if i != 0 then ":" else "";
    assert dst[..dp] == was + colon;
    var h := HexText(w[i]);
    if |h| >= size - dp {
      return false, dp;
    }
    dp := PutText(h, dst, dp);
    assert was + colon + h == was + (colon + h);
    ok := true;
  }

  lemma DottedHasNoNul(a: seq<Byte>)
    requires |a| == 4
    ensures '\0' !in Dotted(a)
  {
    hide Dotted, DecText;
    DottedParts(a);
    NumeralsAreClean(0, a[0]);
    NumeralsAreClean(0, a[1]);
    NumeralsAreClean(0, a[2]);
    NumeralsAreClean(0, a[3]);
  }

  /** The branch for embedded IPv4 addresses: a colon, the quad, and where it ends. */
  method PutQuad(a: seq<Byte>, dst: array<char>, dp0: nat, size: nat) returns (ok: bool, dp: nat)
    requires |a| == 4 && dp0 <= size <= dst.Length
    modifies dst
    ensures ok <==> size >= dp0 + 17
    ensures ok ==> dp == dp0 + 1 + |Dotted(a)| < size && dst[..dp] == old(dst[..dp0]) + ":" + Dotted(a)
  {
    hide Dotted;
    ghost var was := dst[..dp0];
    dp := dp0;
    if size - dp == 0 {
      return false, dp;
    }
    dst[dp] := ':';
    dp := dp + 1;
    assert dst[..dp] == was + ":";
    ok := Addrtostr(a, dst, dp, size - dp);
    if ok {
      DottedHasNoNul(a);
      var added := Strlen(dst, dp, Dotted(a));
      assert dst[..dp + added] == dst[..dp] + dst[dp..dp + added];
      dp := dp + added;
    }
  }

  /** The formatting loop, with its early exit for embedded addresses. */
  method PutAddress(src: seq<Byte>, w: seq<U16>, base: int, n: int, dst: array<char>, size: nat)
    returns (ok: bool, dp: nat)
    requires |src| == 16 && w == WordsOf(src) && size <= dst.Length
    requires base == -1 || (0 <= base && 2 <= n && base + n <= 8)
    modifies dst
    ensures ok && !(base != -1 && base + n == 8) ==> dp <= size && dst[..dp] == Text6(src, base, n)
    ensures ok && base != -1 && base + n == 8 ==> dp <= size && dst[..dp] + ":" == Text6(src, base, n)
    ensures !ok ==> size < Needed(src, base, n)
    ensures ok && base != -1 && Embedded(w, base, n) ==> size >= Needed(src, base, n) && dp < size
  {
    hide WordsOf, Emitted, Text6, Dotted, Piece;
    dp, ok := 0, true;
    EmittedNothing(w, base, n);
    var quad := base != -1 && Embedded(w, base, n);
    for i := 0 to 8
      invariant i <= if quad then 6 else 8
      invariant dp <= size && dst[..dp] == Emitted(w, base, n, i)
    {
      EmittedBelowNeeded(src, base, n, i);
      if i == 6 && quad {
        EmbeddedText(src, n);
        ok, dp := PutQuad(src[12..], dst, dp, size);
        return;
      }
      EmittedBelowNeeded(src, base, n, i + 1);
      EmittedStep(w, base, n, i);
      ok, dp := PutPiece(w, base, n, i, dst, dp, size);
      if !ok {
        return;
      }
    }
    PlainText(src, base, n);
  }

  lemma EmittedNothing(w: seq<U16>, base: int, n: int)
    ensures Emitted(w, base, n, 0) == []
  {}

  lemma EmittedStep(w: seq<U16>, base: int, n: int, i: nat)
    requires i < |w|
    ensures Emitted(w, base, n, i + 1) == Emitted(w, base, n, i) + Piece(w, base, n, i)
  {}

  /**
   `addrtostr6`: the first longest run of at least two zero words is compressed,
   and the printer succeeds exactly when the buffer is large enough, which 46
   characters always are.
   */
  method Addrtostr6(src: seq<Byte>, dst: array<char>, size: nat) returns (ok: bool, ghost base: int, ghost n: int)
    requires |src| == 16 && size <= dst.Length
    modifies dst
    ensures BestRun(WordsOf(src), base, n) && (base == -1 || (0 <= base && 2 <= n && base + n <= 8))
    ensures ok <==> size >= Needed(src, base, n)
    ensures size >= 46 ==> ok
    ensures ok ==> Stands(dst, 0, Text6(src, base, n)) && Parse6(Text6(src, base, n)) == Some(src)
  {
    hide WordsOf, Emitted, Text6, Dotted, Parse6, BestRun;
    var w := LoadWords(src);
    var b, m := FindBestRun(w);
    base, n := b, m;
    RunIsZero(w, b, m);
    NeededBound(src, b, m);
    Text6RoundTrip(src, b, m);
    var dp;
    ok, dp := PutAddress(src, w, b, m, dst, size);
    if !ok {
      return;
    }
    if b != -1 && b + m == 8 {
      if size - dp == 0 {
        return false, base, n;
      }
      dst[dp] := ':';
      dp := dp + 1;
    }
    if size - dp == 0 {
      return false, base, n;
    }
    dst[dp] := '\0';
    assert dst[0..dp] == dst[..dp];
  }

  lemma RunIsZero(w: seq<U16>, base: int, n: int)
    requires BestRun(w, base, n)
    ensures base == -1 || ZeroRun(w, base, n)
  {}

  // ---- intoa: the same text, written backwards into a static buffer ----

  method PutOctetBack(octet: Byte, buf: array<char>, cp0: nat) returns (cp: nat)
    requires 3 <= cp0 <= buf.Length
    modifies buf
    ensures cp0 - 3 <= cp < cp0 && buf[cp..] == DecText(octet) + old(buf[cp0..])
  {
    DecDigits(octet);
    hide Digit, DecText;
    ghost var was := buf[cp0..];
    cp := cp0 - 1;
    var byte: int := octet;
    buf[cp] := Digit(byte % 10);
    byte := byte / 10;
    assert buf[cp..] == [Digit(octet % 10)] + was;
    if byte > 0 {
      cp := cp - 1;
      buf[cp] := Digit(byte % 10);
      byte := byte / 10;
      assert buf[cp..] == [Digit(octet / 10 % 10), Digit(octet % 10)] + was;
      if byte > 0 {
        cp := cp - 1;
        buf[cp] := Digit(byte);
        assert buf[cp..] == [Digit(octet / 100), Digit(octet / 10 % 10), Digit(octet % 10)] + was;
      }
    }
  }

  /** Dot and digits of the last `k` octets. */
  ghost function QuadsBack(a: seq<Byte>, k: nat): (s: string)
    requires |a| == 4 && k <= 4
    ensures |s| <= 4 * k
  {
    if k == 0 then [] else "." + DecText(a[4 - k]) + QuadsBack(a, k - 1)
  }

  lemma NoQuadsBack(a: seq<Byte>)
    requires |a| == 4
    ensures QuadsBack(a, 0) == []
  {}

  lemma QuadsBackStep(a: seq<Byte>, k: nat)
    requires |a| == 4 && k < 4
    ensures "." + DecText(a[3 - k]) + (QuadsBack(a, k) + "\0") == QuadsBack(a, k + 1) + "\0"
  {
    hide DecText;
  }

  lemma QuadsBackAreDotted(a: seq<Byte>)
    requires |a| == 4
    ensures QuadsBack(a, 4) == "." + Dotted(a)
  {
    hide DecText, Dotted;
    DottedParts(a);
    var p, q, r, s := DecText(a[0]), DecText(a[1]), DecText(a[2]), DecText(a[3]);
    assert QuadsBack(a, 1) == "." + s;
    assert QuadsBack(a, 2) == "." + r + "." + s;
    assert QuadsBack(a, 3) == "." + q + "." + r + "." + s;
  }

  method PutDottedBack(octet: Byte, buf: array<char>, cp0: nat) returns (cp: nat)
    requires 4 <= cp0 <= buf.Length
    modifies buf
    ensures cp0 - 4 <= cp < cp0 && buf[cp..] == "." + DecText(octet) + old(buf[cp0..])
  {
    hide DecText;
    ghost var was := buf[cp0..];
    cp := PutOctetBack(octet, buf, cp0);
    cp := cp - 1;
    buf[cp] := '.';
    assert buf[cp..] == "." + (DecText(octet) + was);
  }

  lemma BeSplit(s: seq<Byte>)
    requires s != []
    ensures BeValue(s) % 256 == s[|s| - 1] && BeValue(s) / 256 == BeValue(s[..|s| - 1])
  {
    var front := BeValue(s[..|s| - 1]);
    assert BeValue(s) == 256 * front + s[|s| - 1];
    QuotientAndRest(front, s[|s| - 1]);
  }

  lemma QuotientAndRest(q: nat, r: Byte)
    ensures (256 * q + r) / 256 == q && (256 * q + r) % 256 == r
  {}

  lemma TailStands(buf: array<char>, cp: nat, text: string)
    requires cp < buf.Length && buf[cp..] == "." + text + "\0"
    ensures Stands(buf, cp + 1, text)
  {
    assert buf[cp + 1..] == buf[cp..][1..];
    assert buf[cp + 1..] == text + "\0";
    assert buf[cp + 1..cp + 1 + |text|] == buf[cp + 1..][..|text|];
  }

  /** `intoa`, of the four octets of an address in network order; the result is an offset into the buffer. */
  method Intoa(a: seq<Byte>, buf: array<char>) returns (at: nat)
    requires |a| == 4 && buf.Length == 17
    modifies buf
    ensures Stands(buf, at, Dotted(a))
  {
    hide DecText, Dotted, BeValue, QuadsBack, Stands;
    var addr := BeValue(a);
    assert a[..4] == a;
    var cp := 16;
    buf[cp] := '\0';
    assert QuadsBack(a, 0) == [] by { NoQuadsBack(a); }
    for k := 0 to 4
      invariant 16 - 4 * k <= cp <= 16
      invariant buf[cp..] == QuadsBack(a, k) + "\0"
      invariant addr == BeValue(a[..4 - k])
    {
      BeSplit(a[..4 - k]);
      assert a[..4 - k][..3 - k] == a[..3 - k];
      cp := PutDottedBack(addr % 256, buf, cp);
      QuadsBackStep(a, k);
      addr := addr / 256;
    }
    QuadsBackAreDotted(a);
    TailStands(buf, cp, Dotted(a));
    at := cp + 1;
  }
}
