/** Text forms of addresses, and a reference parser for them (section 2.2 of RFC 4291). */
module AddrText {
  import opened Bytes

  // ---- Digits ----

  function Digit(d: nat): char
    requires d < 16
  {
    "0123456789abcdef"[d]
  }

  function DigitValue(c: char): Option<nat> {
    if '0' <= c <= '9' then Some((c - '0') as nat)
    else if 'a' <= c <= 'f' then Some((c - 'a') as nat + 10)
    else None
  }

  lemma DigitRoundTrip(d: nat)
    requires d < 16
    ensures DigitValue(Digit(d)) == Some(d) && Digit(d) != ':' && Digit(d) != '.'
  {}

  /** A 16-bit number as `%x` prints it, without leading zeros. */
  function HexText(w: U16): (s: string)
    ensures 1 <= |s| <= 4
  {
    var r, q, p := w / 16, w / 16 / 16, w / 16 / 16 / 16;
    if r == 0 then [Digit(w)]
    else if q == 0 then [Digit(r), Digit(w % 16)]
    else if p == 0 then [Digit(q), Digit(r % 16), Digit(w % 16)]
    else [Digit(p), Digit(q % 16), Digit(r % 16), Digit(w % 16)]
  }

  /** An octet in decimal without leading zeros. */
  function DecText(n: Byte): (s: string)
    ensures 1 <= |s| <= 3
  {
    var t, h := n / 10, n / 10 / 10;
    if t == 0 then [Digit(n)]
    else if h == 0 then [Digit(t), Digit(n % 10)]
    else [Digit(h), Digit(t % 10), Digit(n % 10)]
  }

  /** Reads digits of a base, most significant first. */
  function NumeralValue(s: string, base: nat): Option<nat> {
    if s == [] then Some(0)
    else
      var front := NumeralValue(s[..|s| - 1], base);
      var last := DigitValue(s[|s| - 1]);
      if front.Some? && last.Some? && last.value < base then Some(front.value * base + last.value) else None
  }

  lemma AppendDigit(s: string, v: nat, d: nat, base: nat)
    requires d < base <= 16 && NumeralValue(s, base) == Some(v)
    ensures NumeralValue(s + [Digit(d)], base) == Some(v * base + d)
  {
    DigitRoundTrip(d);
    assert (s + [Digit(d)])[..|s|] == s;
  }

  lemma OneDigit(d: nat, base: nat)
    requires d < base <= 16
    ensures NumeralValue([Digit(d)], base) == Some(d)
  {
    AppendDigit([], 0, d, base);
    assert [] + [Digit(d)] == [Digit(d)];
  }

  lemma TwoDigits(a: nat, b: nat, base: nat)
    requires a < base && b < base <= 16
    ensures NumeralValue([Digit(a), Digit(b)], base) == Some(a * base + b)
  {
    hide NumeralValue, Digit;
    OneDigit(a, base);
    AppendDigit([Digit(a)], a, b, base);
    assert [Digit(a)] + [Digit(b)] == [Digit(a), Digit(b)];
  }

  lemma ThreeDigits(a: nat, b: nat, c: nat, base: nat)
    requires a < base && b < base && c < base <= 16
    ensures NumeralValue([Digit(a), Digit(b), Digit(c)], base) == Some((a * base + b) * base + c)
  {
    hide NumeralValue, Digit;
    TwoDigits(a, b, base);
    AppendDigit([Digit(a), Digit(b)], a * base + b, c, base);
    assert [Digit(a), Digit(b)] + [Digit(c)] == [Digit(a), Digit(b), Digit(c)];
  }

  lemma FourDigits(a: nat, b: nat, c: nat, d: nat, base: nat)
    requires a < base && b < base && c < base && d < base <= 16
    ensures NumeralValue([Digit(a), Digit(b), Digit(c), Digit(d)], base) == Some(((a * base + b) * base + c) * base + d)
  {
    hide NumeralValue, Digit;
    ThreeDigits(a, b, c, base);
    AppendDigit([Digit(a), Digit(b), Digit(c)], (a * base + b) * base + c, d, base);
    assert [Digit(a), Digit(b), Digit(c)] + [Digit(d)] == [Digit(a), Digit(b), Digit(c), Digit(d)];
  }

  lemma OnlyZeroIsZero()
    ensures forall d :: 0 < d < 16 ==> Digit(d) != '0'
  {}

  lemma HexRoundTrip(w: U16)
    ensures NumeralValue(HexText(w), 16) == Some(w)
    ensures |HexText(w)| > 1 ==> HexText(w)[0] != '0'
  {
    hide NumeralValue, Digit;
    OnlyZeroIsZero();
    var r, q, p := w / 16, w / 16 / 16, w / 16 / 16 / 16;
    if r == 0 {
      OneDigit(w, 16);
    } else if q == 0 {
      TwoDigits(r, w % 16, 16);
    } else if p == 0 {
      ThreeDigits(q, r % 16, w % 16, 16);
    } else {
      FourDigits(p, q % 16, r % 16, w % 16, 16);
    }
  }

  lemma DecRoundTrip(n: Byte)
    ensures NumeralValue(DecText(n), 10) == Some(n)
    ensures |DecText(n)| > 1 ==> DecText(n)[0] != '0'
  {
    hide NumeralValue, Digit;
    OnlyZeroIsZero();
    var t, h := n / 10, n / 10 / 10;
    if t == 0 {
      OneDigit(n, 10);
    } else if h == 0 {
      TwoDigits(t, n % 10, 10);
    } else {
      ThreeDigits(h, t % 10, n % 10, 10);
    }
  }

  lemma NumeralsAreClean(w: U16, n: Byte)
    ensures ':' !in HexText(w) && '.' !in HexText(w) && ':' !in DecText(n) && '.' !in DecText(n)
    ensures '\0' !in DecText(n)
  {
    DigitsAreClean();
    hide Digit;
  }

  lemma DigitsAreClean()
    ensures forall d: nat {:trigger Digit(d)} :: d < 16 ==> Digit(d) != ':' && Digit(d) != '.' && Digit(d) != '\0'
  {
    forall d: nat | d < 16
      ensures Digit(d) != ':' && Digit(d) != '.' && Digit(d) != '\0'
    {
      DigitRoundTrip(d);
    }
  }

  // ---- Fields ----

  /** Fields with a separator between them. */
  function Join(fields: seq<string>, sep: char): string {
    if |fields| == 0 then []
    else if |fields| == 1 then fields[0]
    else Join(fields[..|fields| - 1], sep) + [sep] + fields[|fields| - 1]
  }

  /** Cuts a text at every separator. */
  function Split(text: string, sep: char): (fields: seq<string>)
    ensures |fields| >= 1
  {
    if text == [] then [[]]
    else
      var front := Split(text[..|text| - 1], sep);
      if text[|text| - 1] == sep then front + [[]]
      else front[..|front| - 1] + [front[|front| - 1] + [text[|text| - 1]]]
  }

  predicate Clean(field: string, sep: char) {
    field != [] && sep !in field
  }

  /** The fields with a text added to the last of them. */
  function Extended(fields: seq<string>, text: string): seq<string>
    requires |fields| >= 1
  {
    fields[..|fields| - 1] + [fields[|fields| - 1] + text]
  }

  lemma SplitCharacter(text: string, c: char, sep: char)
    requires c != sep
    ensures Split(text + [c], sep) == Extended(Split(text, sep), [c])
  {
    assert (text + [c])[..|text|] == text;
  }

  lemma {:induction false} SplitExtend(text: string, field: string, sep: char)
    requires sep !in field
    ensures Split(text + field, sep) == Extended(Split(text, sep), field)
  {
    hide Split;
    var f := Split(text, sep);
    if field == [] {
      assert text + field == text;
      assert f[|f| - 1] + field == f[|f| - 1];
    } else {
      var front, c := field[..|field| - 1], field[|field| - 1];
      SplitExtend(text, front, sep);
      SplitCharacter(text + front, c, sep);
      assert text + front + [c] == text + field;
      assert f[|f| - 1] + front + [c] == f[|f| - 1] + field;
    }
  }

  lemma SplitSeparator(text: string, sep: char)
    ensures Split(text + [sep], sep) == Split(text, sep) + [[]]
  {
    assert (text + [sep])[..|text|] == text;
  }

  lemma {:induction false} SplitJoin(fields: seq<string>, sep: char)
    requires fields != [] && forall f :: f in fields ==> sep !in f
    ensures Split(Join(fields, sep), sep) == fields
  {
    hide Split;
    var n := |fields| - 1;
    if n == 0 {
      SplitExtend([], fields[0], sep);
      SplitNothing(sep);
      assert [] + fields[0] == fields[0];
    } else {
      var front := fields[..n];
      SplitJoin(front, sep);
      var text := Join(front, sep) + [sep];
      SplitSeparator(Join(front, sep), sep);
      SplitExtend(text, fields[n], sep);
      assert (front + [[]])[..n] == front && [] + fields[n] == fields[n];
    }
  }

  lemma SplitNothing(sep: char)
    ensures Split([], sep) == [[]]
  {}

  // ---- The reference parser ----

  function DecOctet(s: string): Option<Byte> {
    var v := NumeralValue(s, 10);
    if 1 <= |s| <= 3 && v.Some? && v.value < 256 then Some(v.value) else None
  }

  function HexGroup(s: string): Option<U16> {
    var v := NumeralValue(s, 16);
    if 1 <= |s| <= 4 && v.Some? && v.value < 0x1_0000 then Some(v.value) else None
  }

  function ParseDotted(s: string): Option<seq<Byte>> {
    var f := Split(s, '.');
    if |f| != 4 then None
    else
      var a, b, c, d := DecOctet(f[0]), DecOctet(f[1]), DecOctet(f[2]), DecOctet(f[3]);
      if a.Some? && b.Some? && c.Some? && d.Some? then Some([a.value, b.value, c.value, d.value]) else None
  }

  /** Groups of hexadecimal digits; the last may be a dotted quad standing for two groups. */
  function ParseFields(fields: seq<string>, quad: bool): Option<seq<U16>> {
    if fields == [] then Some([])
    else if quad && |fields| == 1 && '.' in fields[0] then
      var q := ParseDotted(fields[0]);
      if q.Some? && |q.value| == 4 then Some(WordsOf(q.value)) else None
    else
      var first, rest := HexGroup(fields[0]), ParseFields(fields[1..], quad);
      if first.Some? && rest.Some? then Some([first.value] + rest.value) else None
  }

  /** Big-endian words of an even number of octets, and back. */
  function WordsOf(b: seq<Byte>): (w: seq<U16>)
    ensures |w| == |b| / 2
  {
    if |b| < 2 then [] else [Word(BigEndian, b[0], b[1])] + WordsOf(b[2..])
  }

  function BytesOf(w: seq<U16>): (b: seq<Byte>)
    ensures |b| == 2 * |w|
  {
    if w == [] then [] else [w[0] / 256, w[0] % 256] + BytesOf(w[1..])
  }

  /** Where the first "::" is, or -1. */
  function DoubleColon(text: string): (k: int)
    ensures -1 <= k && (k >= 0 ==> k + 2 <= |text|)
  {
    if |text| < 2 then -1
    else if text[0] == ':' && text[1] == ':' then 0
    else
      var k := DoubleColon(text[1..]);
      if k < 0 then -1 else k + 1
  }

  function Side(text: string, quad: bool): Option<seq<U16>> {
    if text == [] then Some([]) else ParseFields(Split(text, ':'), quad)
  }

  function Zeros(n: nat): (z: seq<U16>)
    ensures |z| == n
  {
    seq(n, _ => 0)
  }

  /** Section 2.2 of RFC 4291: eight groups, or fewer around one "::". */
  function Parse6(text: string): Option<seq<Byte>> {
    var k := DoubleColon(text);
    if k < 0 then
      var w := Side(text, true);
      if w.Some? && |w.value| == 8 then Some(BytesOf(w.value)) else None
    else
      var left, right := Side(text[..k], false), Side(text[k + 2..], true);
      if left.Some? && right.Some? && |left.value| + |right.value| < 8
      then Some(BytesOf(left.value + Zeros(8 - |left.value| - |right.value|) + right.value))
      else None
  }

  // ---- Inverting the pieces ----

  lemma {:induction false} WordsRoundTrip(b: seq<Byte>)
    requires |b| % 2 == 0
    ensures BytesOf(WordsOf(b)) == b
  {
    if b != [] {
      WordsRoundTrip(b[2..]);
      assert WordsOf(b)[1..] == WordsOf(b[2..]);
      assert b == [b[0], b[1]] + b[2..];
    }
  }

  function Dotted(a: seq<Byte>): string
    requires |a| == 4
  {
    Join([DecText(a[0]), DecText(a[1]), DecText(a[2]), DecText(a[3])], '.')
  }

  lemma DottedRoundTrip(a: seq<Byte>)
    requires |a| == 4
    ensures ParseDotted(Dotted(a)) == Some(a)
  {
    hide NumeralValue, Split, DecText, Join;
    var f := [DecText(a[0]), DecText(a[1]), DecText(a[2]), DecText(a[3])];
    forall i | 0 <= i < 4
      ensures DecOctet(f[i]) == Some(a[i]) && '.' !in f[i]
    {
      DecRoundTrip(a[i]);
      NumeralsAreClean(0, a[i]);
    }
    SplitJoin(f, '.');
    assert a == [a[0], a[1], a[2], a[3]];
  }

  function HexFields(w: seq<U16>): (f: seq<string>)
    ensures |f| == |w|
  {
    if w == [] then [] else HexFields(w[..|w| - 1]) + [HexText(w[|w| - 1])]
  }

  lemma {:induction false} HexFieldsAt(w: seq<U16>, i: nat)
    requires i < |w|
    ensures HexFields(w)[i] == HexText(w[i])
  {
    if i < |w| - 1 {
      HexFieldsAt(w[..|w| - 1], i);
    }
  }

  lemma {:induction false} HexFieldsParse(w: seq<U16>, more: seq<string>, quad: bool, v: seq<U16>)
    requires ParseFields(more, quad) == Some(v)
    ensures ParseFields(HexFields(w) + more, quad) == Some(w + v)
    decreases |w|
  {
    hide HexText, NumeralValue;
    if w == [] {
      assert HexFields(w) + more == more && w + v == v;
    } else {
      var n := |w| - 1;
      var last := w[n];
      HexRoundTrip(last);
      NumeralsAreClean(last, 0);
      var f := [HexText(last)] + more;
      assert f[1..] == more;
      assert ParseFields(f, quad) == Some([last] + v);
      HexFieldsParse(w[..n], f, quad, [last] + v);
      assert HexFields(w) + more == HexFields(w[..n]) + f;
      assert w + v == w[..n] + ([last] + v);
    }
  }

  // ---- Where the colons are ----

  ghost predicate Single(text: string) {
    forall i :: 0 <= i < |text| - 1 ==> !(text[i] == ':' && text[i + 1] == ':')
  }

  lemma {:induction false} NoDouble(text: string)
    requires Single(text)
    ensures DoubleColon(text) == -1
  {
    if |text| >= 2 {
      assert text[1..][0] == text[1];
      NoDouble(text[1..]);
    }
  }

  lemma {:induction false} FirstDouble(left: string, right: string)
    requires Single(left) && (left == [] || left[|left| - 1] != ':')
    ensures DoubleColon(left + "::" + right) == |left|
  {
    var text := left + "::" + right;
    if left != [] {
      assert text[1..] == left[1..] + "::" + right;
      FirstDouble(left[1..], right);
      assert |left| >= 2 ==> text[0] == left[0] && text[1] == left[1];
    }
  }

  /** Joined fields have no "::" and begin and end with a field character. */
  lemma {:induction false} JoinIsSingle(fields: seq<string>)
    requires forall f :: f in fields ==> Clean(f, ':')
    ensures var t := Join(fields, ':');
      && Single(t)
      && (fields != [] ==> t != [] && t[0] != ':' && t[|t| - 1] != ':')
  {
    var n := |fields| - 1;
    if n > 0 {
      JoinIsSingle(fields[..n]);
      var t, f := Join(fields[..n], ':'), fields[n];
      assert Clean(f, ':');
      assert f[0] in f && f[|f| - 1] in f;
    } else if n == 0 {
      assert Clean(fields[0], ':');
      assert fields[0][0] in fields[0] && fields[0][|fields[0]| - 1] in fields[0];
    }
  }
}
