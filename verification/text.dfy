/** Strings as sequences of characters: decimal rendering of amounts, the
    string tests (`startswith`, `endswith`, substring) the views use, Python's
    `int()` and `str.strip()`, JavaScript's `trim()`, and the readback lemmas
    showing that each rendering can be read back as the amount it shows. */
module Text {
  import opened Values

  // ---------------------------------------------------------------------
  // Prefixes, suffixes, substrings

  predicate StartsWith(s: string, prefix: string) {
    |prefix| <= |s| && s[..|prefix|] == prefix
  }

  /** Appending keeps a prefix. */
  lemma StartsWithAppend(s: string, t: string, prefix: string)
    requires StartsWith(s, prefix)
    ensures StartsWith(s + t, prefix)
  {
    assert (s + t)[..|prefix|] == s[..|prefix|];
  }

  predicate EndsWith(s: string, suffix: string) {
    |suffix| <= |s| && s[|s| - |suffix|..] == suffix
  }

  /** `needle in haystack` for strings. */
  predicate Contains(haystack: string, needle: string) {
    exists i :: 0 <= i <= |haystack| - |needle| && OccursAt(haystack, needle, i)
  }

  predicate OccursAt(haystack: string, needle: string, i: int)
    requires 0 <= i <= |haystack| - |needle|
  {
    haystack[i..i + |needle|] == needle
  }

  /** JavaScript `s.split('/').pop()`: the text after the last slash (all of
      `s` when it has none). */
  function LastSegment(s: string): (r: string)
    ensures '/' !in r
    ensures EndsWith(s, r)
    ensures |r| < |s| ==> s[|s| - |r| - 1] == '/'
    decreases |s|
  {
    if |s| == 0 then ""
    else if s[|s| - 1] == '/' then ""
    else
      var init := s[..|s| - 1];
      var rest := LastSegment(init);
      var r := rest + [s[|s| - 1]];
      assert init[|init| - |rest|..] == rest;
      assert s[|s| - |r|..] == init[|init| - |rest|..] + [s[|s| - 1]];
      assert |rest| < |init| ==> s[|s| - |r| - 1] == init[|init| - |rest| - 1];
      r
  }

  /** `s` with every occurrence of `c` removed. */
  function Without(s: string, c: char): (r: string)
    ensures c !in r
    ensures |r| <= |s|
    decreases |s|
  {
    if |s| == 0 then ""
    else (if s[0] == c then "" else [s[0]]) + Without(s[1..], c)
  }

  lemma {:induction false} WithoutAppend(a: string, b: string, c: char)
    ensures Without(a + b, c) == Without(a, c) + Without(b, c)
    decreases |a|
  {
    if |a| == 0 {
      assert a + b == b;
    } else {
      var h := if a[0] == c then "" else [a[0]];
      assert (a + b)[0] == a[0];
      assert (a + b)[1..] == a[1..] + b;
      assert Without(a + b, c) == h + Without(a[1..] + b, c);
      assert Without(a, c) == h + Without(a[1..], c);
      WithoutAppend(a[1..], b, c);
      assert h + (Without(a[1..], c) + Without(b, c)) == (h + Without(a[1..], c)) + Without(b, c);
    }
  }

  lemma {:induction false} WithoutAbsent(s: string, c: char)
    requires c !in s
    ensures Without(s, c) == s
    decreases |s|
  {
    if |s| > 0 {
      assert s[0] != c;
      assert c !in s[1..];
      WithoutAbsent(s[1..], c);
      assert s == [s[0]] + s[1..];
    }
  }

  // ---------------------------------------------------------------------
  // Decimal digits

  predicate IsDigit(c: char) {
    '0' <= c <= '9'
  }

  predicate AllDigits(s: string) {
    forall i :: 0 <= i < |s| ==> IsDigit(s[i])
  }

  lemma DigitsExclude(s: string, c: char)
    requires AllDigits(s) && !IsDigit(c)
    ensures c !in s
  {
  }

  function DigitChar(d: nat): (c: char)
    requires d < 10
    ensures IsDigit(c)
  {
    ('0' as int + d) as char
  }

  function DigitValue(c: char): (d: nat)
    requires IsDigit(c)
    ensures d < 10
  {
    c as int - '0' as int
  }

  /** Base-10 value of a digit string (leading zeros allowed). */
  function DigitsValue(s: string): nat
    requires AllDigits(s)
    decreases |s|
  {
    if |s| == 0 then 0 else DigitsValue(s[..|s| - 1]) * 10 + DigitValue(s[|s| - 1])
  }

  /** Decimal rendering of a natural number with no leading zeros, as
      Python's `str(n)` and JavaScript's template interpolation print it. */
  function NatToString(n: nat): (s: string)
    ensures 1 <= |s|
    ensures AllDigits(s)
    ensures |s| > 1 ==> s[0] != '0'
    decreases n
  {
    if n < 10 then [DigitChar(n)] else NatToString(n / 10) + [DigitChar(n % 10)]
  }

  lemma {:induction false} DigitsValueOfNatToString(n: nat)
    ensures DigitsValue(NatToString(n)) == n
    decreases n
  {
    if n >= 10 {
      var s := NatToString(n / 10);
      var t := s + [DigitChar(n % 10)];
      assert t[..|t| - 1] == s;
      DigitsValueOfNatToString(n / 10);
    }
  }

  /** Exactly two digits, zero-padded: the cents of a Decimal(…, 2). */
  function Pad2(n: nat): (s: string)
    requires n < 100
    ensures |s| == 2 && AllDigits(s)
  {
    var s := [DigitChar(n / 10), DigitChar(n % 10)];
    assert IsDigit(s[0]) && IsDigit(s[1]);
    s
  }

  /** Exactly three digits, zero-padded: one thousands group. */
  function Pad3(n: nat): (s: string)
    requires n < 1000
    ensures |s| == 3 && AllDigits(s)
  {
    var s := [DigitChar(n / 100), DigitChar((n / 10) % 10), DigitChar(n % 10)];
    assert IsDigit(s[0]) && IsDigit(s[1]) && IsDigit(s[2]);
    s
  }

  lemma DigitsValueAppendTwo(a: string, b: string)
    requires AllDigits(a) && AllDigits(b) && |b| == 2
    ensures AllDigits(a + b)
    ensures DigitsValue(a + b) == DigitsValue(a) * 100 + DigitsValue(b)
  {
    var ab := a + b;
    var a0 := a + [b[0]];
    assert ab[..|ab| - 1] == a0;
    assert a0[..|a0| - 1] == a;
    assert b[..1] == [b[0]];
    assert [b[0]][..0] == [];
    calc {
      DigitsValue(ab);
      DigitsValue(a0) * 10 + DigitValue(b[1]);
      (DigitsValue(a) * 10 + DigitValue(b[0])) * 10 + DigitValue(b[1]);
      DigitsValue(a) * 100 + (DigitValue(b[0]) * 10 + DigitValue(b[1]));
      { assert DigitsValue(b[..1]) == DigitValue(b[0]); }
      DigitsValue(a) * 100 + DigitsValue(b);
    }
  }

  lemma DigitsValueOfPad2(n: nat)
    requires n < 100
    ensures DigitsValue(Pad2(n)) == n
  {
    var s := Pad2(n);
    assert s[..1] == [s[0]];
    assert [s[0]][..0] == [];
    assert DigitsValue(s[..1]) == DigitValue(s[0]) == n / 10;
    assert DigitValue(s[1]) == n % 10;
  }

  /** `NatToString` splits into the leading part and the last three digits. */
  lemma NatToStringThousands(a: nat, b: nat)
    requires 1 <= a && b < 1000
    ensures NatToString(a * 1000 + b) == NatToString(a) + Pad3(b)
  {
    var n := a * 1000 + b;
    assert n / 10 == a * 100 + b / 10;
    assert n % 10 == b % 10;
    var m := n / 10;
    assert m / 10 == a * 10 + b / 100;
    assert m % 10 == (b / 10) % 10;
    var k := m / 10;
    assert k / 10 == a;
    assert k % 10 == b / 100;
    calc {
      NatToString(n);
      NatToString(m) + [DigitChar(b % 10)];
      NatToString(k) + [DigitChar((b / 10) % 10)] + [DigitChar(b % 10)];
      NatToString(a) + [DigitChar(b / 100)] + [DigitChar((b / 10) % 10)] + [DigitChar(b % 10)];
      NatToString(a) + Pad3(b);
    }
  }

  /** Integer part with a comma between thousands groups: "1,500". */
  function Grouped(n: nat): (s: string)
    ensures 1 <= |s|
    decreases n
  {
    if n < 1000 then NatToString(n) else Grouped(n / 1000) + "," + Pad3(n % 1000)
  }

  /** The separators are the only thing grouping adds: removing the commas
      gives back the plain decimal rendering. */
  lemma {:induction false} GroupedWithoutCommas(n: nat)
    ensures Without(Grouped(n), ',') == NatToString(n)
    decreases n
  {
    var t := NatToString(n);
    if n < 1000 {
      DigitsExclude(t, ',');
      WithoutAbsent(t, ',');
    } else {
      var p := Pad3(n % 1000);
      GroupedWithoutCommas(n / 1000);
      WithoutAppend(Grouped(n / 1000) + ",", p, ',');
      WithoutAppend(Grouped(n / 1000), ",", ',');
      assert Without(",", ',') == "";
      DigitsExclude(p, ',');
      WithoutAbsent(p, ',');
      NatToStringThousands(n / 1000, n % 1000);
    }
  }

  /** A two-place Decimal as Python's `str()` prints it: "1500.00". */
  function Decimal2(h: nat): string {
    NatToString(h / 100) + "." + Pad2(h % 100)
  }

  /** A two-place amount with thousands separators: "1,500.00". */
  function GroupedDecimal2(h: nat): string {
    Grouped(h / 100) + "." + Pad2(h % 100)
  }

  /** Reading a plain two-place rendering back: the digits on either side of
      the point are the amount in hundredths. */
  lemma Decimal2ReadsBack(h: nat)
    ensures AllDigits(NatToString(h / 100) + Pad2(h % 100))
    ensures Decimal2(h) == NatToString(h / 100) + "." + Pad2(h % 100)
    ensures DigitsValue(NatToString(h / 100) + Pad2(h % 100)) == h
  {
    DigitsValueAppendTwo(NatToString(h / 100), Pad2(h % 100));
    DigitsValueOfNatToString(h / 100);
    DigitsValueOfPad2(h % 100);
  }

  /** Reading a grouped rendering back: dropping the separators leaves the
      plain rendering, so the shown figure is the amount. */
  lemma GroupedDecimal2ReadsBack(h: nat)
    ensures Without(GroupedDecimal2(h), ',') == Decimal2(h)
  {
    var p := Pad2(h % 100);
    WithoutAppend(Grouped(h / 100) + ".", p, ',');
    WithoutAppend(Grouped(h / 100), ".", ',');
    GroupedWithoutCommas(h / 100);
    DigitsExclude(p, ',');
    WithoutAbsent(p, ',');
    assert Without(".", ',') == ".";
  }

  // ---------------------------------------------------------------------
  // Whitespace trimming

  /** Which language's notion of whitespace a trim uses. */
  datatype Spaces = PythonSpaces | JavaScriptSpaces

  /** The space separators (Unicode category Zs) above Latin-1. */
  predicate IsWideSpaceSeparator(c: char) {
    c as int == 0x1680 || (0x2000 <= c as int <= 0x200A) || c as int == 0x202F
    || c as int == 0x205F || c as int == 0x3000
  }

  /** Whitespace for Python's `str.strip()` (the characters `isspace()`
      accepts: ASCII controls 9-13 and 28-31, space, NEL, no-break space,
      the space separators, line and paragraph separators) and for
      JavaScript's `String.prototype.trim()` (tab, line feed, vertical tab,
      form feed, carriage return, space, no-break space, byte-order mark,
      the space separators, line and paragraph separators). */
  predicate IsSpace(kind: Spaces, c: char) {
    match kind
    case PythonSpaces =>
      (9 <= c as int <= 13) || (28 <= c as int <= 32) || c as int == 0x85 || c as int == 0xA0
      || IsWideSpaceSeparator(c) || c as int == 0x2028 || c as int == 0x2029
    case JavaScriptSpaces =>
      (9 <= c as int <= 13) || c == ' ' || c as int == 0xA0 || c as int == 0xFEFF
      || IsWideSpaceSeparator(c) || c as int == 0x2028 || c as int == 0x2029
  }

  function TrimLeft(s: string, kind: Spaces): (r: string)
    ensures |r| <= |s|
    decreases |s|
  {
    if |s| > 0 && IsSpace(kind, s[0]) then TrimLeft(s[1..], kind) else s
  }

  function TrimRight(s: string, kind: Spaces): (r: string)
    ensures |r| <= |s|
    decreases |s|
  {
    if |s| > 0 && IsSpace(kind, s[|s| - 1]) then TrimRight(s[..|s| - 1], kind) else s
  }

  /** Trimming only ever removes characters: every character left was in the
      input. */
  lemma {:induction false} TrimLeftKeeps(s: string, kind: Spaces)
    ensures forall c :: c in TrimLeft(s, kind) ==> c in s
    decreases |s|
  {
    if |s| > 0 && IsSpace(kind, s[0]) {
      TrimLeftKeeps(s[1..], kind);
    }
  }

  lemma {:induction false} TrimRightKeeps(s: string, kind: Spaces)
    ensures forall c :: c in TrimRight(s, kind) ==> c in s
    decreases |s|
  {
    if |s| > 0 && IsSpace(kind, s[|s| - 1]) {
      TrimRightKeeps(s[..|s| - 1], kind);
    }
  }

  /** Both-ends trimming, as `strip()` / `trim()` do. */
  function Trim(s: string, kind: Spaces): string {
    TrimRight(TrimLeft(s, kind), kind)
  }

  /** A string whose end characters are not whitespace is its own trim. */
  lemma TrimSolid(s: string, kind: Spaces)
    requires |s| > 0 ==> !IsSpace(kind, s[0]) && !IsSpace(kind, s[|s| - 1])
    ensures Trim(s, kind) == s
  {
  }

  /** Trailing whitespace after a solid string is trimmed away. */
  lemma TrimDropsTrailing(s: string, kind: Spaces, c: char)
    requires |s| > 0 && !IsSpace(kind, s[0]) && !IsSpace(kind, s[|s| - 1]) && IsSpace(kind, c)
    ensures Trim(s + [c], kind) == s
  {
    var t := s + [c];
    assert t[0] == s[0];
    assert TrimLeft(t, kind) == t;
    assert t[..|t| - 1] == s;
    assert t[|t| - 1] == c;
    assert TrimRight(s, kind) == s;
    assert TrimRight(t, kind) == TrimRight(t[..|t| - 1], kind);
  }

  // ---------------------------------------------------------------------
  // Python int()

  /** Digits with single underscores between them, as `int()` accepts. */
  predicate DigitRun(s: string) {
    && |s| > 0
    && IsDigit(s[0]) && IsDigit(s[|s| - 1])
    && (forall i :: 0 <= i < |s| ==> IsDigit(s[i]) || s[i] == '_')
    && (forall i :: 0 <= i < |s| - 1 ==> !(s[i] == '_' && s[i + 1] == '_'))
  }

  lemma DigitsWithoutUnderscores(s: string)
    requires forall i :: 0 <= i < |s| ==> IsDigit(s[i]) || s[i] == '_'
    ensures AllDigits(Without(s, '_'))
    decreases |s|
  {
    if |s| > 0 {
      DigitsWithoutUnderscores(s[1..]);
    }
  }

  /** The digits after the optional sign, or `None` when they are not a
      digit run. */
  function DigitRunValue(body: string): (r: Option<nat>)
  {
    if !DigitRun(body) then None
    else
      DigitsWithoutUnderscores(body);
      Some(DigitsValue(Without(body, '_')))
  }

  /** A stripped numeral: one optional sign, then a digit run. */
  function SignedValue(t: string): (r: Option<int>)
  {
    var signed := |t| > 0 && (t[0] == '+' || t[0] == '-');
    match DigitRunValue(if signed then t[1..] else t)
    case None => None
    case Some(m) => Some(if signed && t[0] == '-' then -(m as int) else m as int)
  }

  /** Python `int(s)` for a base-10 string: surrounding whitespace is
      stripped, one optional sign, then a digit run. `None` stands for the
      `ValueError` raised on anything else. */
  function PyInt(s: string): (r: Option<int>)
  {
    SignedValue(Trim(s, PythonSpaces))
  }

  lemma DigitRunValueOfNatToString(n: nat)
    ensures DigitRunValue(NatToString(n)) == Some(n)
  {
    var s := NatToString(n);
    assert DigitRun(s);
    DigitsExclude(s, '_');
    WithoutAbsent(s, '_');
    DigitsValueOfNatToString(n);
  }

  /** `int(str(n)) == n`. */
  lemma PyIntOfNatToString(n: nat)
    ensures PyInt(NatToString(n)) == Some(n)
  {
    var s := NatToString(n);
    assert IsDigit(s[0]) && IsDigit(s[|s| - 1]);
    TrimSolid(s, PythonSpaces);
    assert Trim(s, PythonSpaces) == s;
    DigitRunValueOfNatToString(n);
  }

  /** `int('-' + str(n)) == -n`. */
  lemma PyIntOfNegative(n: nat)
    ensures PyInt("-" + NatToString(n)) == Some(-(n as int))
  {
    var d := NatToString(n);
    var s := "-" + d;
    assert IsDigit(d[|d| - 1]) && s[|s| - 1] == d[|d| - 1];
    TrimSolid(s, PythonSpaces);
    assert Trim(s, PythonSpaces) == s;
    assert s[1..] == d;
    DigitRunValueOfNatToString(n);
  }

  /** A string with no digit at all is rejected by `int()`. */
  lemma PyIntRejectsDigitless(s: string)
    requires forall i :: 0 <= i < |s| ==> !IsDigit(s[i])
    ensures PyInt(s) == None
  {
    var l := TrimLeft(s, PythonSpaces);
    var t := TrimRight(l, PythonSpaces);
    TrimLeftKeeps(s, PythonSpaces);
    TrimRightKeeps(l, PythonSpaces);
    assert forall i :: 0 <= i < |t| ==> !IsDigit(t[i]) by {
      forall i | 0 <= i < |t| ensures !IsDigit(t[i]) {
        assert t[i] in l;
        assert t[i] in s;
      }
    }
    var signed := |t| > 0 && (t[0] == '+' || t[0] == '-');
    var body := if signed then t[1..] else t;
    assert forall i :: 0 <= i < |body| ==> !IsDigit(body[i]) by {
      forall i | 0 <= i < |body| ensures !IsDigit(body[i]) {
        if signed {
          assert body[i] == t[i + 1];
        }
      }
    }
    assert !DigitRun(body);
  }
}
