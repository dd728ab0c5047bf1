/** The site-wide script: the basket badge, the add-to-basket toast text,
    and the quantity buttons of the basket page. The DOM, `fetch` and the
    form submission are left to the page; each handler is modelled as the
    value it computes from the strings and numbers it reads. */
module MainScript {
  import opened Values
  import opened Text

  // ---------------------------------------------------------------------
  // JavaScript integers as text

  /** `String(n)` for an integer. */
  function JsIntText(n: int): string {
    if n < 0 then "-" + NatToString(-n) else NatToString(n)
  }

  predicate IsHexDigit(c: char) {
    IsDigit(c) || ('a' <= c <= 'f') || ('A' <= c <= 'F')
  }

  function HexDigitValue(c: char): (d: nat)
    requires IsHexDigit(c)
    ensures d < 16
  {
    if IsDigit(c) then DigitValue(c)
    else if 'a' <= c <= 'f' then c as int - 'a' as int + 10
    else c as int - 'A' as int + 10
  }

  /** A digit of the radix `parseInt` picked: hexadecimal after a `0x`
      prefix, decimal otherwise. */
  predicate InRadix(c: char, hex: bool) {
    if hex then IsHexDigit(c) else IsDigit(c)
  }

  predicate AllInRadix(s: string, hex: bool) {
    forall i :: 0 <= i < |s| ==> InRadix(s[i], hex)
  }

  function HexValue(s: string): nat
    requires AllInRadix(s, true)
    decreases |s|
  {
    if |s| == 0 then 0 else HexValue(s[..|s| - 1]) * 16 + HexDigitValue(s[|s| - 1])
  }

  /** The longest prefix of digits of the radix. */
  function RadixPrefix(s: string, hex: bool): (r: string)
    ensures |r| <= |s| && r == s[..|r|]
    ensures AllInRadix(r, hex)
    ensures |r| < |s| ==> !InRadix(s[|r|], hex)
    decreases |s|
  {
    if |s| > 0 && InRadix(s[0], hex) then
      var rest := RadixPrefix(s[1..], hex);
      assert s[1..][..|rest|] == s[1..|rest| + 1];
      [s[0]] + rest
    else []
  }

  /** A string made of digits of the radix is its own longest prefix. */
  lemma RadixPrefixWhole(s: string, t: string, hex: bool)
    requires AllInRadix(s, hex)
    requires |t| == 0 || !InRadix(t[0], hex)
    ensures RadixPrefix(s + t, hex) == s
  {
    var u := s + t;
    var r := RadixPrefix(u, hex);
    assert forall i :: 0 <= i < |s| ==> u[i] == s[i];
    assert |t| > 0 ==> u[|s|] == t[0];
    assert |r| == |s|;
    assert u[..|s|] == s;
  }

  /** `parseInt(s)` with no radix: leading whitespace is skipped, then one
      optional sign, then a `0x`/`0X` prefix selects hexadecimal; the
      longest run of digits that follows is read and the rest ignored.
      `None` is `NaN`, returned when that run is empty. */
  function JsParseInt(s: string): Option<int> {
    var t := TrimLeft(s, JavaScriptSpaces);
    var signed := |t| > 0 && (t[0] == '-' || t[0] == '+');
    var body := if signed then t[1..] else t;
    var hex := |body| >= 2 && body[0] == '0' && (body[1] == 'x' || body[1] == 'X');
    var digits := RadixPrefix(if hex then body[2..] else body, hex);
    if digits == [] then None
    else
      var m := (if hex then HexValue(digits) else DigitsValue(digits)) as int;
      Some(if signed && t[0] == '-' then -m else m)
  }

  /** A body that opens with a decimal digit and no `0x` prefix. */
  predicate DecimalBody(body: string) {
    |body| > 0 && IsDigit(body[0]) && !(|body| >= 2 && body[0] == '0' && (body[1] == 'x' || body[1] == 'X'))
  }

  /** An unsigned decimal body is read as its leading digits. */
  lemma JsParseIntUnsigned(body: string, d: string)
    requires DecimalBody(body) && RadixPrefix(body, false) == d
    ensures d != [] && JsParseInt(body) == Some(DigitsValue(d))
  {
    assert TrimLeft(body, JavaScriptSpaces) == body;
  }

  /** A minus sign before a decimal body negates what it reads as. */
  lemma JsParseIntNegated(body: string, d: string)
    requires DecimalBody(body) && RadixPrefix(body, false) == d
    ensures d != [] && JsParseInt("-" + body) == Some(-(DigitsValue(d) as int))
  {
    var s := "-" + body;
    assert s[0] == '-' && s[1..] == body;
    assert TrimLeft(s, JavaScriptSpaces) == s;
  }

  /** The decimal rendering of a natural number, followed by anything that
      does not continue it, is a decimal body whose leading digits are that
      rendering. */
  lemma NatToStringBody(n: nat, t: string)
    requires |t| == 0 || !IsDigit(t[0])
    requires n == 0 && |t| > 0 ==> t[0] != 'x' && t[0] != 'X'
    ensures DecimalBody(NatToString(n) + t)
    ensures RadixPrefix(NatToString(n) + t, false) == NatToString(n)
  {
    var d := NatToString(n);
    var s := d + t;
    assert s[0] == d[0];
    assert |d| == 1 && |t| > 0 ==> s[1] == t[0];
    RadixPrefixWhole(d, t, false);
  }

  /** `parseInt` reads back the decimal rendering of a natural number, and
      stops at the first character after it that is not a digit (unless
      that would turn a lone "0" into a `0x` prefix). */
  lemma JsParseIntOfNatToString(n: nat, t: string)
    requires |t| == 0 || !IsDigit(t[0])
    requires n == 0 && |t| > 0 ==> t[0] != 'x' && t[0] != 'X'
    ensures JsParseInt(NatToString(n) + t) == Some(n)
  {
    NatToStringBody(n, t);
    JsParseIntUnsigned(NatToString(n) + t, NatToString(n));
    DigitsValueOfNatToString(n);
  }

  /** `parseInt(String(n)) === n` for every integer. */
  lemma JsParseIntOfIntText(n: int)
    ensures JsParseInt(JsIntText(n)) == Some(n)
  {
    var d := NatToString(if n < 0 then -n else n);
    NatToStringBody(if n < 0 then -n else n, "");
    assert d + "" == d;
    DigitsValueOfNatToString(if n < 0 then -n else n);
    if n >= 0 {
      JsParseIntUnsigned(d, d);
    } else {
      JsParseIntNegated(d, d);
    }
  }

  // ---------------------------------------------------------------------
  // Basket badge

  /** The `count` field of the badge endpoint's JSON: a number, or any
      other JSON value shown as its text. */
  datatype JsonCount = CountNumber(n: int) | CountOther(text: string)

  datatype Badge = Badge(text: string, shown: bool)

  /** `updateBasketCount`: the badge shows the count as text and is hidden
      exactly when the count is `=== 0`, so a string "0" stays visible. */
  function BadgeFor(c: JsonCount): (b: Badge)
    ensures !b.shown <==> c == CountNumber(0)
  {
    match c
    case CountNumber(n) => Badge(JsIntText(n), n != 0)
    case CountOther(t) => Badge(t, true)
  }

  /** A numeric count is shown as text that reads back as the count. */
  lemma BadgeShowsCount(n: int)
    ensures JsParseInt(BadgeFor(CountNumber(n)).text) == Some(n)
    ensures BadgeFor(CountNumber(n)).shown <==> n != 0
  {
    JsParseIntOfIntText(n);
  }

  // ---------------------------------------------------------------------
  // Toast message

  /** The `price` argument of `buildToastMessage`. Numbers are held in
      hundredths. */
  datatype JsPrice = Undefined | Null | NotANumber | Number(hundredths: int) | Text(s: string)

  /** `price || price === 0`: a number (zero included) or a non-empty
      string. */
  predicate PriceGuard(p: JsPrice) {
    p.Number? || (p.Text? && p.s != "")
  }

  /** `Number(price)` after the guard; `None` is `NaN`. How a string
      converts is the `numberOf` parameter. */
  function NumberOf(p: JsPrice, numberOf: string -> Option<int>): Option<int> {
    match p
    case Number(h) => Some(h)
    case Text(s) => numberOf(s)
    case _ => None
  }

  /** The em dash that opens the price part. */
  const PriceLead: string := "\U{2014} $"

  /** The price part: an em dash, a dollar sign and the number formatted
      by `format` (two fraction digits, locale grouping), or nothing. */
  function PricePart(p: JsPrice, numberOf: string -> Option<int>, format: int -> string): string {
    if PriceGuard(p) then
      match NumberOf(p, numberOf)
      case Some(n) => PriceLead + format(n)
      case None => ""
    else ""
  }

  /** The price is shown exactly when it is a number, zero included, or a
      non-empty string that converts; it is then the lead followed by the
      formatted number. */
  lemma PricePartShown(p: JsPrice, numberOf: string -> Option<int>, format: int -> string)
    ensures PricePart(p, numberOf, format) != "" <==>
      p.Number? || (p.Text? && p.s != "" && numberOf(p.s).Some?)
    ensures p == Number(0) ==> PricePart(p, numberOf, format) == PriceLead + format(0)
    ensures p.Number? || (p.Text? && p.s != "" && numberOf(p.s).Some?) ==>
      (var pp := PricePart(p, numberOf, format);
       StartsWith(pp, PriceLead) && pp[|PriceLead|..] == format(NumberOf(p, numberOf).value))
  {
    if p.Number? || (p.Text? && p.s != "" && numberOf(p.s).Some?) {
      var pp := PricePart(p, numberOf, format);
      assert pp == PriceLead + format(NumberOf(p, numberOf).value);
      assert pp[..|PriceLead|] == PriceLead;
    }
  }

  /** `'${title}'` */
  function Quoted(title: string): string {
    "'" + title + "'"
  }

  /** `(${variantLabel})` */
  function Bracketed(name: string): string {
    "(" + name + ")"
  }

  /** The parts pushed for a truthy title and a truthy variant label. */
  function Parts(title: Option<string>, variant: Option<string>): seq<string> {
    (if TruthyText(title) then [Quoted(title.value)] else [])
      + (if TruthyText(variant) then [Bracketed(variant.value)] else [])
  }

  /** `parts.join(sep)` */
  function Join(parts: seq<string>, sep: string): string
    decreases |parts|
  {
    if |parts| == 0 then ""
    else if |parts| == 1 then parts[0]
    else parts[0] + sep + Join(parts[1..], sep)
  }

  /** `buildToastMessage(title, variantLabel, price, action)`; an undefined
      action is 'Added'. */
  function BuildToastMessage(title: Option<string>, variant: Option<string>, price: JsPrice, action: Option<string>,
                             numberOf: string -> Option<int>, format: int -> string): string
  {
    var act := action.GetOr("Added");
    var main := Join(Parts(title, variant), " ");
    if main != "" then Trim(act + " " + main + " " + PricePart(price, numberOf, format), JavaScriptSpaces)
    else act
  }

  /** With neither a title nor a variant label the toast is the action
      word alone, whatever the price. */
  lemma ToastWithoutLabels(title: Option<string>, variant: Option<string>, price: JsPrice, action: Option<string>,
                           numberOf: string -> Option<int>, format: int -> string)
    requires !TruthyText(title) && !TruthyText(variant)
    ensures BuildToastMessage(title, variant, price, action, numberOf, format) == action.GetOr("Added")
  {
    assert Parts(title, variant) == [];
  }

  /** The label the toast names: the quoted title, the bracketed variant
      label, or both separated by one space. */
  function Label(title: Option<string>, variant: Option<string>): string {
    if TruthyText(title) && TruthyText(variant) then Quoted(title.value) + " " + Bracketed(variant.value)
    else if TruthyText(title) then Quoted(title.value)
    else if TruthyText(variant) then Bracketed(variant.value)
    else ""
  }

  /** For an action word without surrounding whitespace, the toast is the
      action, one space and the label, then one space and the price part
      when there is one. */
  lemma ToastLayout(title: Option<string>, variant: Option<string>, price: JsPrice, action: Option<string>,
                    numberOf: string -> Option<int>, format: int -> string)
    requires TruthyText(title) || TruthyText(variant)
    requires var act := action.GetOr("Added");
      |act| > 0 && !IsSpace(JavaScriptSpaces, act[0])
    requires var pp := PricePart(price, numberOf, format);
      pp == "" || !IsSpace(JavaScriptSpaces, pp[|pp| - 1])
    ensures var act := action.GetOr("Added");
      var pp := PricePart(price, numberOf, format);
      BuildToastMessage(title, variant, price, action, numberOf, format)
        == if pp == "" then act + " " + Label(title, variant) else act + " " + Label(title, variant) + " " + pp
  {
    var act := action.GetOr("Added");
    var pp := PricePart(price, numberOf, format);
    var shown := Label(title, variant);
    var parts := Parts(title, variant);
    if TruthyText(title) && TruthyText(variant) {
      assert parts[1..] == [Bracketed(variant.value)];
    }
    assert Join(parts, " ") == shown;
    assert shown[|shown| - 1] == '\'' || shown[|shown| - 1] == ')';
    var s := act + " " + shown;
    assert s[0] == act[0] && s[|s| - 1] == shown[|shown| - 1];
    if pp == "" {
      assert act + " " + shown + " " + pp == s + [' '];
      TrimDropsTrailing(s, JavaScriptSpaces, ' ');
    } else {
      var u := act + " " + shown + " " + pp;
      assert u[0] == act[0] && u[|u| - 1] == pp[|pp| - 1];
      TrimSolid(u, JavaScriptSpaces);
    }
  }

  // ---------------------------------------------------------------------
  // Quantity buttons

  /** What a button does to the quantity input: nothing, or set it and
      submit the form. */
  datatype QuantityStep = Unchanged | Submit(value: int)

  /** `parseInt(input.value) || 0`: `NaN` and zero both give 0. */
  function CurrentQuantity(value: string): int {
    JsParseInt(value).GetOr(0)
  }

  const DefaultMax: int := 9999

  /** `parseInt(input.max) || 9999`: a missing, unparsable or zero maximum
      gives 9999. */
  function MaxQuantity(max: string): (m: int)
    ensures JsParseInt(max).None? || JsParseInt(max) == Some(0) ==> m == DefaultMax
    ensures JsParseInt(max).Some? && JsParseInt(max) != Some(0) ==> m == JsParseInt(max).value
  {
    var p := JsParseInt(max);
    if p.Some? && p.value != 0 then p.value else DefaultMax
  }

  /** `incrementQuantity`: one more, and only below the maximum. */
  function Increment(value: string, max: string): (r: QuantityStep)
    ensures r.Submit? <==> CurrentQuantity(value) < MaxQuantity(max)
    ensures r.Submit? ==> r.value == CurrentQuantity(value) + 1 && r.value <= MaxQuantity(max)
  {
    var current := CurrentQuantity(value);
    if current < MaxQuantity(max) then Submit(current + 1) else Unchanged
  }

  /** `decrementQuantity`: one less above 1; at 1 the item is removed
      (quantity 0) only when the user confirms; below 1 nothing happens.
      The result is never negative. */
  function Decrement(value: string, confirmed: bool): (r: QuantityStep)
    ensures r.Submit? <==> CurrentQuantity(value) > 1 || (CurrentQuantity(value) == 1 && confirmed)
    ensures r.Submit? ==> r.value == CurrentQuantity(value) - 1 && r.value >= 0
  {
    var current := CurrentQuantity(value);
    if current > 1 then Submit(current - 1)
    else if current == 1 then (if confirmed then Submit(0) else Unchanged)
    else Unchanged
  }

  /** Pressing minus after plus restores the quantity the input had, once
      the incremented value is above 1 (no confirmation is asked). */
  lemma IncrementThenDecrement(value: string, max: string, confirmed: bool)
    requires Increment(value, max).Submit?
    requires Increment(value, max).value > 1
    ensures Decrement(JsIntText(Increment(value, max).value), confirmed) == Submit(CurrentQuantity(value))
  {
    JsParseIntOfIntText(Increment(value, max).value);
  }

  /** An input holding a rendered quantity below the maximum goes up by
      exactly one, and at the maximum it stays. */
  lemma IncrementRendered(n: int, max: string)
    ensures Increment(JsIntText(n), max) == if n < MaxQuantity(max) then Submit(n + 1) else Unchanged
  {
    JsParseIntOfIntText(n);
  }
}
