/** The colour-scheme toggle: thirteen scheme stylesheets, a cycle button
    that moves the scheme link to the stylesheet after the current one, a
    setter by file name, and the saved choice restored on page load. The
    link element, `window.STATIC_URL` and `localStorage` become parameters
    and results. */
module Theme {
  import opened Values
  import opened Text

  /** The file name of scheme `n`. */
  function SchemeName(n: nat): string {
    "Scheme-" + NatToString(n) + ".css"
  }

  /** The stylesheet path of scheme `n`: `css/Scheme-<n>.css`. */
  function SchemePath(n: nat): string {
    "css/" + SchemeName(n)
  }

  /** The paths of the `count` schemes numbered from `first`. */
  function SchemeRange(first: nat, count: nat): (r: seq<string>)
    ensures |r| == count
    ensures forall i :: 0 <= i < count ==> r[i] == SchemePath(first + i)
    decreases count
  {
    if count == 0 then [] else [SchemePath(first)] + SchemeRange(first + 1, count - 1)
  }

  /** The list as first declared: schemes 1 to 8. */
  const DeclaredSchemes: seq<string> := SchemeRange(1, 8)

  /** The five stylesheets pushed afterwards: schemes 9 to 13. */
  const PushedSchemes: seq<string> := SchemeRange(9, 5)

  const Schemes: seq<string> := DeclaredSchemes + PushedSchemes

  /** The list holds, in order, `css/Scheme-1.css` to `css/Scheme-13.css`. */
  lemma SchemeAt(i: nat)
    requires i < 13
    ensures |Schemes| == 13 && Schemes[i] == SchemePath(i + 1)
  {
    if i < 8 {
      assert Schemes[i] == DeclaredSchemes[i];
    } else {
      assert Schemes[i] == PushedSchemes[i - 8];
    }
  }

  /** `list.findIndex(s => s.endsWith(suffix))`: the first entry ending
      with `suffix`, or -1. */
  function FindIndex(ss: seq<string>, suffix: string): (r: int)
    ensures -1 <= r < |ss|
    ensures r == -1 <==> forall i :: 0 <= i < |ss| ==> !EndsWith(ss[i], suffix)
    ensures r >= 0 ==> EndsWith(ss[r], suffix) && forall i :: 0 <= i < r ==> !EndsWith(ss[i], suffix)
    decreases |ss|
  {
    if |ss| == 0 then -1
    else if EndsWith(ss[0], suffix) then 0
    else
      var r := FindIndex(ss[1..], suffix);
      if r == -1 then -1 else r + 1
  }

  /** What the character at position `i` of `css/Scheme-<x>.css` can be:
      a digit inside `x`, and never a hyphen in "heme". */
  lemma PathChars(x: string, i: int)
    requires AllDigits(x)
    ensures var h := "css/" + ("Scheme-" + x + ".css");
      && (6 <= i <= 9 ==> h[i] != '-')
      && h[10] == '-'
      && (11 <= i < 11 + |x| ==> IsDigit(h[i]) && h[i] == x[i - 11])
  {
    var p := "Scheme-" + x + ".css";
    var h := "css/" + p;
    assert h[6] == 'h' && h[7] == 'e' && h[8] == 'm' && h[9] == 'e' && h[10] == '-';
    if 11 <= i < 11 + |x| {
      assert h[i] == p[i - 4] == ("Scheme-" + x)[i - 4];
    }
  }

  /** A scheme path ends with a scheme file name exactly when the numbers
      agree: "Scheme-1.css" is not a suffix of "css/Scheme-11.css". */
  lemma {:induction false} PathEndsWithName(x: string, y: string)
    requires AllDigits(x) && AllDigits(y)
    ensures EndsWith("css/" + ("Scheme-" + x + ".css"), "Scheme-" + y + ".css") <==> x == y
  {
    var h := "css/" + ("Scheme-" + x + ".css");
    var p := "Scheme-" + y + ".css";
    if x == y {
      assert h[|h| - |p|..] == p;
    }
    if EndsWith(h, p) {
      var off := |h| - |p|;
      assert h[off..] == p;
      assert p[6] == '-';
      assert h[off + 6] == p[6];
      PathChars(x, off + 6);
      assert off == 4;
      forall t | 0 <= t < |y| ensures x[t] == y[t] {
        assert p[7 + t] == y[t];
        assert h[11 + t] == p[7 + t];
        PathChars(x, 11 + t);
      }
    }
  }

  lemma NatToStringInjective(a: nat, b: nat)
    requires NatToString(a) == NatToString(b)
    ensures a == b
  {
    DigitsValueOfNatToString(a);
    DigitsValueOfNatToString(b);
  }

  /** Entry `i` of the list ends with scheme `n`'s file name exactly when
      it is scheme `n`'s entry. */
  lemma EntryEndsWithName(i: nat, n: nat)
    requires i < 13
    ensures EndsWith(Schemes[i], SchemeName(n)) <==> i == n - 1
  {
    SchemeAt(i);
    var x, y := NatToString(i + 1), NatToString(n);
    PathEndsWithName(x, y);
    if x == y {
      NatToStringInjective(i + 1, n);
    }
  }

  /** Scheme `n` is listed at index `n - 1` and nowhere else; a number
      outside 1..13 is not found. */
  lemma FindSchemeName(n: nat)
    ensures FindIndex(Schemes, SchemeName(n)) == if 1 <= n <= 13 then n - 1 else -1
  {
    SchemeAt(0);
    forall i | 0 <= i < 13 ensures EndsWith(Schemes[i], SchemeName(n)) <==> i == n - 1 {
      EntryEndsWithName(i, n);
    }
    var r := FindIndex(Schemes, SchemeName(n));
    if 1 <= n <= 13 {
      assert EndsWith(Schemes[n - 1], SchemeName(n));
    }
  }

  /** `window.STATIC_URL ? STATIC_URL : '/static/'`. */
  function StaticBase(staticUrl: Option<string>): string {
    if TruthyText(staticUrl) then staticUrl.value else "/static/"
  }

  /** What a scheme change writes: the link's new `href` and the value
      saved under the storage key. */
  datatype Applied = Applied(href: string, stored: string)

  /** The index `cycleScheme` moves to: `(idx + 1) % SCHEMES.length`, so an
      unrecognised scheme (-1) moves to the first. */
  function NextSchemeIndex(idx: int, count: nat): (r: int)
    requires 0 < count && -1 <= idx < count
    ensures 0 <= r < count
    ensures r == if idx == count - 1 then 0 else idx + 1
  {
    (idx + 1) % count
  }

  /** `cycleScheme()`: the last path segment of the current `href` (or of
      '' when there is none) selects the scheme; the next one is applied
      and saved. Without the link element nothing happens. */
  function CycleScheme(linkHref: Option<string>, hasLink: bool, staticUrl: Option<string>): (r: Option<Applied>)
    ensures r.Some? <==> hasLink
    ensures r.Some? ==> r.value.href == StaticBase(staticUrl) + r.value.stored && r.value.stored in Schemes
  {
    if !hasLink then None
    else
      var current := LastSegment(TextOr(linkHref, ""));
      SchemeAt(0);
      var k := NextSchemeIndex(FindIndex(Schemes, current), |Schemes|);
      var next := Schemes[k];
      assert next in Schemes;
      Some(Applied(StaticBase(staticUrl) + next, next))
  }

  /** The last segment of a path ending in `<dir>/name` is `name`. */
  lemma {:induction false} LastSegmentAfterSlash(prefix: string, dir: string, name: string)
    requires |dir| > 0 && dir[|dir| - 1] == '/' && '/' !in name
    ensures LastSegment(prefix + (dir + name)) == name
    decreases |name|
  {
    var s := prefix + (dir + name);
    if |name| == 0 {
      assert s[|s| - 1] == '/';
    } else {
      var init, last := name[..|name| - 1], name[|name| - 1];
      assert s[..|s| - 1] == prefix + (dir + init);
      assert s[|s| - 1] == last && last in name;
      assert forall c :: c in init ==> c in name;
      LastSegmentAfterSlash(prefix, dir, init);
      assert LastSegment(s) == LastSegment(prefix + (dir + init)) + [last];
      assert init + [last] == name;
    }
  }

  /** A link whose last segment is found at index `i` moves to the entry
      after it. */
  lemma CycleFromFound(href: string, i: int, staticUrl: Option<string>)
    requires -1 <= i < 13 && FindIndex(Schemes, LastSegment(href)) == i
    ensures CycleScheme(Some(href), true, staticUrl)
         == Some(Applied(StaticBase(staticUrl) + Schemes[NextSchemeIndex(i, 13)], Schemes[NextSchemeIndex(i, 13)]))
  {
    SchemeAt(0);
    assert TextOr(Some(href), "") == href;
  }

  /** From a link on scheme `n` (under any prefix) the cycle applies and
      saves scheme `n + 1`, and scheme 13 wraps to scheme 1. */
  lemma CycleFromScheme(prefix: string, n: nat, staticUrl: Option<string>)
    requires 1 <= n <= 13
    ensures CycleScheme(Some(prefix + SchemePath(n)), true, staticUrl)
         == Some(Applied(StaticBase(staticUrl) + Schemes[n % 13], Schemes[n % 13]))
  {
    var name := SchemeName(n);
    assert '/' !in name;
    LastSegmentAfterSlash(prefix, "css/", name);
    FindSchemeName(n);
    CycleFromFound(prefix + SchemePath(n), n - 1, staticUrl);
    assert NextSchemeIndex(n - 1, 13) == n % 13;
  }

  /** A link whose last segment names no scheme moves to the first scheme;
      a link with no `href` at all moves to the second, because every entry
      ends with the empty string. */
  lemma CycleFallbacks(linkHref: Option<string>, staticUrl: Option<string>)
    ensures var current := LastSegment(TextOr(linkHref, ""));
      FindIndex(Schemes, current) == -1 ==>
        CycleScheme(linkHref, true, staticUrl).value.stored == Schemes[0]
    ensures !TruthyText(linkHref) ==> CycleScheme(linkHref, true, staticUrl).value.stored == Schemes[1]
  {
    if !TruthyText(linkHref) {
      assert EndsWith(Schemes[0], "");
    }
  }

  /** A press on the link of the scheme at index `m` applies the scheme at
      the next index, wrapping after the last. */
  lemma PressFromIndex(m: nat, staticUrl: Option<string>)
    requires m < 13
    ensures CycleScheme(Some(StaticBase(staticUrl) + Schemes[m]), true, staticUrl)
         == Some(Applied(StaticBase(staticUrl) + Schemes[(m + 1) % 13], Schemes[(m + 1) % 13]))
  {
    SchemeAt(m);
    CycleFromScheme(StaticBase(staticUrl), m + 1, staticUrl);
  }

  /** One press of the cycle button, as a function of the link's `href`. */
  function PressOn(staticUrl: Option<string>): string -> Applied {
    (href: string) => CycleScheme(Some(href), true, staticUrl).value
  }

  /** `k` presses of a button whose press maps the link's `href` to what it
      applies, on a link that starts at `start`. */
  function Iterate(press: string -> Applied, start: string, k: nat): Applied
    decreases k
  {
    if k == 0 then Applied(start, "") else press(Iterate(press, start, k - 1).href)
  }

  /** A press on the link of the entry at index `m` of a thirteen-entry
      list, under `base`, applies the entry at the next index. */
  predicate StepsThrough(press: string -> Applied, schemes: seq<string>, base: string) {
    && |schemes| == 13
    && forall m {:trigger press(base + schemes[m])} :: 0 <= m < 13 ==>
         press(base + schemes[m]) == Applied(base + schemes[(m + 1) % 13], schemes[(m + 1) % 13])
  }

  /** The cycle button steps through the thirteen schemes under its base. */
  lemma PressOnSteps(staticUrl: Option<string>)
    ensures StepsThrough(PressOn(staticUrl), Schemes, StaticBase(staticUrl))
  {
    SchemeAt(0);
    var base := StaticBase(staticUrl);
    forall m | 0 <= m < 13
      ensures PressOn(staticUrl)(base + Schemes[m]) == Applied(base + Schemes[(m + 1) % 13], Schemes[(m + 1) % 13])
    {
      PressFromIndex(m, staticUrl);
    }
  }

  lemma ModStep13(j: nat, n: nat)
    ensures ((j + n) % 13 + 1) % 13 == (j + n + 1) % 13
  {
  }

  /** From the entry at index `j`, `k` presses land on the entry at index
      `(j + k) mod 13`, and each press saves the entry it applies. */
  lemma {:induction false} IterateAdvance(press: string -> Applied, schemes: seq<string>, base: string, j: nat, k: nat)
    requires StepsThrough(press, schemes, base) && j < 13
    ensures Iterate(press, base + schemes[j], k).href == base + schemes[(j + k) % 13]
    ensures k > 0 ==> Iterate(press, base + schemes[j], k).stored == schemes[(j + k) % 13]
    decreases k
  {
    if k == 0 {
      assert (j + k) % 13 == j;
    } else {
      IterateAdvance(press, schemes, base, j, k - 1);
      var m := (j + (k - 1)) % 13;
      assert press(base + schemes[m]) == Applied(base + schemes[(m + 1) % 13], schemes[(m + 1) % 13]);
      ModStep13(j, k - 1);
    }
  }

  /** Thirteen presses of a button that steps through the list bring the
      link and the saved value back to the entry the link started on. */
  lemma IterateFullTurn(press: string -> Applied, schemes: seq<string>, base: string, j: nat)
    requires StepsThrough(press, schemes, base) && j < 13
    ensures Iterate(press, base + schemes[j], 13) == Applied(base + schemes[j], schemes[j])
  {
    IterateAdvance(press, schemes, base, j, 13);
    assert (j + 13) % 13 == j;
  }

  /** Thirteen presses of the cycle button bring the link and the saved
      value back to the scheme the link started on. */
  lemma FullCycle(j: nat, staticUrl: Option<string>)
    requires j < 13
    ensures Iterate(PressOn(staticUrl), StaticBase(staticUrl) + Schemes[j], 13)
         == Applied(StaticBase(staticUrl) + Schemes[j], Schemes[j])
  {
    PressOnSteps(staticUrl);
    IterateFullTurn(PressOn(staticUrl), Schemes, StaticBase(staticUrl), j);
  }

  /** `setSchemeByName(name)`: a name without the `css/` prefix gets it;
      the link points at the prefixed name under the static base, which is
      also what is saved. Without the link nothing is saved. */
  function SetSchemeByName(name: string, hasLink: bool, staticUrl: Option<string>): (r: Option<Applied>)
    ensures r.Some? <==> hasLink
    ensures r.Some? ==> StartsWith(r.value.stored, "css/") && r.value.href == StaticBase(staticUrl) + r.value.stored
    ensures r.Some? && StartsWith(name, "css/") ==> r.value.stored == name
    ensures r.Some? && !StartsWith(name, "css/") ==> r.value.stored == "css/" + name
  {
    var target := if StartsWith(name, "css/") then name else "css/" + name;
    assert StartsWith("css/" + name, "css/") by {
      assert ("css/" + name)[..4] == "css/";
    }
    if !hasLink then None else Some(Applied(StaticBase(staticUrl) + target, target))
  }

  /** Setting the saved name again changes nothing. */
  lemma SetSchemeIdempotent(name: string, staticUrl: Option<string>)
    ensures var r := SetSchemeByName(name, true, staticUrl).value;
      SetSchemeByName(r.stored, true, staticUrl) == Some(r)
  {
  }

  /** `applySavedOrDefault()`: a saved (truthy) value is loaded under the
      static base; otherwise the link keeps its `href`. */
  function ApplySavedOrDefault(saved: Option<string>, linkHref: Option<string>, staticUrl: Option<string>): (r: Option<string>)
    ensures TruthyText(saved) ==> r == Some(StaticBase(staticUrl) + saved.value)
    ensures !TruthyText(saved) ==> r == linkHref
  {
    if TruthyText(saved) then Some(StaticBase(staticUrl) + saved.value) else linkHref
  }

  /** Reloading the page restores the link the setter applied. */
  lemma SetThenReload(name: string, older: Option<string>, staticUrl: Option<string>)
    ensures var r := SetSchemeByName(name, true, staticUrl).value;
      ApplySavedOrDefault(Some(r.stored), older, staticUrl) == Some(r.href)
  {
    var r := SetSchemeByName(name, true, staticUrl).value;
    assert r.stored[..4] == "css/";
  }

  /** Reloading the page restores the link the cycle button applied. */
  lemma CycleThenReload(linkHref: Option<string>, older: Option<string>, staticUrl: Option<string>)
    ensures var r := CycleScheme(linkHref, true, staticUrl).value;
      ApplySavedOrDefault(Some(r.stored), older, staticUrl) == Some(r.href)
  {
    var r := CycleScheme(linkHref, true, staticUrl).value;
    var i :| 0 <= i < |Schemes| && Schemes[i] == r.stored;
    SchemeAt(i);
  }

  /** `applySchemeByHref(href)`: an absolute path is used as it is; any
      other value is wrapped in the text of a template tag, which a static
      script never has rendered. */
  function ApplySchemeByHref(href: string): (r: string)
    ensures StartsWith(href, "/") ==> r == href
    ensures !StartsWith(href, "/") ==> StartsWith(r, "{% static \"") && EndsWith(r, "\" %}")
  {
    if StartsWith(href, "/") then href
    else
      var r := "{% static \"" + href + "\" %}";
      assert r[..|"{% static \""|] == "{% static \"";
      assert r[|r| - |"\" %}"|..] == "\" %}";
      r
  }

  /** A leading slash is dropped; the second replacement of the source
      (`css/` by `css/`) changes nothing. */
  function Normalize(name: string): string {
    if |name| > 0 && name[0] == '/' then name[1..] else name
  }

  /** `getSchemeIndex(name)` as written: 0 for a falsy name, otherwise the
      `findIndex` result `|| 0` — and since -1 is truthy, an unknown name
      yields -1. */
  function GetSchemeIndex(name: Option<string>): (r: int)
    ensures -1 <= r < 13
  {
    if !TruthyText(name) then 0
    else
      var i := FindIndex(Schemes, Normalize(name.value));
      if i != 0 then i else 0
  }

  /** An unknown scheme name makes `getSchemeIndex` return -1, which is
      not an index of the list: "Scheme-99.css" is one. */
  lemma GetSchemeIndexUnknown()
    ensures GetSchemeIndex(Some(SchemeName(99))) == -1
  {
    SchemeNameStart(99);
    NormalizeSlash(SchemeName(99));
    FindSchemeName(99);
  }

  /** The evidently intended `getSchemeIndex`: an unknown name falls back
      to the first scheme like an empty one, so the result is always an
      index of the list. */
  function SchemeIndexOrFirst(name: Option<string>): (r: int)
    ensures 0 <= r < 13
    ensures TruthyText(name) && FindIndex(Schemes, Normalize(name.value)) >= 0 ==>
      r == FindIndex(Schemes, Normalize(name.value))
    ensures !TruthyText(name) || FindIndex(Schemes, Normalize(name.value)) == -1 ==> r == 0
  {
    if !TruthyText(name) then 0
    else
      var i := FindIndex(Schemes, Normalize(name.value));
      if i >= 0 then i else 0
  }

  /** Both agree on every name the list knows, and on a falsy one. */
  lemma SchemeIndexAgreesWhenKnown(name: Option<string>)
    requires !TruthyText(name) || FindIndex(Schemes, Normalize(name.value)) >= 0
    ensures SchemeIndexOrFirst(name) == GetSchemeIndex(name)
  {
  }

  /** A scheme file name starts with `S`. */
  lemma SchemeNameStart(n: nat)
    ensures |SchemeName(n)| > 0 && SchemeName(n)[0] == 'S'
  {
  }

  /** A name that does not start with a slash is kept, and one leading
      slash is dropped. */
  lemma NormalizeSlash(name: string)
    requires |name| > 0 && name[0] != '/'
    ensures Normalize(name) == name && Normalize("/" + name) == name
  {
    assert ("/" + name)[1..] == name;
  }

  /** Scheme `n`'s file name, with or without a leading slash, is found at
      index `n - 1` by the corrected lookup. */
  lemma SchemeIndexOfName(n: nat)
    requires 1 <= n <= 13
    ensures SchemeIndexOrFirst(Some(SchemeName(n))) == n - 1
    ensures SchemeIndexOrFirst(Some("/" + SchemeName(n))) == n - 1
  {
    SchemeNameStart(n);
    NormalizeSlash(SchemeName(n));
    FindSchemeName(n);
  }
}
