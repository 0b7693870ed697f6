/**
 * How the page script names an element with a CSS selector: escaping and
 * quoting, the short selector of one element, the climb to a unique chained
 * selector, the resolution of a click target to a clickable ancestor, and
 * the accept/skip decision for clicks and for fields.
 */
module Selectors {
  import opened Wrappers
  import opened JsText
  import opened Dom

  // ---------------------------------------------------------------- CSS.escape

  /** The characters the `CSS.escape` fallback leaves alone. Dafny characters
      are code points, so a character above U+FFFF stands for the surrogate
      pair JavaScript sees, and both halves of such a pair are left alone. */
  predicate KeptByEscape(c: char) {
    ('a' <= c <= 'z') || ('A' <= c <= 'Z') || ('0' <= c <= '9') || c == '_' || c == '-'
    || c as int >= 0xA0
  }

  /** Every other character becomes a backslash, its code in upper-case
      hexadecimal and a space. */
  function EscapeChar(c: char): string {
    if KeptByEscape(c) then [c] else "\\" + Hex(c as int) + " "
  }

  /** The `CSS.escape` fallback the page installs when the browser lacks one. */
  function CssEscape(s: string): string {
    if s == [] then [] else EscapeChar(s[0]) + CssEscape(s[1..])
  }

  /** The first space at or after `i`, or the end of `s`. */
  function SpaceFrom(s: string, i: nat): (j: nat)
    requires i <= |s|
    ensures i <= j <= |s|
    ensures j < |s| ==> s[j] == ' '
    ensures forall k :: i <= k < j ==> s[k] != ' '
    decreases |s| - i
  {
    if i == |s| || s[i] == ' ' then i else SpaceFrom(s, i + 1)
  }

  predicate HexDigits(s: string) {
    forall i :: 0 <= i < |s| ==> IsDigit(s[i], 16)
  }

  /** How a CSS identifier is read back: a backslash, hexadecimal digits and a
      space stand for the character with that code; anything else malformed
      is rejected. This decoder is more lenient than a CSS parser, which reads
      `\0 ` as U+FFFD rather than U+0000, so EscapeRoundTrip is a round trip
      through this decoder, not through CSS; a selector CSS reads differently
      is one the `count` oracle finds no match for, and is skipped. */
  function CssUnescape(s: string): Option<string>
    decreases |s|
  {
    if s == [] then Some([])
    else if s[0] != '\\' then
      match CssUnescape(s[1..])
      case None => None
      case Some(t) => Some([s[0]] + t)
    else
      var j := SpaceFrom(s, 1);
      var digits := s[1..j];
      if j == |s| || digits == [] || !HexDigits(digits) || NumeralValue(digits, 16) >= 0xD800 then None
      else
        match CssUnescape(s[j + 1..])
        case None => None
        case Some(t) => Some([NumeralValue(digits, 16) as char] + t)
  }

  /** An escaped identifier reads back as the original string. */
  lemma {:induction false} EscapeRoundTrip(s: string)
    ensures CssUnescape(CssEscape(s)) == Some(s)
  {
    if s != [] {
      var c := s[0];
      var rest := CssEscape(s[1..]);
      var e := CssEscape(s);
      EscapeRoundTrip(s[1..]);
      if KeptByEscape(c) {
        assert e == [c] + rest;
        assert e[1..] == rest;
        assert [c] + s[1..] == s;
      } else {
        var h := Hex(c as int);
        assert e == "\\" + h + " " + rest;
        var j := SpaceFrom(e, 1);
        assert e[1 + |h|] == ' ';
        assert forall k :: 1 <= k < 1 + |h| ==> e[k] == h[k - 1];
        assert j == 1 + |h|;
        assert e[1..j] == h;
        assert e[j + 1..] == rest;
        HexRoundTrip(c as int);
        assert NumeralValue(e[1..j], 16) as char == c;
        assert [c] + s[1..] == s;
      }
    }
  }

  /** `idSelector(id)`: `#` and the escaped id (escaping cannot fail, so the
      attribute-selector fallback is never taken). */
  function IdSelector(id: string): string {
    "#" + CssEscape(id)
  }

  /** The id can be read back from its selector. */
  lemma IdSelectorRoundTrip(id: string)
    ensures var s := IdSelector(id); |s| >= 1 && s[0] == '#' && CssUnescape(s[1..]) == Some(id)
  {
    var s := IdSelector(id);
    assert s[1..] == CssEscape(id);
    EscapeRoundTrip(id);
  }

  // ---------------------------------------------------------------- cssQuote

  /** `s.replace(/c/g, by)` for a one-character pattern. */
  function ReplaceChar(s: string, c: char, repl: string): string {
    if s == [] then [] else (if s[0] == c then repl else [s[0]]) + ReplaceChar(s[1..], c, repl)
  }

  lemma {:induction false} ReplaceCharAppend(a: string, b: string, c: char, repl: string)
    ensures ReplaceChar(a + b, c, repl) == ReplaceChar(a, c, repl) + ReplaceChar(b, c, repl)
  {
    if a != [] {
      assert (a + b)[1..] == a[1..] + b;
      ReplaceCharAppend(a[1..], b, c, repl);
    } else {
      assert a + b == b;
    }
  }

  /** `cssQuote(v)`: backslashes doubled first, then double quotes escaped. */
  function CssQuote(v: string): string {
    ReplaceChar(ReplaceChar(v, '\\', "\\\\"), '"', "\\\"")
  }

  /** What one character of the value becomes inside the quotes. */
  function QuoteChar(c: char): string {
    if c == '\\' then "\\\\" else if c == '"' then "\\\"" else [c]
  }

  function QuoteEach(v: string): string {
    if v == [] then [] else QuoteChar(v[0]) + QuoteEach(v[1..])
  }

  /** The two passes of `cssQuote` amount to escaping each character once:
      the second pass does not touch what the first one wrote. */
  lemma {:induction false} CssQuotePerChar(v: string)
    ensures CssQuote(v) == QuoteEach(v)
  {
    if v != [] {
      var first := ReplaceChar(v, '\\', "\\\\");
      var head := if v[0] == '\\' then "\\\\" else [v[0]];
      assert first == head + ReplaceChar(v[1..], '\\', "\\\\");
      ReplaceCharAppend(head, ReplaceChar(v[1..], '\\', "\\\\"), '"', "\\\"");
      assert ReplaceChar(head, '"', "\\\"") == QuoteChar(v[0]);
      CssQuotePerChar(v[1..]);
    }
  }

  /** How the inside of a double-quoted CSS string is read back, for the two
      escapes `cssQuote` writes: a bare double quote would end the string and
      is rejected, as is any other escape. A raw newline is accepted here,
      although in CSS it makes a bad-string token and the selector is
      rejected, so QuoteRoundTrip is a round trip through this decoder, not
      through CSS; the `count` oracle gives such a selector no match, and it
      is skipped. */
  function CssUnquote(s: string): Option<string>
    decreases |s|
  {
    if s == [] then Some([])
    else if s[0] == '"' then None
    else if s[0] != '\\' then
      match CssUnquote(s[1..])
      case None => None
      case Some(t) => Some([s[0]] + t)
    else if |s| >= 2 && (s[1] == '\\' || s[1] == '"') then
      match CssUnquote(s[2..])
      case None => None
      case Some(t) => Some([s[1]] + t)
    else None
  }

  /** A quoted value stays inside its quotes and reads back unchanged. */
  lemma QuoteRoundTrip(v: string)
    ensures CssUnquote(CssQuote(v)) == Some(v)
  {
    CssQuotePerChar(v);
    QuoteEachRoundTrip(v);
  }

  lemma {:induction false} QuoteEachRoundTrip(v: string)
    ensures CssUnquote(QuoteEach(v)) == Some(v)
  {
    if v != [] {
      var q := QuoteEach(v);
      var h := QuoteChar(v[0]);
      assert q == h + QuoteEach(v[1..]);
      assert q[|h|..] == QuoteEach(v[1..]);
      QuoteEachRoundTrip(v[1..]);
      if v[0] == '\\' || v[0] == '"' {
        assert q[0] == '\\' && q[1] == v[0] && q[2..] == QuoteEach(v[1..]);
      } else {
        assert q[0] == v[0] && q[1..] == QuoteEach(v[1..]);
      }
      assert [v[0]] + v[1..] == v;
    }
  }

  // ---------------------------------------------------------------- shortSelector

  /** `[name="value"]`, with the value quoted. */
  function AttrSelector(name: string, value: string): string {
    "[" + name + "=\"" + CssQuote(value) + "\"]"
  }

  function AttrNames(e: Element): seq<string> {
    seq(|e.attrs|, i requires 0 <= i < |e.attrs| => e.attrs[i].0)
  }

  /** An attribute `shortSelector` may use after the id: a `data-` or
      `aria-` attribute with a truthy value. */
  predicate DataAriaUsable(e: Element, a: string) {
    (StartsWith(a, "data-") || StartsWith(a, "aria-")) && Truthy(GetAttr(e, a))
  }

  /** The first of `names` that starts with `data-` or `aria-` and whose value
      is truthy, with that value. */
  function FirstDataAria(e: Element, names: seq<string>): (r: Option<(string, string)>)
    ensures r.Some? ==> DataAriaUsable(e, r.value.0) && GetAttr(e, r.value.0).value == r.value.1
    ensures r.Some? ==> exists k ::
      (0 <= k < |names| && names[k] == r.value.0 && forall j :: 0 <= j < k ==> !DataAriaUsable(e, names[j]))
    ensures r.None? ==> forall j :: 0 <= j < |names| ==> !DataAriaUsable(e, names[j])
  {
    if names == [] then None
    else
      var a := names[0];
      var v := GetAttr(e, a);
      if (StartsWith(a, "data-") || StartsWith(a, "aria-")) && Truthy(v) then Some((a, v.value))
      else
        var r := FirstDataAria(e, names[1..]);
        assert r.Some? ==> exists k ::
          (0 <= k < |names| && names[k] == r.value.0 && forall j :: 0 <= j < k ==> !DataAriaUsable(e, names[j])) by {
          if r.Some? {
            var k :| 0 <= k < |names[1..]| && names[1..][k] == r.value.0
              && (forall j :: 0 <= j < k ==> !DataAriaUsable(e, names[1..][j]));
            assert names[k + 1] == r.value.0;
            assert forall j :: 0 <= j < k + 1 ==> !DataAriaUsable(e, names[j]) by {
              forall j | 0 <= j < k + 1 ensures !DataAriaUsable(e, names[j]) {
                if j > 0 { assert names[j] == names[1..][j - 1]; }
              }
            }
          }
        }
        r
  }

  function Join(xs: seq<string>, sep: string): string {
    if xs == [] then "" else if |xs| == 1 then xs[0] else xs[0] + sep + Join(xs[1..], sep)
  }

  /** The one-based position of a node among its parent's element children;
      the document element counts as 1. */
  function ChildIndex(p: Path): nat {
    if p == [] then 1 else Last(p) + 1
  }

  /** `shortSelector(el)`: the test id, the name, the id, the first data- or
      aria- attribute, or else the tag with classes and `:nth-child`. */
  function ShortSelector(root: Element, p: Path): string
    requires ValidPath(root, p)
  {
    var e := NodeAt(root, p);
    var testid := GetAttr(e, "data-testid");
    var name := GetAttr(e, "name");
    var id := GetAttr(e, "id");
    if Truthy(testid) then AttrSelector("data-testid", testid.value)
    else if Truthy(name) then AttrSelector("name", name.value)
    else if Truthy(id) then IdSelector(id.value)
    else match FirstDataAria(e, AttrNames(e))
      case Some((a, v)) => AttrSelector(a, v)
      case None => PositionalSelector(e.tag, e.classes, ChildIndex(p))
  }

  /** The fallback of `shortSelector`: tag, classes and position. */
  function PositionalSelector(tag: string, classes: seq<string>, idx: nat): string {
    if |classes| > 0 then Lower(tag) + "." + Join(classes, ".") + ":nth-child(" + Decimal(idx) + ")"
    else Lower(tag) + ":nth-child(" + Decimal(idx) + ")"
  }

  /** Different positions give different positional selectors. */
  lemma PositionalSelectorInjective(tag: string, classes: seq<string>, i: nat, j: nat)
    requires PositionalSelector(tag, classes, i) == PositionalSelector(tag, classes, j)
    ensures i == j
  {
    var pre := if |classes| > 0 then Lower(tag) + "." + Join(classes, ".") + ":nth-child(" else Lower(tag) + ":nth-child(";
    var x := Decimal(i) + ")";
    var y := Decimal(j) + ")";
    assert PositionalSelector(tag, classes, i) == pre + x;
    assert PositionalSelector(tag, classes, j) == pre + y;
    assert x == (pre + x)[|pre|..] == (pre + y)[|pre|..] == y;
    assert Decimal(i) == x[..|x| - 1] == y[..|y| - 1] == Decimal(j);
    DecimalInjective(i, j);
  }

  /** Nodes with nothing but tag and classes to tell them apart still get
      different short selectors when they are siblings. */
  lemma SiblingsGetDistinctSelectors(root: Element, p: Path, i: nat, j: nat)
    requires ValidPath(root, p + [i]) && ValidPath(root, p + [j]) && i != j
    requires var a := NodeAt(root, p + [i]); var b := NodeAt(root, p + [j]);
      && a.tag == b.tag && a.classes == b.classes
      && !Truthy(GetAttr(a, "data-testid")) && !Truthy(GetAttr(a, "name")) && !Truthy(GetAttr(a, "id"))
      && !Truthy(GetAttr(b, "data-testid")) && !Truthy(GetAttr(b, "name")) && !Truthy(GetAttr(b, "id"))
      && FirstDataAria(a, AttrNames(a)).None? && FirstDataAria(b, AttrNames(b)).None?
    ensures ShortSelector(root, p + [i]) != ShortSelector(root, p + [j])
  {
    assert ChildIndex(p + [i]) == i + 1 && ChildIndex(p + [j]) == j + 1;
    var a := NodeAt(root, p + [i]);
    if ShortSelector(root, p + [i]) == ShortSelector(root, p + [j]) {
      PositionalSelectorInjective(a.tag, a.classes, i + 1, j + 1);
    }
  }

  /** A node whose first identifying attribute is its id is named by it. */
  lemma IdComesAfterTestIdAndName(root: Element, p: Path)
    requires ValidPath(root, p)
    requires var e := NodeAt(root, p);
      !Truthy(GetAttr(e, "data-testid")) && !Truthy(GetAttr(e, "name")) && Truthy(GetAttr(e, "id"))
    ensures ShortSelector(root, p) == IdSelector(GetAttr(NodeAt(root, p), "id").value)
  {
  }

  // ---------------------------------------------------------------- uniqueSelector

  /** The short selectors of the document element, of each ancestor below
      it and of the node itself, top down. */
  function AncestorShorts(root: Element, p: Path): (r: seq<string>)
    requires ValidPath(root, p)
    ensures |r| == |p| + 1
    decreases |p|
  {
    if p == [] then [ShortSelector(root, p)]
    else AncestorShorts(root, Parent(p)) + [ShortSelector(root, p)]
  }

  /** Entry `m` is the short selector of the ancestor at depth `m`. */
  lemma {:induction false} AncestorShortsAt(root: Element, p: Path, m: nat)
    requires ValidPath(root, p) && m <= |p|
    ensures ValidPath(root, p[..m])
    ensures AncestorShorts(root, p)[m] == ShortSelector(root, p[..m])
    decreases |p|
  {
    AncestorValid(root, p, m);
    if m == |p| {
      assert p[..m] == p;
    } else {
      assert Parent(p)[..m] == p[..m];
      AncestorShortsAt(root, Parent(p), m);
    }
  }

  /** The selector after climbing `k` ancestors: the last `k + 1` short
      selectors joined by ` > `. */
  function ChainOf(shorts: seq<string>, k: nat): string
    requires k < |shorts|
  {
    var n := |shorts| - 1;
    if k == 0 then shorts[n] else shorts[n - k] + " > " + ChainOf(shorts, k - 1)
  }

  /** The first level, from `from` on, whose chain matches one node, or the
      top level (the document element) when none does. */
  function UniqueLevel(count: string -> nat, shorts: seq<string>, from: nat): (k: nat)
    requires from < |shorts|
    ensures from <= k < |shorts|
    ensures IsUnique(count, ChainOf(shorts, k)) || k == |shorts| - 1
    ensures forall j :: from <= j < k ==> !IsUnique(count, ChainOf(shorts, j))
    decreases |shorts| - from
  {
    if IsUnique(count, ChainOf(shorts, from)) || from == |shorts| - 1 then from
    else UniqueLevel(count, shorts, from + 1)
  }

  /** What `uniqueSelector(el)` returns. */
  function UniqueSel(count: string -> nat, root: Element, p: Path): string
    requires ValidPath(root, p)
  {
    var shorts := AncestorShorts(root, p);
    ChainOf(shorts, UniqueLevel(count, shorts, 0))
  }

  /** One more level of the chain puts the next ancestor's short selector
      in front. */
  lemma ChainStep(root: Element, p: Path, k: nat)
    requires ValidPath(root, p) && k < |p|
    ensures p[..|p| - k] != [] && Parent(p[..|p| - k]) == p[..|p| - (k + 1)]
    ensures ValidPath(root, Parent(p[..|p| - k]))
    ensures var shorts := AncestorShorts(root, p);
      ChainOf(shorts, k + 1) == ShortSelector(root, Parent(p[..|p| - k])) + " > " + ChainOf(shorts, k)
  {
    AncestorShortsAt(root, p, |p| - (k + 1));
    assert Parent(p[..|p| - k]) == p[..|p| - (k + 1)];
  }

  /** The level is pinned down by its two properties. */
  lemma {:induction false} UniqueLevelIs(count: string -> nat, shorts: seq<string>, from: nat, k: nat)
    requires from <= k < |shorts|
    requires IsUnique(count, ChainOf(shorts, k)) || k == |shorts| - 1
    requires forall j :: from <= j < k ==> !IsUnique(count, ChainOf(shorts, j))
    ensures UniqueLevel(count, shorts, from) == k
    decreases k - from
  {
    if from < k {
      UniqueLevelIs(count, shorts, from + 1, k);
    }
  }

  /** The search stops at a unique chain or at the top. */
  lemma LevelHere(count: string -> nat, shorts: seq<string>, k: nat)
    requires k < |shorts| && (IsUnique(count, ChainOf(shorts, k)) || k == |shorts| - 1)
    ensures UniqueLevel(count, shorts, k) == k
  {
  }

  /** Below the top, a chain that is not unique passes the search on. */
  lemma LevelStep(count: string -> nat, shorts: seq<string>, k: nat)
    requires k + 1 < |shorts| && !IsUnique(count, ChainOf(shorts, k))
    ensures UniqueLevel(count, shorts, k) == UniqueLevel(count, shorts, k + 1)
  {
  }

  /** `uniqueSelector(el)`: the short selector if it is unique, otherwise
      the parents' short selectors prepended one at a time until the chain is
      unique or the document element is reached. */
  method UniqueSelector(count: string -> nat, root: Element, p: Path) returns (sel: string)
    requires ValidPath(root, p)
    ensures sel == UniqueSel(count, root, p)
  {
    ghost var shorts := AncestorShorts(root, p);
    AncestorShortsAt(root, p, |p|);
    assert p[..|p|] == p;
    sel := ShortSelector(root, p);
    if IsUnique(count, sel) {
      LevelHere(count, shorts, 0);
      return;
    }
    var cur := p;
    ghost var k := 0;
    while cur != []
      invariant 0 <= k <= |p| && cur == p[..|p| - k] && ValidPath(root, cur)
      invariant sel == ChainOf(shorts, k) && !IsUnique(count, sel)
      invariant UniqueLevel(count, shorts, 0) == UniqueLevel(count, shorts, k)
      decreases |cur|
    {
      ChainStep(root, p, k);
      LevelStep(count, shorts, k);
      var parentSel := ShortSelector(root, Parent(cur));
      var chained := parentSel + " > " + sel;
      if IsUnique(count, chained) {
        LevelHere(count, shorts, k + 1);
        return chained;
      }
      sel := chained;
      cur := Parent(cur);
      k := k + 1;
    }
    LevelHere(count, shorts, k);
  }

  // ---------------------------------------------------------------- clickable

  /** `hasPositiveTab(el)`: a `tabindex` that `parseInt` reads as a number
      that is not below zero (`-0` included). */
  predicate HasPositiveTab(e: Element) {
    var t := GetAttr(e, "tabindex");
    t.Some? && match ParseInt(t.value)
      case NaN => false
      case Num(negative, n) => !negative || n == 0
  }

  /** A written tab index counts exactly when its value is not negative. */
  lemma PositiveTabOfNumeral(e: Element, n: nat, negative: bool)
    requires GetAttr(e, "tabindex") == Some((if negative then "-" else "") + Decimal(n))
    ensures HasPositiveTab(e) <==> !negative || n == 0
  {
    ParseIntRoundTrip(n, negative);
  }

  const ClickRoles: seq<string> := ["button", "menuitem", "option", "link"]

  /** `hasRole(el, roles)`: a truthy `role` whose lower-cased value is listed. */
  predicate HasRole(e: Element, roles: seq<string>) {
    var r := GetAttr(e, "role");
    Truthy(r) && Lower(r.value) in roles
  }

  /** `isClickableCandidate(el)`. */
  predicate IsClickableCandidate(o: Oracle, root: Element, p: Path) {
    && ValidPath(root, p)
    && var e := NodeAt(root, p);
    || o.matchesClickable(p)
    || HasAttr(e, "onclick")
    || HasPositiveTab(e)
    || HasRole(e, ClickRoles)
    || (e.tag == "A" && (Truthy(GetAttr(e, "href")) || Truthy(GetAttr(e, "onclick"))))
    || (e.tag == "INPUT" && Lower(GetAttr(e, "type").GetOr("")) in ["button", "submit"])
  }

  /** `el.closest(CLICKABLE_CSS)`: the nearest node, the element itself
      included, that matches the clickable selector list. */
  function Closest(o: Oracle, root: Element, p: Path): (r: Option<Path>)
    requires ValidPath(root, p)
    ensures r.Some? ==> r.value <= p && ValidPath(root, r.value) && o.matchesClickable(r.value)
    ensures r.Some? ==> forall m :: |r.value| < m <= |p| ==> !o.matchesClickable(p[..m])
    ensures r.None? ==> forall m :: 0 <= m <= |p| ==> !o.matchesClickable(p[..m])
    decreases |p|
  {
    if o.matchesClickable(p) then
      assert p[..|p|] == p;
      Some(p)
    else if p == [] then
      assert p[..0] == p;
      None
    else
      var r := Closest(o, root, Parent(p));
      assert forall m :: 0 <= m < |p| ==> Parent(p)[..m] == p[..m];
      assert p[..|p|] == p;
      r
  }

  /** The nearest clickable candidate at or above `p`, if any. */
  function NearestCandidate(o: Oracle, root: Element, p: Path): (r: Option<Path>)
    requires ValidPath(root, p)
    ensures r.Some? ==> r.value <= p && IsClickableCandidate(o, root, r.value)
    ensures r.Some? ==> forall m :: |r.value| < m <= |p| ==> !IsClickableCandidate(o, root, p[..m])
    ensures r.None? ==> forall m :: 0 <= m <= |p| ==> !IsClickableCandidate(o, root, p[..m])
    decreases |p|
  {
    if IsClickableCandidate(o, root, p) then
      assert p[..|p|] == p;
      Some(p)
    else if p == [] then
      assert p[..0] == p;
      None
    else
      var r := NearestCandidate(o, root, Parent(p));
      assert forall m :: 0 <= m < |p| ==> Parent(p)[..m] == p[..m];
      assert p[..|p|] == p;
      r
  }

  /** What `getClickable(el)` returns. */
  function Clickable(o: Oracle, root: Element, el: Path): Path
    requires ValidPath(root, el)
  {
    var start := Closest(o, root, el).GetOr(el);
    NearestCandidate(o, root, start).GetOr(el)
  }

  /** A click resolves to the closest ancestor matching the clickable list
      when there is one; otherwise to the nearest candidate above the
      target, or to the target itself when nothing above it qualifies. */
  lemma ClickableIsNearest(o: Oracle, root: Element, el: Path)
    requires ValidPath(root, el)
    ensures var c := Clickable(o, root, el);
      && c <= el && ValidPath(root, c)
      && (Closest(o, root, el).Some? ==> c == Closest(o, root, el).value)
      && (Closest(o, root, el).None? ==>
            (IsClickableCandidate(o, root, c) && forall m :: |c| < m <= |el| ==> !IsClickableCandidate(o, root, el[..m]))
            || (c == el && forall m :: 0 <= m <= |el| ==> !IsClickableCandidate(o, root, el[..m])))
  {
    var start := Closest(o, root, el).GetOr(el);
    if Closest(o, root, el).Some? {
      assert IsClickableCandidate(o, root, start);
    }
    AncestorValid(root, el, |el|);
    assert el[..|el|] == el;
  }

  /** `getClickable(el)`. */
  method GetClickable(o: Oracle, root: Element, el: Path) returns (c: Path)
    requires ValidPath(root, el)
    ensures c == Clickable(o, root, el)
  {
    var via := Closest(o, root, el);
    var start := via.GetOr(el);
    var cand: Option<Path> := Some(start);
    while cand.Some? && !IsClickableCandidate(o, root, cand.value)
      invariant cand.Some? ==> ValidPath(root, cand.value)
      invariant cand.Some? ==> NearestCandidate(o, root, cand.value) == NearestCandidate(o, root, start)
      invariant cand.None? ==> NearestCandidate(o, root, start).None?
      decreases if cand.Some? then |cand.value| + 1 else 0
    {
      cand := if cand.value == [] then None else Some(Parent(cand.value));
    }
    c := cand.GetOr(el);
  }

  /** The nearest proper ancestor of `p` that is a visible clickable
      candidate. */
  function VisibleCandidateAbove(o: Oracle, root: Element, p: Path): (r: Option<Path>)
    requires ValidPath(root, p)
    ensures r.Some? ==> r.value < p && IsClickableCandidate(o, root, r.value) && o.visible(r.value)
    ensures r.Some? ==> forall m :: |r.value| < m < |p| ==> !(IsClickableCandidate(o, root, p[..m]) && o.visible(p[..m]))
    ensures r.None? ==> forall m :: 0 <= m < |p| ==> !(IsClickableCandidate(o, root, p[..m]) && o.visible(p[..m]))
    decreases |p|
  {
    if p == [] then None
    else
      var q := Parent(p);
      assert forall m :: 0 <= m < |q| ==> q[..m] == p[..m];
      assert q == p[..|q|];
      if IsClickableCandidate(o, root, q) && o.visible(q) then Some(q)
      else VisibleCandidateAbove(o, root, q)
  }

  // ---------------------------------------------------------------- decisions

  /** Why a target was not recorded. */
  datatype SkipReason = NoVisibleClickableAncestor | NotUnique | NotVisible

  /** The outcome of `buildSelectorForClick` or `buildSelectorForField` under
      the unique-and-visible policy the recorder always runs with. */
  datatype Built = Accepted(selector: string) | Skipped(reason: SkipReason)

  /** The node a click is recorded against: the clickable node when it is
      visible, else its nearest visible candidate ancestor. */
  function ChosenForClick(o: Oracle, root: Element, target: Path): Option<Path>
    requires ValidPath(root, target)
  {
    var c := Clickable(o, root, target);
    ClickableIsNearest(o, root, target);
    if o.visible(c) then Some(c) else VisibleCandidateAbove(o, root, c)
  }

  /** The common tail of both decisions: accept a unique and visible
      selector, otherwise say which test failed (uniqueness first). */
  function Decide(sel: string, unique: bool, visible: bool): Built {
    if !unique || !visible then Skipped(if unique then NotVisible else NotUnique)
    else Accepted(sel)
  }

  /** What `buildSelectorForClick(target)` returns. */
  function ForClick(o: Oracle, root: Element, target: Path): Built
    requires ValidPath(root, target)
  {
    ClickableIsNearest(o, root, target);
    match ChosenForClick(o, root, target)
    case None => Skipped(NoVisibleClickableAncestor)
    case Some(c) =>
      var sel := UniqueSel(o.count, root, c);
      Decide(sel, IsUnique(o.count, sel), o.visible(c))
  }

  /** A click is recorded exactly when some node at or above the target is
      chosen and its unique selector matches one node; the chosen node is
      then visible, and the "not visible" reason can never be given. */
  lemma ClickDecision(o: Oracle, root: Element, target: Path)
    requires ValidPath(root, target)
    ensures var chosen := ChosenForClick(o, root, target);
      var r := ForClick(o, root, target);
      && (chosen.None? <==> r == Skipped(NoVisibleClickableAncestor))
      && (chosen.Some? ==> chosen.value <= target && ValidPath(root, chosen.value) && o.visible(chosen.value))
      && (r.Accepted? <==> chosen.Some? && IsUnique(o.count, UniqueSel(o.count, root, chosen.value)))
      && (r.Accepted? ==> r.selector == UniqueSel(o.count, root, chosen.value))
      && r != Skipped(NotVisible)
  {
    ClickableIsNearest(o, root, target);
    var c := Clickable(o, root, target);
    var chosen := ChosenForClick(o, root, target);
    if chosen.Some? && !o.visible(c) {
      assert chosen.value < c;
    }
  }

  /** `buildSelectorForClick(target)`. */
  method BuildSelectorForClick(o: Oracle, root: Element, target: Path) returns (r: Built)
    requires ValidPath(root, target)
    ensures r == ForClick(o, root, target)
  {
    ClickableIsNearest(o, root, target);
    var clickable := GetClickable(o, root, target);
    if !o.visible(clickable) {
      var p := clickable;
      var rebased: Option<Path> := None;
      while p != []
        invariant ValidPath(root, p) && p <= clickable
        invariant VisibleCandidateAbove(o, root, p) == VisibleCandidateAbove(o, root, clickable)
        decreases |p|
      {
        p := Parent(p);
        if IsClickableCandidate(o, root, p) && o.visible(p) {
          rebased := Some(p);
          break;
        }
      }
      if rebased.None? {
        return Skipped(NoVisibleClickableAncestor);
      }
      clickable := rebased.value;
    }
    var sel := UniqueSelector(o.count, root, clickable);
    var unique := IsUnique(o.count, sel);
    var visible := o.visible(clickable);
    r := Decide(sel, unique, visible);
  }

  /** `isFileInput`: an `INPUT` whose type, lower-cased, is `file`. */
  predicate IsFileInput(e: Element) {
    e.tag == "INPUT" && Lower(GetAttr(e, "type").GetOr("")) == "file"
  }

  /** What `buildSelectorForField(target)` returns. */
  function ForField(o: Oracle, root: Element, target: Path): Built
    requires ValidPath(root, target)
  {
    var sel := UniqueSel(o.count, root, target);
    Decide(sel, IsUnique(o.count, sel), IsFileInput(NodeAt(root, target)) || o.visible(target))
  }

  /** A field is recorded exactly when its unique selector matches one node
      and it is visible or a file input; a file input's visibility is never
      consulted. */
  lemma FieldDecision(o: Oracle, root: Element, target: Path, anyVisibility: Path -> bool)
    requires ValidPath(root, target)
    ensures var sel := UniqueSel(o.count, root, target);
      var r := ForField(o, root, target);
      && (r.Accepted? <==> IsUnique(o.count, sel) && (IsFileInput(NodeAt(root, target)) || o.visible(target)))
      && (r.Accepted? ==> r.selector == sel)
      && (r == Skipped(NotUnique) <==> !IsUnique(o.count, sel))
      && (IsFileInput(NodeAt(root, target)) ==> r == ForField(o.(visible := anyVisibility), root, target))
  {
  }

  /** `buildSelectorForField(target)`. */
  method BuildSelectorForField(o: Oracle, root: Element, target: Path) returns (r: Built)
    requires ValidPath(root, target)
    ensures r == ForField(o, root, target)
  {
    var sel := UniqueSelector(o.count, root, target);
    var unique := IsUnique(o.count, sel);
    var isFileInput := IsFileInput(NodeAt(root, target));
    var visible := if isFileInput then true else o.visible(target);
    r := Decide(sel, unique, visible);
  }
}
