/**
 * The JavaScript string built-ins the recorder relies on, written out:
 * truthiness of an optional string, `toLowerCase` (ASCII letters only),
 * the `\s` whitespace class and `trim`, `endsWith`, `split('?')[0]`,
 * `Number.prototype.toString(radix)` and `parseInt(t, 10)`.
 */
module JsText {
  import opened Wrappers

  /** `if (o)` on a value that is a string, `null` or `undefined`. */
  predicate Truthy(o: Option<string>) {
    o.Some? && o.value != ""
  }

  /** `a || b` on two optional strings. */
  function Or(a: Option<string>, b: Option<string>): (r: Option<string>)
    ensures Truthy(r) <==> Truthy(a) || Truthy(b)
    ensures Truthy(a) ==> r == a
    ensures !Truthy(a) ==> r == b
  {
    if Truthy(a) then a else b
  }

  /** `(a || b || c || '')`: the first truthy string, or the empty string. */
  function FirstTruthy(a: Option<string>, b: Option<string>, c: Option<string>): (r: string)
    ensures Truthy(a) ==> r == a.value
    ensures !Truthy(a) && Truthy(b) ==> r == b.value
    ensures !Truthy(a) && !Truthy(b) && Truthy(c) ==> r == c.value
    ensures !Truthy(a) && !Truthy(b) && !Truthy(c) ==> r == ""
  {
    var o := Or(Or(a, b), c);
    if Truthy(o) then o.value else ""
  }

  // ---------------------------------------------------------------- case

  predicate IsUpper(c: char) {
    'A' <= c <= 'Z'
  }

  /** `toLowerCase` on one character; only ASCII letters are mapped. */
  function LowerChar(c: char): (r: char)
    ensures !IsUpper(r)
    ensures IsUpper(c) ==> r as int == c as int + 32
    ensures !IsUpper(c) ==> r == c
    ensures IsSpace(r) <==> IsSpace(c)
  {
    if IsUpper(c) then (c as int + 32) as char else c
  }

  function Lower(s: string): (r: string) {
    seq(|s|, i requires 0 <= i < |s| => LowerChar(s[i]))
  }

  lemma LowerOfLower(s: string)
    requires forall i :: 0 <= i < |s| ==> !IsUpper(s[i])
    ensures Lower(s) == s
  {
  }

  // ---------------------------------------------------------------- whitespace

  /** The characters matched by the regular-expression class `\s`, which are
      also the ones `String.prototype.trim` removes. */
  predicate IsSpace(c: char) {
    var n := c as int;
    n == 0x09 || n == 0x0A || n == 0x0B || n == 0x0C || n == 0x0D || n == 0x20
    || n == 0xA0 || n == 0x1680 || (0x2000 <= n <= 0x200A) || n == 0x2028
    || n == 0x2029 || n == 0x202F || n == 0x205F || n == 0x3000 || n == 0xFEFF
  }

  /** `s.replace(/\s+/g, '')`: every whitespace character removed. */
  function StripSpaces(s: string): (r: string)
    ensures |r| <= |s|
    ensures forall i :: 0 <= i < |r| ==> !IsSpace(r[i])
    ensures forall i :: 0 <= i < |r| ==> r[i] in s
    ensures (forall i :: 0 <= i < |s| ==> !IsSpace(s[i])) ==> r == s
    ensures |s| == 1 ==> r == (if IsSpace(s[0]) then [] else s)
  {
    if s == [] then []
    else if IsSpace(s[0]) then StripSpaces(s[1..])
    else [s[0]] + StripSpaces(s[1..])
  }

  /** Stripping works piece by piece, so with the one-character case every
      non-whitespace character survives, in order. */
  lemma {:induction false} StripSpacesAppend(a: string, b: string)
    ensures StripSpaces(a + b) == StripSpaces(a) + StripSpaces(b)
  {
    if a == [] {
      assert a + b == b;
    } else {
      assert (a + b)[1..] == a[1..] + b;
      StripSpacesAppend(a[1..], b);
    }
  }

  /** `s.toLowerCase().replace(/\s+/g, '')`: how a field's key is normalised. */
  function NormalizeKey(s: string): string {
    StripSpaces(Lower(s))
  }

  /** A normalised key has no whitespace and no upper-case letter, so
      normalising it again changes nothing. */
  lemma NormalizeKeyIdempotent(s: string)
    ensures var k := NormalizeKey(s);
      && (forall i :: 0 <= i < |k| ==> !IsSpace(k[i]) && !IsUpper(k[i]))
      && NormalizeKey(k) == k
  {
    var k := NormalizeKey(s);
    forall i | 0 <= i < |k| ensures !IsUpper(k[i]) {
      assert k[i] in Lower(s);
    }
    LowerOfLower(k);
  }

  function TrimStart(s: string): (r: string)
    ensures |r| <= |s| && r == s[|s| - |r|..]
    ensures r == [] || !IsSpace(r[0])
    ensures forall i :: 0 <= i < |s| - |r| ==> IsSpace(s[i])
  {
    if s != [] && IsSpace(s[0]) then TrimStart(s[1..]) else s
  }

  function TrimEnd(s: string): (r: string)
    ensures |r| <= |s| && r == s[..|r|]
    ensures r == [] || !IsSpace(r[|r| - 1])
    ensures forall i :: |r| <= i < |s| ==> IsSpace(s[i])
  {
    if s != [] && IsSpace(s[|s| - 1]) then TrimEnd(s[..|s| - 1]) else s
  }

  /** `s.trim()`. */
  function Trim(s: string): string {
    TrimEnd(TrimStart(s))
  }

  /** `s.trim() !== ''` holds exactly when `s` has a non-whitespace character. */
  lemma TrimEmptyIff(s: string)
    ensures Trim(s) == "" <==> forall i :: 0 <= i < |s| ==> IsSpace(s[i])
  {
    var t := TrimStart(s);
    if Trim(s) != "" {
      var k := |Trim(s)| - 1;
      assert Trim(s)[k] == t[k] == s[|s| - |t| + k];
    }
  }

  /** `s.trim() !== ''`, stated without computing the trim. */
  predicate HasNonSpace(s: string) {
    exists i :: 0 <= i < |s| && !IsSpace(s[i])
  }

  lemma TrimNonEmptyIff(s: string)
    ensures Trim(s) != "" <==> HasNonSpace(s)
  {
    TrimEmptyIff(s);
  }

  // ---------------------------------------------------------------- affixes

  predicate StartsWith(s: string, prefix: string) {
    prefix <= s
  }

  predicate EndsWith(s: string, suffix: string) {
    |suffix| <= |s| && s[|s| - |suffix|..] == suffix
  }

  /** `s.split('?')[0]`: everything before the first question mark. */
  function BeforeQuery(s: string): (r: string)
    ensures r <= s
    ensures '?' !in r
    ensures |r| < |s| ==> s[|r|] == '?'
  {
    if s == [] || s[0] == '?' then [] else [s[0]] + BeforeQuery(s[1..])
  }

  // ---------------------------------------------------------------- numerals

  predicate IsDigit(c: char, base: nat) {
    ('0' <= c <= '9' && (c as int - '0' as int) < base)
    || ('A' <= c <= 'F' && (c as int - 'A' as int) + 10 < base)
  }

  function DigitChar(d: nat): (c: char)
    requires d < 16
  {
    if d < 10 then ('0' as int + d) as char else ('A' as int + d - 10) as char
  }

  function DigitValue(c: char): nat {
    if '0' <= c <= '9' then c as int - '0' as int
    else if 'A' <= c <= 'F' then c as int - 'A' as int + 10
    else 0
  }

  /** `` `${n}` ``: the decimal numeral of `n`. */
  function Decimal(n: nat): (r: string)
    ensures |r| >= 1
    ensures forall i :: 0 <= i < |r| ==> IsDigit(r[i], 10)
  {
    if n < 10 then [DigitChar(n)] else Decimal(n / 10) + [DigitChar(n % 10)]
  }

  /** `n.toString(16).toUpperCase()`: upper-case hexadecimal, no leading zeros. */
  function Hex(n: nat): (r: string)
    ensures |r| >= 1
    ensures forall i :: 0 <= i < |r| ==> IsDigit(r[i], 16)
  {
    if n < 16 then [DigitChar(n)] else Hex(n / 16) + [DigitChar(n % 16)]
  }

  /** The value of a string of digits, most significant first. */
  function NumeralValue(s: string, base: nat): nat {
    if s == [] then 0 else NumeralValue(s[..|s| - 1], base) * base + DigitValue(s[|s| - 1])
  }

  lemma {:induction false} DecimalRoundTrip(n: nat)
    ensures NumeralValue(Decimal(n), 10) == n
  {
    if n >= 10 {
      var s := Decimal(n);
      assert s[..|s| - 1] == Decimal(n / 10);
      DecimalRoundTrip(n / 10);
    }
  }

  lemma {:induction false} HexRoundTrip(n: nat)
    ensures NumeralValue(Hex(n), 16) == n
  {
    if n >= 16 {
      var s := Hex(n);
      assert s[..|s| - 1] == Hex(n / 16);
      HexRoundTrip(n / 16);
    }
  }

  /** Decimal numerals of distinct numbers differ. */
  lemma DecimalInjective(m: nat, n: nat)
    requires Decimal(m) == Decimal(n)
    ensures m == n
  {
    DecimalRoundTrip(m);
    DecimalRoundTrip(n);
  }

  /** The outcome of `parseInt(t, 10)`: `NaN`, or a sign and a magnitude
      (a separate sign, because `parseInt('-0')` is `-0` and `-0 >= 0`). */
  datatype ParsedInt = NaN | Num(negative: bool, magnitude: nat)

  function LeadingDigits(s: string): (r: string)
    ensures r <= s
    ensures forall i :: 0 <= i < |r| ==> IsDigit(r[i], 10)
    ensures |r| < |s| ==> !IsDigit(s[|r|], 10)
  {
    if s != [] && IsDigit(s[0], 10) then [s[0]] + LeadingDigits(s[1..]) else []
  }

  /** `parseInt(t, 10)`: leading whitespace, an optional sign, then the longest
      run of decimal digits; `NaN` when that run is empty. */
  function ParseInt(t: string): ParsedInt {
    ParseSigned(TrimStart(t))
  }

  /** `parseInt` after the leading whitespace. */
  function ParseSigned(u: string): ParsedInt {
    var negative := u != [] && u[0] == '-';
    var rest := if u != [] && (u[0] == '-' || u[0] == '+') then u[1..] else u;
    var digits := LeadingDigits(rest);
    if digits == [] then NaN else Num(negative, NumeralValue(digits, 10))
  }

  lemma AllDigitsLead(s: string)
    requires forall i :: 0 <= i < |s| ==> IsDigit(s[i], 10)
    ensures LeadingDigits(s) == s
  {
    if s != [] {
      AllDigitsLead(s[1..]);
    }
  }

  /** A signed run of digits parses to its value, with its sign. */
  lemma ParseSignedDigits(negative: bool, s: string)
    requires s != [] && forall i :: 0 <= i < |s| ==> IsDigit(s[i], 10)
    ensures ParseInt((if negative then "-" else "") + s) == Num(negative, NumeralValue(s, 10))
  {
    var t := (if negative then "-" else "") + s;
    assert !IsSpace(t[0]) by {
      assert t[0] == (if negative then '-' else s[0]);
      assert IsDigit(s[0], 10);
    }
    NoLeadingSpace(t);
    SignAndDigits(negative, s);
  }

  /** Once the leading whitespace is gone, the sign and the digits are read. */
  lemma SignAndDigits(negative: bool, s: string)
    requires s != [] && forall i :: 0 <= i < |s| ==> IsDigit(s[i], 10)
    ensures ParseSigned((if negative then "-" else "") + s) == Num(negative, NumeralValue(s, 10))
  {
    var t := (if negative then "-" else "") + s;
    assert (t[0] == '-') == negative && t[0] != '+' by {
      assert t[0] == (if negative then '-' else s[0]);
      assert IsDigit(s[0], 10);
    }
    assert (if negative then t[1..] else t) == s;
    AllDigitsLead(s);
  }

  lemma NoLeadingSpace(t: string)
    requires t != [] && !IsSpace(t[0])
    ensures TrimStart(t) == t
  {
  }

  /** `parseInt` reads back what `toString` wrote, with either sign. */
  lemma ParseIntRoundTrip(n: nat, negative: bool)
    ensures ParseInt((if negative then "-" else "") + Decimal(n)) == Num(negative, n)
  {
    ParseSignedDigits(negative, Decimal(n));
    DecimalRoundTrip(n);
  }
}
