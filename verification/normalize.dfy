/**
 * Per-field cleaning rules of the transform step: the country alias lookup,
 * the phone-number pattern `\d{3}.*\d{4}`, the removal of a phone extension
 * with `re.sub(r'[xX].*$', '', ...)`, and the numeric coercion of TotalSpent.
 */
module Normalize {
  import opened Wrappers

  // ---------------------------------------------------------------------
  // Python's str.strip() and str.lower()
  // ---------------------------------------------------------------------

  /** The characters for which Python's str.isspace() holds; str.strip() removes these. */
  predicate IsSpace(c: char) {
    || '\t' <= c <= '\r'
    || '\U{1C}' <= c <= ' '
    || c == '\U{85}' || c == '\U{A0}' || c == '\U{1680}'
    || '\U{2000}' <= c <= '\U{200A}'
    || c == '\U{2028}' || c == '\U{2029}' || c == '\U{202F}' || c == '\U{205F}' || c == '\U{3000}'
  }

  predicate AllSpace(s: string) {
    forall k :: 0 <= k < |s| ==> IsSpace(s[k])
  }

  /** s without its leading white space. */
  function TrimStart(s: string): (r: string)
    ensures |r| <= |s| && r == s[|s| - |r|..]
    ensures AllSpace(s[..|s| - |r|])
    ensures r != [] ==> !IsSpace(r[0])
  {
    if s != [] && IsSpace(s[0]) then
      var r := TrimStart(s[1..]);
      assert s[..|s| - |r|] == [s[0]] + s[1..][..|s| - 1 - |r|];
      r
    else s
  }

  /** s without its trailing white space. */
  function TrimEnd(s: string): (r: string)
    ensures |r| <= |s| && r == s[..|r|]
    ensures AllSpace(s[|r|..])
    ensures r != [] ==> !IsSpace(r[|r| - 1])
  {
    if s != [] && IsSpace(s[|s| - 1]) then
      var r := TrimEnd(s[..|s| - 1]);
      assert s[|r|..] == s[..|s| - 1][|r|..] + [s[|s| - 1]];
      r
    else s
  }

  /** Python's s.strip(); StripUnique says where it cuts s. */
  function Strip(s: string): string {
    TrimEnd(TrimStart(s))
  }

  /**
   * Lower-casing as far as it can decide an alias lookup: ASCII capitals,
   * and the KELVIN SIGN, which Python lower-cases to 'k'. No other character
   * lower-cases to an ASCII letter.
   */
  function LowerChar(c: char): char {
    if 'A' <= c <= 'Z' then (c as int + 32) as char
    else if c == '\U{212A}' then 'k'
    else c
  }

  function Lower(s: string): (r: string)
    ensures |r| == |s|
    ensures forall k :: 0 <= k < |s| ==> r[k] == LowerChar(s[k])
  {
    seq(|s|, k requires 0 <= k < |s| => LowerChar(s[k]))
  }

  // ---------------------------------------------------------------------
  // Country
  // ---------------------------------------------------------------------

  /** The alias table `country_map`. */
  const CountryAliases: map<string, string> :=
    map["us" := "United States", "usa" := "United States",
        "uk" := "United Kingdom", "ca" := "Canada", "canada" := "Canada"]

  /**
   * `Country.str.strip().str.lower().map(country_map).fillna(Country)`:
   * the canonical name when the trimmed, lower-cased value is an alias,
   * otherwise the value as it was (a missing country stays missing).
   */
  function NormalizeCountry(country: Option<string>): (r: Option<string>)
    ensures country.None? ==> r.None?
    ensures r.Some? ==> r == country || r.value in CountryAliases.Values
  {
    match country
    case None => None
    case Some(c) =>
      var key := Lower(Strip(c));
      if key in CountryAliases then Some(CountryAliases[key]) else country
  }

  /**
   * s spells alias a up to white-space padding and letter case: the
   * independent description of what the strip-and-lower lookup accepts.
   */
  ghost predicate PaddedSpelling(s: string, a: string) {
    exists i, j :: 0 <= i <= j <= |s| && AllSpace(s[..i]) && AllSpace(s[j..]) && Lower(s[i..j]) == a
  }

  /** TrimStart stops at the first character that is not white space. */
  lemma {:induction false} TrimStartAt(s: string, i: int)
    requires 0 <= i <= |s| && AllSpace(s[..i]) && (i < |s| ==> !IsSpace(s[i]))
    ensures TrimStart(s) == s[i..]
    decreases i
  {
    if i > 0 {
      assert s[..i][0] == s[0];
      assert s[1..][..i - 1] == s[..i][1..];
      TrimStartAt(s[1..], i - 1);
    }
  }

  /** TrimEnd stops after the last character that is not white space. */
  lemma {:induction false} TrimEndAt(s: string, j: int)
    requires 0 <= j <= |s| && AllSpace(s[j..]) && (j > 0 ==> !IsSpace(s[j - 1]))
    ensures TrimEnd(s) == s[..j]
    decreases |s| - j
  {
    if j < |s| {
      var n := |s| - 1;
      assert s[j..][n - j] == s[n];
      assert s[..n][j..] == s[j..][..n - j];
      TrimEndAt(s[..n], j);
    } else {
      assert s[..j] == s;
    }
  }

  /** Strip cuts s exactly at the first and the last character that is not white space. */
  lemma StripUnique(s: string, i: int, j: int)
    requires 0 <= i <= j <= |s| && AllSpace(s[..i]) && AllSpace(s[j..])
    requires i < j ==> !IsSpace(s[i]) && !IsSpace(s[j - 1])
    requires i == j ==> AllSpace(s)
    ensures Strip(s) == s[i..j]
  {
    if i < j {
      TrimStartAt(s, i);
      TrimEndOfSuffix(s, i, j);
    } else {
      assert s[..|s|] == s;
      TrimStartAt(s, |s|);
    }
  }

  /** Trimming the end of s[i..] stops after the last non-space character j - 1. */
  lemma TrimEndOfSuffix(s: string, i: int, j: int)
    requires 0 <= i < j <= |s| && AllSpace(s[j..]) && !IsSpace(s[j - 1])
    ensures TrimEnd(s[i..]) == s[i..j]
  {
    var t := s[i..];
    assert t[j - i..] == s[j..];
    TrimEndAt(t, j - i);
    assert t[..j - i] == s[i..j];
  }

  lemma LowerPreservesSpace(s: string, k: int)
    requires 0 <= k < |s|
    ensures IsSpace(s[k]) <==> IsSpace(Lower(s)[k])
  {
  }

  /**
   * For a key a that neither starts nor ends with white space, the lookup
   * key of s is a exactly when s spells a up to padding and case.
   */
  lemma LookupKeyMatchesPaddedSpelling(s: string, a: string)
    requires a != [] && !IsSpace(a[0]) && !IsSpace(a[|a| - 1])
    ensures Lower(Strip(s)) == a <==> PaddedSpelling(s, a)
  {
    if Lower(Strip(s)) == a {
      StripIsPadded(s);
    }
    if PaddedSpelling(s, a) {
      var i, j :| 0 <= i <= j <= |s| && AllSpace(s[..i]) && AllSpace(s[j..]) && Lower(s[i..j]) == a;
      PaddedStrip(s, a, i, j);
    }
  }

  lemma PaddedStrip(s: string, a: string, i: int, j: int)
    requires a != [] && !IsSpace(a[0]) && !IsSpace(a[|a| - 1])
    requires 0 <= i <= j <= |s| && AllSpace(s[..i]) && AllSpace(s[j..]) && Lower(s[i..j]) == a
    ensures Lower(Strip(s)) == a
  {
    var w := s[i..j];
    LowerPreservesSpace(w, 0);
    LowerPreservesSpace(w, |a| - 1);
    assert w[0] == s[i] && w[|w| - 1] == s[j - 1];
    StripUnique(s, i, j);
  }

  /** Strip(s) is s with white-space padding removed on both sides. */
  lemma StripIsPadded(s: string)
    ensures PaddedSpelling(s, Lower(Strip(s)))
  {
    var t := TrimStart(s);
    var u := TrimEnd(t);
    var i := |s| - |t|;
    var j := i + |u|;
    assert u == s[i..j];
    assert s[j..] == t[|u|..];
    assert AllSpace(s[..i]) && AllSpace(s[j..]) && Lower(s[i..j]) == Lower(Strip(s));
  }

  /** A country is mapped to a canonical name exactly when it spells an alias up to padding and case. */
  lemma NormalizeCountryMeaning(s: string, a: string)
    requires a in CountryAliases
    ensures NormalizeCountry(Some(s)) == Some(CountryAliases[a]) <== PaddedSpelling(s, a)
    ensures Lower(Strip(s)) == a <==> PaddedSpelling(s, a)
  {
    assert a == "us" || a == "usa" || a == "uk" || a == "ca" || a == "canada";
    assert !IsSpace(a[0]) && !IsSpace(a[|a| - 1]);
    LookupKeyMatchesPaddedSpelling(s, a);
  }

  /** White-space padding and letter case around an alias do not matter. */
  lemma NormalizeCountryPaddedAlias(pre: string, word: string, post: string, a: string)
    requires AllSpace(pre) && AllSpace(post) && a in CountryAliases && Lower(word) == a
    ensures NormalizeCountry(Some(pre + word + post)) == Some(CountryAliases[a])
  {
    var s := pre + word + post;
    assert s[..|pre|] == pre;
    assert s[|pre| + |word|..] == post;
    assert s[|pre|..|pre| + |word|] == word;
    NormalizeCountryMeaning(s, a);
  }

  /** A value that spells no alias is kept exactly as it was, padding and case included. */
  lemma NormalizeCountryFallback(s: string)
    requires forall a :: a in CountryAliases ==> !PaddedSpelling(s, a)
    ensures NormalizeCountry(Some(s)) == Some(s)
  {
    var key := Lower(Strip(s));
    if key in CountryAliases {
      NormalizeCountryMeaning(s, key);
    }
  }

  /** A word without padding is its own Strip. */
  lemma StripUnpadded(w: string)
    requires w != [] && !IsSpace(w[0]) && !IsSpace(w[|w| - 1])
    ensures Strip(w) == w
  {
    StripUnique(w, 0, |w|);
    assert w[0..|w|] == w;
  }

  /** The country is mapped by the alias it is looked up under. */
  lemma LookupByKey(c: string, key: string)
    requires Lower(Strip(c)) == key
    ensures key in CountryAliases ==> NormalizeCountry(Some(c)) == Some(CountryAliases[key])
    ensures key !in CountryAliases ==> NormalizeCountry(Some(c)) == Some(c)
  {
  }

  /** A name without padding that is longer than every alias is left as it is. */
  lemma LongNameIsFixed(w: string)
    requires |w| > 6 && !IsSpace(w[0]) && !IsSpace(w[|w| - 1])
    ensures NormalizeCountry(Some(w)) == Some(w)
  {
    StripUnpadded(w);
    var key := Lower(w);
    assert key in CountryAliases ==> |key| <= 6;
    LookupByKey(w, key);
  }

  lemma LowerCanada(canon: string)
    requires canon == "Canada"
    ensures Lower(canon) == "canada"
  {
  }

  /** "Canada" is its own alias's canonical name. */
  lemma CanadaIsFixed(canon: string)
    requires canon == "Canada"
    ensures NormalizeCountry(Some(canon)) == Some(canon)
  {
    StripUnpadded(canon);
    LowerCanada(canon);
    LookupByKey(canon, "canada");
  }

  /** A canonical name is left as it is. */
  lemma CanonicalNameIsFixed(canon: string)
    requires canon in CountryAliases.Values
    ensures NormalizeCountry(Some(canon)) == Some(canon)
  {
    assert canon == "United States" || canon == "United Kingdom" || canon == "Canada";
    if canon == "Canada" {
      CanadaIsFixed(canon);
    } else {
      LongNameIsFixed(canon);
    }
  }

  /** Cleaning a cleaned country again changes nothing. */
  lemma NormalizeCountryIdempotent(country: Option<string>)
    ensures NormalizeCountry(NormalizeCountry(country)) == NormalizeCountry(country)
  {
    var r := NormalizeCountry(country);
    if r.Some? && r != country {
      CanonicalNameIsFixed(r.value);
    }
  }

  // ---------------------------------------------------------------------
  // Phone validation: re.search(r'\d{3}.*\d{4}', s)
  // ---------------------------------------------------------------------

  predicate IsDigit(c: char) {
    '0' <= c <= '9'
  }

  /** n digits start at position i of s. */
  predicate DigitsAt(s: string, i: int, n: nat) {
    0 <= i && i + n <= |s| && forall k :: i <= k < i + n ==> IsDigit(s[k])
  }

  /** `.*` cannot cross a line break: no '\n' in s[from..to]. */
  predicate NoLineBreak(s: string, from: int, to: int)
    requires 0 <= from <= to <= |s|
  {
    forall k :: from <= k < to ==> s[k] != '\n'
  }

  /** The pattern matches s with its three digits at i and its four digits at j. */
  ghost predicate MatchesAt(s: string, i: int, j: int) {
    DigitsAt(s, i, 3) && i + 3 <= j && DigitsAt(s, j, 4) && NoLineBreak(s, i + 3, j)
  }

  /** The tail `.*\d{4}` matches with its four digits at j of t. */
  ghost predicate TailMatchesAt(t: string, j: int) {
    DigitsAt(t, j, 4) && NoLineBreak(t, 0, j)
  }

  /** Does the tail `.*\d{4}` match at the start of t? */
  function TailMatches(t: string): bool
    decreases |t|
  {
    |t| >= 4 && (DigitsAt(t, 0, 4) || (t[0] != '\n' && TailMatches(t[1..])))
  }

  /** `is_valid_phone`: a search for the pattern at every start position, leftmost first. */
  function IsValidPhone(s: string): bool
    decreases |s|
  {
    |s| >= 7 && ((DigitsAt(s, 0, 3) && TailMatches(s[3..])) || IsValidPhone(s[1..]))
  }

  lemma {:induction false} TailMatchesMeaning(t: string)
    ensures TailMatches(t) <==> exists j :: TailMatchesAt(t, j)
  {
    if |t| < 4 {
      assert forall j :: !TailMatchesAt(t, j);
    } else if DigitsAt(t, 0, 4) {
      assert TailMatchesAt(t, 0);
    } else {
      var t' := t[1..];
      TailMatchesMeaning(t');
      if TailMatches(t) {
        var j :| TailMatchesAt(t', j);
        assert TailMatchesAt(t, j + 1);
      }
      if exists j :: TailMatchesAt(t, j) {
        var j :| TailMatchesAt(t, j);
        assert j != 0;
        assert t[0] != '\n';
        assert TailMatchesAt(t', j - 1);
      }
    }
  }

  /** `is_valid_phone(s)` holds exactly when the pattern matches somewhere in s. */
  lemma {:induction false} IsValidPhoneMeaning(s: string)
    ensures IsValidPhone(s) <==> exists i, j :: MatchesAt(s, i, j)
  {
    if |s| < 7 {
      assert forall i, j :: !MatchesAt(s, i, j);
    } else {
      var s' := s[1..];
      IsValidPhoneMeaning(s');
      TailMatchesMeaning(s[3..]);
      if IsValidPhone(s) {
        if DigitsAt(s, 0, 3) && TailMatches(s[3..]) {
          var j :| TailMatchesAt(s[3..], j);
          assert MatchesAt(s, 0, j + 3);
        } else {
          var i, j :| MatchesAt(s', i, j);
          assert MatchesAt(s, i + 1, j + 1);
        }
      }
      if exists i, j :: MatchesAt(s, i, j) {
        var i, j :| MatchesAt(s, i, j);
        if i == 0 {
          assert TailMatchesAt(s[3..], j - 3);
        } else {
          assert MatchesAt(s', i - 1, j - 1);
        }
      }
    }
  }

  // ---------------------------------------------------------------------
  // Phone extension: re.sub(r'[xX].*$', '', s)
  // ---------------------------------------------------------------------

  predicate IsMark(c: char) {
    c == 'x' || c == 'X'
  }

  /** Where `$` can end a match: the end of s, or just before one final line break. */
  function MatchEnd(s: string): (e: nat)
    ensures e <= |s| && (e == |s| || (e == |s| - 1 && s[e] == '\n'))
  {
    if |s| > 0 && s[|s| - 1] == '\n' then |s| - 1 else |s|
  }

  /** Start of the line that ends at e: just after the last line break before e. */
  function LineStart(s: string, e: nat): (l: nat)
    requires e <= |s|
    ensures l <= e && NoLineBreak(s, l, e)
    ensures l > 0 ==> s[l - 1] == '\n'
  {
    if e == 0 then 0 else if s[e - 1] == '\n' then e else LineStart(s, e - 1)
  }

  /** The first x/X in s[from..e], or e when there is none. */
  function FirstMark(s: string, from: nat, e: nat): (k: nat)
    requires from <= e <= |s|
    ensures from <= k <= e
    ensures forall m :: from <= m < k ==> !IsMark(s[m])
    ensures k < e ==> IsMark(s[k])
    decreases e - from
  {
    if from == e then e else if IsMark(s[from]) then from else FirstMark(s, from + 1, e)
  }

  /**
   * The phone clean-up lambda. `.` does not cross a line break and `$` ends
   * the match at the end of s or before a final line break, so the match
   * starts at the first x/X of the last line and runs to that end. On a
   * one-line phone the result is the longest prefix without x/X:
   * everything before the first x/X, or the whole phone when it has none.
   */
  function StripExtension(s: string): (r: string)
    ensures |r| <= |s|
    ensures NoLineBreak(s, 0, |s|) ==>
      && r == s[..|r|]
      && (forall k :: 0 <= k < |r| ==> !IsMark(r[k]))
      && (|r| < |s| ==> IsMark(s[|r|]))
  {
    var e := MatchEnd(s);
    LineStartOneLine(s, e);
    var k := FirstMark(s, LineStart(s, e), e);
    s[..k] + s[e..]
  }

  /** Without a line break before e, the line starts at the beginning. */
  lemma {:induction false} LineStartOneLine(s: string, e: nat)
    requires e <= |s|
    ensures NoLineBreak(s, 0, e) ==> LineStart(s, e) == 0
    decreases e
  {
    if e > 0 {
      LineStartOneLine(s, e - 1);
    }
  }

  /** On a one-line phone, removing the extension a second time changes nothing. */
  lemma StripExtensionIdempotent(s: string)
    requires NoLineBreak(s, 0, |s|)
    ensures StripExtension(StripExtension(s)) == StripExtension(s)
  {
    var r := StripExtension(s);
    assert NoLineBreak(r, 0, |r|) by {
      forall k | 0 <= k < |r|
        ensures r[k] != '\n'
      {
        assert r[k] == s[k];
      }
    }
  }

  /**
   * Across lines the clean-up is not idempotent: the first pass removes the
   * last line's "x" and leaves a final line break, before which `$` then
   * matches in the second pass.
   */
  lemma StripExtensionTwiceAcrossLines()
    ensures StripExtension("ax\nx") == "ax\n"
    ensures StripExtension("ax\n") == "a\n"
  {
    assert LineStart("ax\nx", 4) == 3;
    assert LineStart("ax\n", 2) == 0;
  }

  // ---------------------------------------------------------------------
  // TotalSpent: pd.to_numeric(errors='coerce').abs()
  // ---------------------------------------------------------------------

  /**
   * A TotalSpent cell: missing (NaN), a number, or text that does not
   * parse as a number (numeric text arrives as Numeric). Amounts are
   * exact; pandas would hold a float64.
   */
  datatype AmountCell = Blank | Numeric(value: real) | Unparseable(raw: string)

  /** Coerce to a number (unparseable text becomes NaN) and take the absolute value. */
  function CoerceAmount(c: AmountCell): (r: AmountCell)
    ensures r.Numeric? <==> c.Numeric?
    ensures !r.Unparseable?
    ensures r.Numeric? ==> r.value >= 0.0 && (r.value == c.value || r.value == -c.value)
  {
    match c
    case Numeric(v) => Numeric(if v < 0.0 then -v else v)
    case _ => Blank
  }

  /** The amount filter `TotalSpent.notna() & (TotalSpent > 0)`. */
  predicate IsPositive(c: AmountCell) {
    c.Numeric? && c.value > 0.0
  }

  /** A cell survives coercion and the filter exactly when it is a non-zero number. */
  lemma CoercedPositive(c: AmountCell)
    ensures IsPositive(CoerceAmount(c)) <==> c.Numeric? && c.value != 0.0
  {
  }
}
