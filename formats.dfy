/**
  The format predicates of the changelog validator: empty string (after
  `lodash.trim`), GUID, syntactic URL, secure URL and parseable date.
  Each predicate receives the JSON value read from the entry; the regular
  expressions see it through `String(v)`, as `RegExp.prototype.test` does.
 */
module Formats {
  import opened JsValues

  /** `Date.parse(s)` is not NaN. The parser belongs to the JavaScript engine
      and is a parameter of the model. */
  type DateParser = string -> bool

  // ---------------------------------------------------------------------
  // Whitespace and trimming

  /** The characters of the JavaScript `\s` class (WhiteSpace and LineTerminator). */
  predicate IsWhitespace(c: char) {
    c == '\t' || c == '\n' || c == '\U{000B}' || c == '\U{000C}' || c == '\r' || c == ' ' ||
    c == '\U{00A0}' || c == '\U{1680}' || ('\U{2000}' <= c <= '\U{200A}') ||
    c == '\U{2028}' || c == '\U{2029}' || c == '\U{202F}' || c == '\U{205F}' ||
    c == '\U{3000}' || c == '\U{FEFF}'
  }

  /** Drops the leading whitespace. */
  function TrimStart(s: string): string {
    if s != [] && IsWhitespace(s[0]) then TrimStart(s[1..]) else s
  }

  /** Drops the trailing whitespace. */
  function TrimEnd(s: string): string {
    if s != [] && IsWhitespace(s[|s| - 1]) then TrimEnd(s[..|s| - 1]) else s
  }

  /** `lodash.trim(s)`. */
  function Trim(s: string): string {
    TrimEnd(TrimStart(s))
  }

  /** `TrimStart` keeps a suffix that does not begin with whitespace and drops
      only whitespace. */
  lemma {:induction false} TrimStartMeaning(s: string)
    ensures var r := TrimStart(s);
      |r| <= |s| && r == s[|s| - |r|..] &&
      (r == [] || !IsWhitespace(r[0])) &&
      forall i | 0 <= i < |s| - |r| :: IsWhitespace(s[i])
  {
    if s != [] && IsWhitespace(s[0]) {
      TrimStartMeaning(s[1..]);
      var r := TrimStart(s[1..]);
      assert s[1..][|s[1..]| - |r|..] == s[|s| - |r|..];
      forall i | 0 <= i < |s| - |r| ensures IsWhitespace(s[i]) {
        if i > 0 { assert s[i] == s[1..][i - 1]; }
      }
    }
  }

  /** `TrimEnd` keeps a prefix that does not end with whitespace and drops
      only whitespace. */
  lemma {:induction false} TrimEndMeaning(s: string)
    ensures var r := TrimEnd(s);
      |r| <= |s| && r == s[..|r|] &&
      (r == [] || !IsWhitespace(r[|r| - 1])) &&
      forall i | |r| <= i < |s| :: IsWhitespace(s[i])
  {
    if s != [] && IsWhitespace(s[|s| - 1]) {
      TrimEndMeaning(s[..|s| - 1]);
      var r := TrimEnd(s[..|s| - 1]);
      assert s[..|s| - 1][..|r|] == s[..|r|];
      forall i | |r| <= i < |s| ensures IsWhitespace(s[i]) {
        if i < |s| - 1 { assert s[i] == s[..|s| - 1][i]; }
      }
    }
  }

  /** A string trims to "" exactly when every character of it is whitespace. */
  lemma TrimEmptyIffAllWhitespace(s: string)
    ensures |Trim(s)| == 0 <==> forall i | 0 <= i < |s| :: IsWhitespace(s[i])
  {
    TrimStartMeaning(s);
    TrimEndMeaning(TrimStart(s));
  }

  /** `_isEmptyString`: not a string, or a string that is empty after trimming. */
  predicate IsEmptyString(v: Json) {
    !v.JString? || |Trim(v.s)| == 0
  }

  /** A string value is empty in the validator's sense exactly when it is all
      whitespace; every other kind of value is empty. */
  lemma {:induction false} EmptyStringMeaning(v: Json)
    ensures IsEmptyString(v) <==>
      (!v.JString? || forall i | 0 <= i < |v.s| :: IsWhitespace(v.s[i]))
  {
    if v.JString? {
      TrimEmptyIffAllWhitespace(v.s);
    }
  }

  // ---------------------------------------------------------------------
  // GUID: /^[0-9a-f]{8}(?:-[0-9a-f]{4}){3}-[0-9a-f]{12}$/i

  predicate IsHexDigit(c: char) {
    ('0' <= c <= '9') || ('a' <= c <= 'f') || ('A' <= c <= 'F')
  }

  predicate AllHex(s: string) {
    forall i | 0 <= i < |s| :: IsHexDigit(s[i])
  }

  /** The GUID regular expression, group by group: 8 hex digits, three times
      a dash and 4 hex digits, a dash and 12 hex digits, then the end. */
  predicate GuidForm(s: string) {
    |s| == 36 &&
    AllHex(s[0..8]) && s[8] == '-' &&
    AllHex(s[9..13]) && s[13] == '-' &&
    AllHex(s[14..18]) && s[18] == '-' &&
    AllHex(s[19..23]) && s[23] == '-' &&
    AllHex(s[24..36])
  }

  predicate IsGuidDashOffset(i: int) {
    i == 8 || i == 13 || i == 18 || i == 23
  }

  /** GUID form, position by position: 36 characters, dashes at offsets 8, 13,
      18 and 23, a hexadecimal digit of either case everywhere else. */
  lemma GuidFormPositional(s: string)
    ensures GuidForm(s) <==>
      |s| == 36 &&
      forall i | 0 <= i < 36 :: if IsGuidDashOffset(i) then s[i] == '-' else IsHexDigit(s[i])
  {
    if GuidForm(s) {
      forall i | 0 <= i < 36 ensures if IsGuidDashOffset(i) then s[i] == '-' else IsHexDigit(s[i]) {
        if i < 8 { assert s[0..8][i] == s[i]; }
        else if 8 < i < 13 { assert s[9..13][i - 9] == s[i]; }
        else if 13 < i < 18 { assert s[14..18][i - 14] == s[i]; }
        else if 18 < i < 23 { assert s[19..23][i - 19] == s[i]; }
        else if 23 < i { assert s[24..36][i - 24] == s[i]; }
      }
    }
  }

  /** The five groups of a GUID joined with dashes. */
  function GuidOfGroups(a: string, b: string, c: string, d: string, e: string): string {
    a + "-" + b + "-" + c + "-" + d + "-" + e
  }

  /** Any five hex groups of lengths 8-4-4-4-12 give a GUID, and every GUID
      splits back into those groups. */
  lemma GuidGroupsRoundTrip(a: string, b: string, c: string, d: string, e: string)
    requires |a| == 8 && |b| == 4 && |c| == 4 && |d| == 4 && |e| == 12
    requires AllHex(a) && AllHex(b) && AllHex(c) && AllHex(d) && AllHex(e)
    ensures GuidForm(GuidOfGroups(a, b, c, d, e))
    ensures var g := GuidOfGroups(a, b, c, d, e);
      g[0..8] == a && g[9..13] == b && g[14..18] == c && g[19..23] == d && g[24..36] == e
  {
    var g := GuidOfGroups(a, b, c, d, e);
    assert g[0..8] == a;
    assert g[9..13] == b;
    assert g[14..18] == c;
    assert g[19..23] == d;
    assert g[24..36] == e;
  }

  lemma GuidSplits(s: string)
    requires GuidForm(s)
    ensures s == GuidOfGroups(s[0..8], s[9..13], s[14..18], s[19..23], s[24..36])
  {
    var g := GuidOfGroups(s[0..8], s[9..13], s[14..18], s[19..23], s[24..36]);
    assert |g| == 36;
    forall i | 0 <= i < 36 ensures g[i] == s[i] {
      if i < 8 { assert g[i] == s[0..8][i]; }
      else if i == 8 { }
      else if i < 13 { assert g[i] == s[9..13][i - 9]; }
      else if i == 13 { }
      else if i < 18 { assert g[i] == s[14..18][i - 14]; }
      else if i == 18 { }
      else if i < 23 { assert g[i] == s[19..23][i - 19]; }
      else if i == 23 { }
      else { assert g[i] == s[24..36][i - 24]; }
    }
  }

  /** ASCII lower-casing of every character. */
  function LowerAscii(s: string): string {
    seq(|s|, i requires 0 <= i < |s| => if 'A' <= s[i] <= 'Z' then (s[i] - 'A' + 'a') as char else s[i])
  }

  /** The GUID test ignores case. */
  lemma GuidCaseInsensitive(s: string)
    ensures GuidForm(s) <==> GuidForm(LowerAscii(s))
  {
    var t := LowerAscii(s);
    GuidFormPositional(s);
    GuidFormPositional(t);
    if |s| == 36 {
      forall i | 0 <= i < 36
        ensures (if IsGuidDashOffset(i) then s[i] == '-' else IsHexDigit(s[i])) <==>
                (if IsGuidDashOffset(i) then t[i] == '-' else IsHexDigit(t[i]))
      {
      }
    }
  }

  /** `_isGuidValid`. */
  predicate IsGuidValid(v: Json) {
    GuidForm(ToJsString(v))
  }

  /** The example GUID from the source's comment, in both letter cases. */
  lemma GuidAcceptsExample()
    ensures IsGuidValid(JString("f81d4fae-7dec-11d0-a765-00a0c91e6bf6"))
  {
    GuidFormPositional("f81d4fae-7dec-11d0-a765-00a0c91e6bf6");
  }

  lemma GuidAcceptsUpperCaseExample()
    ensures IsGuidValid(JString("F81D4FAE-7DEC-11D0-A765-00A0C91E6BF6"))
  {
    GuidFormPositional("F81D4FAE-7DEC-11D0-A765-00A0C91E6BF6");
  }

  lemma GuidRejectsExamples()
    ensures !IsGuidValid(JString("f81d4fae-7dec-11d0-a765-00a0c91e6bf"))
    ensures !IsGuidValid(JString("not-a-guid"))
  {
  }

  // ---------------------------------------------------------------------
  // Secure URL: /^https/

  predicate StartsWith(s: string, p: string) {
    |p| <= |s| && s[..|p|] == p
  }

  /** `_isSecureURL`: the text begins with the literal, lower-case "https". */
  predicate IsSecureURL(v: Json) {
    StartsWith(ToJsString(v), "https")
  }

  // ---------------------------------------------------------------------
  // URL: /^https?:\/\/(www\.)?[-a-zA-Z0-9@:%._\+~#=]{2,256}\.[a-z]{2,6}\b([-a-zA-Z0-9@:%_\+.~#?&//=]*)?/i
  // The trailing group may match nothing and the pattern has no end anchor,
  // so `test` succeeds exactly when some prefix of the text matches up to
  // and including the word boundary after the top-level domain.

  predicate IsAsciiLetter(c: char) {
    ('a' <= c <= 'z') || ('A' <= c <= 'Z')
  }

  /** `\w` (the same for an /i pattern without the u flag). */
  predicate IsWordChar(c: char) {
    IsAsciiLetter(c) || IsDigit(c) || c == '_'
  }

  /** `[-a-zA-Z0-9@:%._\+~#=]`. */
  predicate IsDomainChar(c: char) {
    IsAsciiLetter(c) || IsDigit(c) ||
    c == '-' || c == '@' || c == ':' || c == '%' || c == '.' || c == '_' ||
    c == '+' || c == '~' || c == '#' || c == '='
  }

  /** `s` begins with `lower` compared without regard to case, where
      `upper` is the same text in upper case (the /i flag on ASCII text). */
  predicate StartsWithIgnoringCase(s: string, lower: string, upper: string)
    requires |lower| == |upper|
  {
    |lower| <= |s| && forall i | 0 <= i < |lower| :: s[i] == lower[i] || s[i] == upper[i]
  }

  /** Length of the `^https?:\/\/` match, or 0 when there is none. */
  function SchemeLength(s: string): (n: nat)
    ensures n == 0 || n == 7 || n == 8
    ensures n == 8 ==> StartsWithIgnoringCase(s, "https://", "HTTPS://")
    ensures n == 7 ==> StartsWithIgnoringCase(s, "http://", "HTTP://")
  {
    if StartsWithIgnoringCase(s, "https://", "HTTPS://") then 8
    else if StartsWithIgnoringCase(s, "http://", "HTTP://") then 7
    else 0
  }

  /** A top-level domain starts at `p` and is `t` letters long, followed by a
      word boundary. */
  predicate TldSplit(s: string, p: nat, t: nat) {
    p + t <= |s| &&
    (forall i | p <= i < p + t :: IsAsciiLetter(s[i])) &&
    (p + t == |s| || !IsWordChar(s[p + t]))
  }

  /** A domain of `d` domain characters starts at `q`, then a dot and a
      top-level domain of 2 to 6 letters. */
  predicate DomainSplit(s: string, q: nat, d: nat) {
    q + d < |s| &&
    (forall i | q <= i < q + d :: IsDomainChar(s[i])) &&
    s[q + d] == '.' &&
    TldAt(s, q + d + 1)
  }

  predicate TldAt(s: string, p: nat) {
    exists t | 2 <= t <= 6 :: TldSplit(s, p, t)
  }

  predicate HostAt(s: string, q: nat) {
    exists d | 2 <= d <= 256 :: DomainSplit(s, q, d)
  }

  /** `urlRegex.test(s)`. */
  predicate UrlPattern(s: string) {
    var p := SchemeLength(s);
    p > 0 &&
    (HostAt(s, p) || (StartsWithIgnoringCase(s[p..], "www.", "WWW.") && HostAt(s, p + 4)))
  }

  /** `_isURL`: a non-empty string that the URL pattern accepts. */
  predicate IsURL(v: Json) {
    !IsEmptyString(v) && UrlPattern(ToJsString(v))
  }

  /** Every accepted URL starts with "http://" or "https://" in some letter case
      and is at least 12 characters long ("http://ab.cd"). */
  lemma UrlPatternShape(s: string)
    requires UrlPattern(s)
    ensures StartsWithIgnoringCase(s, "http://", "HTTP://") || StartsWithIgnoringCase(s, "https://", "HTTPS://")
    ensures |s| >= 12
  {
    var p := SchemeLength(s);
    var q := if HostAt(s, p) then p else p + 4;
    assert HostAt(s, q);
    var d :| 2 <= d <= 256 && DomainSplit(s, q, d);
    assert TldAt(s, q + d + 1);
    var t :| 2 <= t <= 6 && TldSplit(s, q + d + 1, t);
  }

  /** Every text built from a lower-case scheme, a domain of 2 to 256 domain
      characters, a dot, a top-level domain of 2 to 6 letters and a tail that
      does not continue the word is accepted. */
  lemma UrlPatternOfParts(scheme: string, domain: string, tld: string, rest: string)
    requires scheme == "http://" || scheme == "https://"
    requires 2 <= |domain| <= 256 && forall i | 0 <= i < |domain| :: IsDomainChar(domain[i])
    requires 2 <= |tld| <= 6 && forall i | 0 <= i < |tld| :: IsAsciiLetter(tld[i])
    requires rest == [] || !IsWordChar(rest[0])
    ensures UrlPattern(scheme + domain + "." + tld + rest)
  {
    var s := scheme + domain + "." + tld + rest;
    var p := |scheme|;
    assert forall i | 0 <= i < p :: s[i] == scheme[i];
    if scheme == "http://" {
      assert !StartsWithIgnoringCase(s, "https://", "HTTPS://") by { assert s[4] == ':'; }
    }
    assert SchemeLength(s) == p;
    var q := p + |domain| + 1;
    assert TldSplit(s, q, |tld|) by {
      forall i | q <= i < q + |tld| ensures IsAsciiLetter(s[i]) {
        assert s[i] == tld[i - q];
      }
      if rest != [] {
        assert s[q + |tld|] == rest[0];
      }
    }
    assert DomainSplit(s, p, |domain|) by {
      forall i | p <= i < p + |domain| ensures IsDomainChar(s[i]) {
        assert s[i] == domain[i - p];
      }
      assert s[p + |domain|] == '.';
      assert TldAt(s, q);
    }
    assert HostAt(s, p);
  }

  /** The text of a URL example is not blank. */
  lemma NotBlank(s: string)
    requires |s| > 0 && !IsWhitespace(s[0])
    ensures !IsEmptyString(JString(s))
  {
    TrimEmptyIffAllWhitespace(s);
  }

  /** A text that passes both the URL pattern and the secure test begins with
      the scheme "https://" in lower case. */
  lemma SecureUrlScheme(s: string)
    requires UrlPattern(s) && StartsWith(s, "https")
    ensures StartsWith(s, "https://")
  {
    assert s[..5] == "https";
    assert s[4] == 's';
    assert SchemeLength(s) == 8;
    assert s[..8] == "https://";
  }

  lemma UrlAcceptsHttps()
    ensures IsURL(JString("https://example.com"))
  {
    var s := "https://example.com";
    assert StartsWithIgnoringCase(s, "https://", "HTTPS://");
    assert SchemeLength(s) == 8;
    assert TldSplit(s, 16, 3);
    assert DomainSplit(s, 8, 7);
    assert HostAt(s, 8);
    NotBlank(s);
  }

  lemma HttpsIsSecure()
    ensures IsSecureURL(JString("https://example.com"))
  {
  }

  /** A plain-http URL passes the pattern but is not secure. */
  lemma UrlAcceptsHttp()
    ensures IsURL(JString("http://example.com"))
  {
    var s := "http://example.com";
    assert s[4] == ':';
    assert StartsWithIgnoringCase(s, "http://", "HTTP://");
    assert SchemeLength(s) == 7;
    assert TldSplit(s, 15, 3);
    assert DomainSplit(s, 7, 7);
    assert HostAt(s, 7);
    NotBlank(s);
  }

  lemma HttpIsNotSecure()
    ensures !IsSecureURL(JString("http://example.com"))
  {
    var s := "http://example.com";
    assert s[..5][4] == ':';
  }

  /** The URL pattern ignores the case of the scheme; the secure test does not. */
  lemma UrlAcceptsUpperCaseScheme()
    ensures IsURL(JString("HTTPS://example.com"))
  {
    var s := "HTTPS://example.com";
    assert StartsWithIgnoringCase(s, "https://", "HTTPS://");
    assert SchemeLength(s) == 8;
    assert TldSplit(s, 16, 3);
    assert DomainSplit(s, 8, 7);
    assert HostAt(s, 8);
    NotBlank(s);
  }

  lemma UpperCaseSchemeIsNotSecure()
    ensures !IsSecureURL(JString("HTTPS://example.com"))
  {
    var s := "HTTPS://example.com";
    assert s[..5][0] == 'H';
  }

  lemma UrlRejectsMissingScheme()
    ensures !IsURL(JString("example.com"))
  {
    var s := "example.com";
    assert s[0] == 'e';
    assert SchemeLength(s) == 0;
  }

  // ---------------------------------------------------------------------
  // Date

  /** `_isDate`: a non-empty string that `Date.parse` does not turn into NaN. */
  predicate IsDate(v: Json, parses: DateParser) {
    !IsEmptyString(v) && parses(ToJsString(v))
  }

  /** `_isURL` and `_isDate` reject every value `_isEmptyString` accepts,
      whatever the URL pattern or the date parser would say of its text. */
  lemma EmptyIsNeitherUrlNorDate(v: Json, parses: DateParser)
    requires IsEmptyString(v)
    ensures !IsURL(v) && !IsDate(v, parses)
  {
  }
}
