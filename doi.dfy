/**
  DOI validation (`DoiValidator::validate`). Both copies of the validator, the
  layered one and the legacy one, are the same straight-line function: trim and
  lowercase, reject an empty result, strip one resolver prefix, then require the
  `10.<digits>/<suffix>` shape. One function models both.
*/
module Doi {
  import opened Wrappers
  import opened PhpStrings
  import opened PhpValues

  /** `InvalidDoiException`, carrying the string that failed. */
  datatype InvalidDoi = InvalidDoi(doi: string)

  /** Every prefix the pattern `#^(https?://)?(?:dx\.)?doi\.org/#` can match. */
  const ResolverPrefixes: seq<string> := [
    "doi.org/", "dx.doi.org/",
    "http://doi.org/", "http://dx.doi.org/",
    "https://doi.org/", "https://dx.doi.org/"
  ]

  /** `strtolower(trim($doi))`. */
  function Normalize(raw: string): string {
    ToLower(Trim(raw))
  }

  /**
    `preg_replace('#^(https?://)?(?:dx\.)?doi\.org/#', '', $doi)`: the prefix
    pattern is anchored, so at most one prefix is removed, and when a prefix
    matches it is the one in the list that the string starts with.
  */
  function StripResolverPrefix(s: string): (r: string)
    ensures |r| <= |s| && r == s[|s| - |r|..]
  {
    var afterScheme := if "https://" <= s then s[8..] else if "http://" <= s then s[7..] else s;
    var afterDx := if "dx." <= afterScheme then afterScheme[3..] else afterScheme;
    if "doi.org/" <= afterDx then afterDx[8..] else s
  }

  /** A string that starts with neither 'd' nor 'h' carries no resolver prefix and is left alone. */
  lemma StripWithoutPrefix(s: string)
    requires s == [] || (s[0] != 'd' && s[0] != 'h')
    ensures StripResolverPrefix(s) == s
  {
  }

  lemma ConcatAssoc(p: string, q: string, w: string)
    ensures p + q + w == p + (q + w)
  {
  }

  /** A prefix in front of a tail is a prefix, and dropping it gives the tail. */
  lemma DropPrefix(a: string, t: string)
    ensures a <= a + t && (a + t)[|a|..] == t
  {
    assert (a + t)[..|a|] == a;
  }

  /** A string that starts with `a` but not with `a + b` does not continue with `b`. */
  lemma SplitPrefix(a: string, b: string, s: string)
    requires a <= s && !(a + b <= s)
    ensures !(b <= s[|a|..])
  {
    if |a| + |b| <= |s| {
      var i :| 0 <= i < |a| + |b| && (a + b)[i] != s[i];
      if i >= |a| {
        assert b[i - |a|] != s[|a|..][i - |a|];
      }
    }
  }

  /** Each scheme the pattern allows, with or without `dx.`, in front of `doi.org/` is listed. */
  lemma ListedCombination(scheme: string, dx: string)
    requires scheme == "https://" || scheme == "http://" || scheme == ""
    requires dx == "dx." || dx == ""
    ensures scheme + (dx + "doi.org/") in ResolverPrefixes
  {
    var base := if scheme == "https://" then 4 else if scheme == "http://" then 2 else 0;
    if dx == "dx." {
      assert scheme + (dx + "doi.org/") == ResolverPrefixes[base + 1];
    } else {
      assert scheme + (dx + "doi.org/") == ResolverPrefixes[base];
    }
  }

  /**
    The anchored pattern removes nothing from a string that starts with none of
    the listed prefixes.
  */
  lemma StripOnlyListed(s: string)
    requires forall p :: p in ResolverPrefixes ==> !(p <= s)
    ensures StripResolverPrefix(s) == s
  {
    var scheme := if "https://" <= s then "https://" else if "http://" <= s then "http://" else "";
    var afterScheme := s[|scheme|..];
    var dx := if "dx." <= afterScheme then "dx." else "";
    ListedCombination(scheme, dx);
    assert !(scheme + (dx + "doi.org/") <= s);
    SplitPrefix(scheme, dx + "doi.org/", s);
    SplitPrefix(dx, "doi.org/", afterScheme);
  }

  /** A string that differs from `a` at an index of both does not start with `a`. */
  lemma Mismatch(a: string, b: string, t: string, i: nat)
    requires i < |a| && i < |b| && a[i] != b[i]
    ensures !(a <= b + t)
  {
    assert (b + t)[i] == b[i];
  }

  lemma StripBare(d: string)
    ensures StripResolverPrefix("doi.org/" + d) == d
  {
    var s := "doi.org/" + d;
    Mismatch("https://", "doi.org/", d, 0);
    Mismatch("http://", "doi.org/", d, 0);
    Mismatch("dx.", "doi.org/", d, 1);
    DropPrefix("doi.org/", d);
  }

  lemma StripBareDx(d: string)
    ensures StripResolverPrefix("dx.doi.org/" + d) == d
  {
    Mismatch("https://", "dx.doi.org/", d, 0);
    Mismatch("http://", "dx.doi.org/", d, 0);
    assert "dx.doi.org/" == "dx." + "doi.org/";
    ConcatAssoc("dx.", "doi.org/", d);
    DropPrefix("dx.", "doi.org/" + d);
    DropPrefix("doi.org/", d);
  }

  lemma StripHttp(d: string)
    ensures StripResolverPrefix("http://doi.org/" + d) == d
  {
    Mismatch("https://", "http://doi.org/", d, 4);
    assert "http://doi.org/" == "http://" + "doi.org/";
    ConcatAssoc("http://", "doi.org/", d);
    DropPrefix("http://", "doi.org/" + d);
    Mismatch("dx.", "doi.org/", d, 1);
    DropPrefix("doi.org/", d);
  }

  lemma StripHttpDx(d: string)
    ensures StripResolverPrefix("http://dx.doi.org/" + d) == d
  {
    Mismatch("https://", "http://dx.doi.org/", d, 4);
    assert "http://dx.doi.org/" == "http://" + ("dx." + "doi.org/");
    ConcatAssoc("dx.", "doi.org/", d);
    ConcatAssoc("http://", "dx." + "doi.org/", d);
    DropPrefix("http://", "dx." + "doi.org/" + d);
    DropPrefix("dx.", "doi.org/" + d);
    DropPrefix("doi.org/", d);
  }

  lemma StripHttps(d: string)
    ensures StripResolverPrefix("https://doi.org/" + d) == d
  {
    assert "https://doi.org/" == "https://" + "doi.org/";
    ConcatAssoc("https://", "doi.org/", d);
    DropPrefix("https://", "doi.org/" + d);
    Mismatch("dx.", "doi.org/", d, 1);
    DropPrefix("doi.org/", d);
  }

  lemma StripHttpsDx(d: string)
    ensures StripResolverPrefix("https://dx.doi.org/" + d) == d
  {
    assert "https://dx.doi.org/" == "https://" + ("dx." + "doi.org/");
    ConcatAssoc("dx.", "doi.org/", d);
    ConcatAssoc("https://", "dx." + "doi.org/", d);
    DropPrefix("https://", "dx." + "doi.org/" + d);
    DropPrefix("dx.", "doi.org/" + d);
    DropPrefix("doi.org/", d);
  }

  /** Each listed resolver prefix in front of a string is removed, and only it. */
  lemma StripListedPrefix(p: string, d: string)
    requires p in ResolverPrefixes
    ensures StripResolverPrefix(p + d) == d
  {
    var i :| 0 <= i < |ResolverPrefixes| && ResolverPrefixes[i] == p;
    if i == 0 { StripBare(d); }
    else if i == 1 { StripBareDx(d); }
    else if i == 2 { StripHttp(d); }
    else if i == 3 { StripHttpDx(d); }
    else if i == 4 { StripHttps(d); }
    else { StripHttpsDx(d); }
  }

  /** `preg_match('/^10\.\d+\/.+/', $doi)`, scanned left to right; `\d` is an ASCII digit. */
  predicate MatchesDoiPattern(s: string) {
    && "10." <= s
    && var k := 3 + |LeadingDigits(s[3..])|;
    && k > 3 && k + 1 < |s| && s[k] == '/' && s[k + 1] != '\n'
  }

  /**
    The same pattern stated as a shape: "10.", a run of one or more digits
    ending at position k, a '/' at k, and then some character other than a
    newline (`.` does not match a newline; nothing after it is constrained).
  */
  ghost predicate DoiShaped(s: string) {
    exists k :: 3 < k < |s| - 1 && s[..3] == "10." && AllDigits(s[3..k]) && s[k] == '/' && s[k + 1] != '\n'
  }

  /** The left-to-right scan and the shape agree, in both directions. */
  lemma PatternMatchesShape(s: string)
    ensures MatchesDoiPattern(s) <==> DoiShaped(s)
  {
    if MatchesDoiPattern(s) {
      var k := 3 + |LeadingDigits(s[3..])|;
      assert s[3..k] == LeadingDigits(s[3..]);
      assert s[..3] == "10.";
    }
    if DoiShaped(s) {
      var k :| 3 < k < |s| - 1 && s[..3] == "10." && AllDigits(s[3..k]) && s[k] == '/' && s[k + 1] != '\n';
      assert s[3..] == s[3..k] + s[k..];
      LeadingDigitsStop(s[3..k], s[k..]);
      assert "10." <= s;
    }
  }

  /**
    Accepts exactly the inputs whose normalized,
    prefix-stripped form has the DOI shape and returns that form; every other
    input fails with InvalidDoi carrying that same form (for an input that is
    empty after normalization the early `empty()` check gives the same error).
  */
  lemma ValidateAcceptsIff(raw: string)
    ensures Validate(raw).Ok? <==> DoiShaped(StripResolverPrefix(Normalize(raw)))
    ensures Validate(raw).Ok? ==> Validate(raw).value == StripResolverPrefix(Normalize(raw))
    ensures Validate(raw).Err? ==> Validate(raw).error == InvalidDoi(StripResolverPrefix(Normalize(raw)))
  {
    CheckAcceptsIff(Normalize(raw));
  }

  /** The same statement for the part after normalization. */
  lemma CheckAcceptsIff(doi: string)
    ensures CheckNormalized(doi).Ok? <==> DoiShaped(StripResolverPrefix(doi))
    ensures CheckNormalized(doi).Ok? ==> CheckNormalized(doi).value == StripResolverPrefix(doi)
    ensures CheckNormalized(doi).Err? ==> CheckNormalized(doi).error == InvalidDoi(StripResolverPrefix(doi))
  {
    PatternMatchesShape(StripResolverPrefix(doi));
    if IsEmptyString(doi) {
      assert StripResolverPrefix(doi) == doi;
      assert !MatchesDoiPattern(doi);
    }
  }

  /** `DoiValidator::validate`. */
  function Validate(raw: string): (r: Result<string, InvalidDoi>)
    ensures r.Ok? ==> MatchesDoiPattern(r.value)
  {
    CheckNormalized(Normalize(raw))
  }

  /** The part of `validate` after `strtolower(trim(...))`. */
  function CheckNormalized(doi: string): (r: Result<string, InvalidDoi>)
    ensures r.Ok? ==> MatchesDoiPattern(r.value)
  {
    if IsEmptyString(doi) then
      Err(InvalidDoi(doi))
    else
      var stripped := StripResolverPrefix(doi);
      if !MatchesDoiPattern(stripped) then Err(InvalidDoi(stripped))
      else Ok(stripped)
  }

  lemma LowerKeepsTrimChars(c: char)
    ensures IsTrimChar(LowerChar(c)) <==> IsTrimChar(c)
  {
  }

  /** No upper-case ASCII and no trim character at either end: what normalization leaves. */
  predicate Clean(s: string) {
    NoUpper(s) && (s == [] || (!IsTrimChar(s[0]) && !IsTrimChar(s[|s| - 1])))
  }

  /** Trimming comes first: the normalized string has no trim character at either end and no upper-case ASCII. */
  lemma NormalizedIsClean(raw: string)
    ensures Clean(Normalize(raw))
  {
    var t := Trim(raw);
    var n := ToLower(t);
    ToLowerNoUpper(t);
    if t != [] {
      assert n[0] == LowerChar(t[0]) && n[|n| - 1] == LowerChar(t[|t| - 1]);
      LowerKeepsTrimChars(t[0]);
      LowerKeepsTrimChars(t[|t| - 1]);
    }
  }

  /** A clean string is its own normal form. */
  lemma NormalizeFixed(s: string)
    requires Clean(s)
    ensures Normalize(s) == s
  {
    TrimUnchanged(s);
    ToLowerUnchanged(s);
  }

  /** The pattern is anchored at an initial "10.". */
  lemma PatternNeedsTen(s: string)
    requires s == [] || s[0] != '1'
    ensures !MatchesDoiPattern(s)
  {
  }

  /** A suffix of a clean string has no upper-case ASCII and a clean last character. */
  lemma SuffixKeepsClean(n: string, r: string)
    requires Clean(n) && |r| <= |n| && r == n[|n| - |r|..]
    ensures NoUpper(r) && (r == [] || !IsTrimChar(r[|r| - 1]))
  {
    assert forall i :: 0 <= i < |r| ==> r[i] == n[|n| - |r| + i];
  }

  /** Prefix stripping and the pattern keep a clean string clean. */
  lemma CheckKeepsClean(n: string)
    requires Clean(n)
    ensures CheckNormalized(n).Ok? ==> Clean(CheckNormalized(n).value) && CheckNormalized(n).value != []
    ensures CheckNormalized(n).Err? ==> NoUpper(CheckNormalized(n).error.doi)
  {
    var r := StripResolverPrefix(n);
    SuffixKeepsClean(n, r);
    if CheckNormalized(n).Ok? {
      assert r[0] == '1';
    }
  }

  /**
    A validated DOI has no upper-case ASCII and no surrounding whitespace, and
    the string an InvalidDoi carries has no upper-case ASCII either.
  */
  lemma ValidateOutputNormalized(raw: string)
    ensures Validate(raw).Ok? ==> Clean(Validate(raw).value) && Validate(raw).value != []
    ensures Validate(raw).Err? ==> NoUpper(Validate(raw).error.doi)
  {
    NormalizedIsClean(raw);
    CheckKeepsClean(Normalize(raw));
  }

  /** Input that is empty for PHP after trimming and lowering ("" or "0") raises InvalidDoi with that string. */
  lemma ValidateRejectsEmpty(raw: string)
    requires IsEmptyString(Normalize(raw))
    ensures Validate(raw) == Err(InvalidDoi(Normalize(raw)))
  {
  }

  /** Validating the normalized input gives the same result: trim and strtolower act before anything else. */
  lemma ValidateSeesOnlyNormalized(raw: string)
    ensures Validate(Normalize(raw)) == Validate(raw)
  {
    NormalizedIsClean(raw);
    NormalizeFixed(Normalize(raw));
  }

  /** Every resolver prefix is itself clean, at least eight characters long, and does not start with '1'. */
  lemma ResolverPrefixClean(p: string)
    requires p in ResolverPrefixes
    ensures Clean(p) && |p| >= 8 && p[0] != '1'
  {
  }

  /** Two clean non-empty strings in front of a tail: normalization lowers and right-trims only the tail. */
  lemma NormalizeCleanPrefix(p: string, t: string)
    requires p != [] && Clean(p)
    ensures Normalize(p + t) == p + ToLower(TrimRight(t))
  {
    TrimPrepended(p, t);
    ToLowerAppend(p, TrimRight(t));
    ToLowerUnchanged(p);
  }

  /** Concatenating two clean non-empty strings gives a clean string. */
  lemma CleanConcat(p: string, q: string)
    requires p != [] && q != [] && Clean(p) && Clean(q)
    ensures Clean(p + q)
  {
    var s := p + q;
    assert s[0] == p[0] && s[|s| - 1] == q[|q| - 1];
    assert forall i :: 0 <= i < |p| ==> s[i] == p[i];
    assert forall i :: |p| <= i < |s| ==> s[i] == q[i - |p|];
  }

  /** On a clean string validation is the post-normalization check alone. */
  lemma ValidateClean(s: string)
    requires Clean(s)
    ensures Validate(s) == CheckNormalized(s)
  {
    NormalizeFixed(s);
  }

  /** After a resolver prefix, what decides is whether the rest matches the pattern. */
  lemma CheckAfterPrefix(p: string, d: string)
    requires p in ResolverPrefixes
    ensures CheckNormalized(p + d) == if MatchesDoiPattern(d) then Ok(d) else Err(InvalidDoi(d))
  {
    ResolverPrefixClean(p);
    StripListedPrefix(p, d);
    assert |p + d| > 1;
  }

  /** Behind a clean non-empty head, validation sees the head and the lowered, right-trimmed tail. */
  lemma ValidateAfterCleanHead(h: string, t: string)
    requires h != [] && Clean(h)
    ensures Validate(h + t) == CheckNormalized(h + ToLower(TrimRight(t)))
  {
    NormalizeCleanPrefix(h, t);
  }

  /**
    Only one resolver prefix is removed: a doubled prefix leaves the second one
    in place, and validation fails with it at the front.
  */
  lemma DoubledPrefixRejected(p: string, q: string, t: string)
    requires p in ResolverPrefixes && q in ResolverPrefixes
    ensures Validate(p + q + t) == Err(InvalidDoi(q + ToLower(TrimRight(t))))
  {
    ResolverPrefixClean(p);
    ResolverPrefixClean(q);
    CleanConcat(p, q);
    var w := ToLower(TrimRight(t));
    ValidateAfterCleanHead(p + q, t);
    ConcatAssoc(p, q, w);
    CheckAfterPrefix(p, q + w);
    assert (q + w)[0] == q[0];
    PatternNeedsTen(q + w);
  }

  /** A successful result validates to itself. */
  lemma ValidateIdempotent(raw: string)
    requires Validate(raw).Ok?
    ensures Validate(Validate(raw).value) == Ok(Validate(raw).value)
  {
    var r := Validate(raw).value;
    ValidateOutputNormalized(raw);
    NormalizeFixed(r);
    CanonicalChecked(r);
  }

  /** `validate(validate(x)) == validate(x)` whenever the first call succeeds. */
  lemma ValidateTwice(raw: string)
    ensures Validate(raw).Ok? ==> Validate(Validate(raw).value) == Validate(raw)
  {
    if Validate(raw).Ok? {
      ValidateIdempotent(raw);
    }
  }

  /** A string matching the pattern passes the post-normalization checks unchanged. */
  lemma CanonicalChecked(s: string)
    requires MatchesDoiPattern(s)
    ensures CheckNormalized(s) == Ok(s)
  {
    assert s[0] == '1';
    StripWithoutPrefix(s);
  }

  /** A clean DOI-shaped string (its '/' at k) is returned unchanged. */
  lemma CanonicalAccepted(s: string, k: nat)
    requires 3 < k < |s| - 1 && s[..3] == "10." && AllDigits(s[3..k]) && s[k] == '/' && s[k + 1] != '\n'
    requires NoUpper(s) && !IsTrimChar(s[|s| - 1])
    ensures Validate(s) == Ok(s)
  {
    assert s[0] == '1';
    NormalizeFixed(s);
    PatternMatchesShape(s);
    CanonicalChecked(s);
  }

  /** A resolver prefix in front of a clean DOI-shaped string is removed. */
  lemma PrefixedAccepted(p: string, d: string, k: nat)
    requires p in ResolverPrefixes
    requires 3 < k < |d| - 1 && d[..3] == "10." && AllDigits(d[3..k]) && d[k] == '/' && d[k + 1] != '\n'
    requires NoUpper(d) && !IsTrimChar(d[|d| - 1])
    ensures Validate(p + d) == Ok(d)
  {
    PatternMatchesShape(d);
    PrefixedMatchAccepted(p, d);
  }

  /** The same, for a string that matches the pattern. */
  lemma PrefixedMatchAccepted(p: string, d: string)
    requires p in ResolverPrefixes
    requires MatchesDoiPattern(d) && NoUpper(d) && !IsTrimChar(d[|d| - 1])
    ensures Validate(p + d) == Ok(d)
  {
    ResolverPrefixClean(p);
    assert d[0] == '1';
    CleanConcat(p, d);
    ValidateClean(p + d);
    CheckAfterPrefix(p, d);
  }

  /** A clean input that begins with neither a resolver prefix nor "10." is rejected. */
  lemma NotStartingWithTenRejected(s: string)
    requires s != [] && Clean(s)
    requires s[0] != '1' && s[0] != 'd' && s[0] != 'h'
    ensures Validate(s).Err?
  {
    NormalizeFixed(s);
    StripWithoutPrefix(s);
    PatternNeedsTen(s);
  }

  /** No upper-case ASCII in either part means none in the concatenation. */
  lemma NoUpperConcat(a: string, b: string)
    requires NoUpper(a) && NoUpper(b)
    ensures NoUpper(a + b)
  {
    var s := a + b;
    assert forall i :: |a| <= i < |s| ==> s[i] == b[i - |a|];
  }

  /** The DOI `10.<digits>/<suffix>` assembled from its parts. */
  function Assembled(digits: string, suffix: string): (s: string)
    ensures |s| == 4 + |digits| + |suffix|
  {
    "10." + digits + "/" + suffix
  }

  /** An assembled DOI with a clean suffix validates to itself. */
  lemma AssembledAccepted(digits: string, suffix: string)
    requires digits != [] && AllDigits(digits) && NoUpper(digits)
    requires suffix != [] && suffix[0] != '\n' && NoUpper(suffix) && !IsTrimChar(suffix[|suffix| - 1])
    ensures Validate(Assembled(digits, suffix)) == Ok(Assembled(digits, suffix))
  {
    var s := Assembled(digits, suffix);
    var k := 3 + |digits|;
    AssembledShape(digits, suffix);
    CanonicalAccepted(s, k);
  }

  /** A resolver prefix in front of an assembled DOI with a clean suffix is removed. */
  lemma AssembledPrefixedAccepted(p: string, digits: string, suffix: string)
    requires p in ResolverPrefixes
    requires digits != [] && AllDigits(digits) && NoUpper(digits)
    requires suffix != [] && suffix[0] != '\n' && NoUpper(suffix) && !IsTrimChar(suffix[|suffix| - 1])
    ensures Validate(p + Assembled(digits, suffix)) == Ok(Assembled(digits, suffix))
  {
    var s := Assembled(digits, suffix);
    AssembledShape(digits, suffix);
    PrefixedAccepted(p, s, 3 + |digits|);
  }

  lemma AssembledShape(digits: string, suffix: string)
    requires digits != [] && AllDigits(digits) && NoUpper(digits)
    requires suffix != [] && suffix[0] != '\n' && NoUpper(suffix) && !IsTrimChar(suffix[|suffix| - 1])
    ensures var s := Assembled(digits, suffix); var k := 3 + |digits|;
      && 3 < k < |s| - 1 && s[..3] == "10." && AllDigits(s[3..k]) && s[k] == '/' && s[k + 1] != '\n'
      && NoUpper(s) && !IsTrimChar(s[|s| - 1])
  {
    var s := Assembled(digits, suffix);
    var k := 3 + |digits|;
    assert s[..3] == "10.";
    assert s[3..k] == digits;
    assert s[k] == '/' && s[k + 1] == suffix[0];
    assert s[|s| - 1] == suffix[|suffix| - 1];
    NoUpperConcat("10.", digits);
    NoUpperConcat("10." + digits, "/");
    NoUpperConcat("10." + digits + "/", suffix);
  }

  // Examples from the two validator test suites.

  lemma ExampleParts()
    ensures AllDigits("30430") && NoUpper("30430") && NoUpper("gjae.2023.0350")
    ensures AllDigits("1038") && NoUpper("1038") && NoUpper("nature12373")
  {
    NoUpperConcat("gjae.", "2023.0350");
    assert "gjae.2023.0350" == "gjae." + "2023.0350";
    NoUpperConcat("nature", "12373");
    assert "nature12373" == "nature" + "12373";
  }

  lemma ExampleDois()
    ensures Assembled("30430", "gjae.2023.0350") == "10.30430/gjae.2023.0350"
    ensures Assembled("1038", "nature12373") == "10.1038/nature12373"
  {
  }

  lemma SuiteAssembled()
    ensures Validate(Assembled("30430", "gjae.2023.0350")) == Ok(Assembled("30430", "gjae.2023.0350"))
    ensures Validate("https://doi.org/" + Assembled("30430", "gjae.2023.0350")) == Ok(Assembled("30430", "gjae.2023.0350"))
  {
    ExampleParts();
    AssembledAccepted("30430", "gjae.2023.0350");
    AssembledPrefixedAccepted("https://doi.org/", "30430", "gjae.2023.0350");
  }

  lemma LegacySuiteAssembled()
    ensures Validate(Assembled("1038", "nature12373")) == Ok(Assembled("1038", "nature12373"))
    ensures Validate("https://doi.org/" + Assembled("1038", "nature12373")) == Ok(Assembled("1038", "nature12373"))
  {
    ExampleParts();
    AssembledAccepted("1038", "nature12373");
    AssembledPrefixedAccepted("https://doi.org/", "1038", "nature12373");
  }

  lemma CanonicalExample()
    ensures Validate("10.30430/gjae.2023.0350") == Ok("10.30430/gjae.2023.0350")
  {
    SuiteAssembled();
    ExampleDois();
  }

  lemma PrefixedExample()
    ensures Validate("https://doi.org/" + "10.30430/gjae.2023.0350") == Ok("10.30430/gjae.2023.0350")
  {
    SuiteAssembled();
    ExampleDois();
  }

  lemma InvalidExample()
    ensures Validate("invalid-doi") == Err(InvalidDoi("invalid-doi"))
  {
    NoUpperConcat("invalid", "-doi");
    assert "invalid-doi" == "invalid" + "-doi";
    NotStartingWithTenRejected("invalid-doi");
    ValidateAcceptsIff("invalid-doi");
    NormalizeFixed("invalid-doi");
    StripWithoutPrefix("invalid-doi");
  }

  lemma LegacyCanonicalExample()
    ensures Validate("10.1038/nature12373") == Ok("10.1038/nature12373")
  {
    LegacySuiteAssembled();
    ExampleDois();
  }

  lemma LegacyPrefixedExample()
    ensures Validate("https://doi.org/" + "10.1038/nature12373") == Ok("10.1038/nature12373")
  {
    LegacySuiteAssembled();
    ExampleDois();
  }
}
