/**
 DOI extraction from a link URL (`extract_doi_from_url`).

 The publisher patterns form an ordered table. Each row is a literal lead (matched
 case-insensitively, as the source searches with `re.IGNORECASE`), optional path
 segments tried after it, and the shape of the DOI that must follow:
 `10.` + at least four digits + `/` + a run of characters up to whitespace, `]` or
 `)` (and, for the preprint servers, up to `v`, where their version suffix starts).
 A regex search settles on the leftmost position where the whole pattern matches;
 `FindFirst` gives exactly that position.
 */
module Doi {
  import opened Text

  /** One row of the prioritised pattern table. */
  datatype DoiRule = DoiRule(lead: string, skipSpaces: bool, optionalSegments: seq<string>, stopAtV: bool)

  /** The table, in the order the source tries it. The third row differs from the
      second only in the case of its lead, so under case-insensitive matching it
      can never find anything the second missed. */
  const Rules: seq<DoiRule> := [
    DoiRule("doi.org/", false, [], false),
    DoiRule("doi:", true, [], false),
    DoiRule("DOI:", true, [], false),
    DoiRule("medrxiv.org/content/", false, [], true),
    DoiRule("biorxiv.org/content/", false, [], true),
    DoiRule("pnas.org/doi/", false, ["abs/", "full/"], false),
    DoiRule("science.org/doi/", false, [], false),
    DoiRule("biomedcentral.com/articles/", false, [], false),
    DoiRule("wellcomeopenres.org/", false, [], false)
  ]

  /** Characters stripped from the end of a matched DOI: `[)\].,;*]+$`. */
  const TrailingJunk: set<char> := {')', ']', '.', ',', ';', '*'}

  /** A character that ends the DOI run `[^\s\]\)]`: whitespace, `]`, `)` unless
      `stopAtParen` is off (the in-text pattern `[^\s\]]`), and `v`/`V` when
      `stopAtV` is on (the preprint servers' `[^\s\]\)v]` under case-insensitive matching). */
  predicate StopsDoi(c: char, stopAtParen: bool, stopAtV: bool) {
    IsSpace(c) || c == ']' || (stopAtParen && c == ')') || (stopAtV && (c == 'v' || c == 'V'))
  }

  function SkipDoiChars(s: string, i: nat, stopAtParen: bool, stopAtV: bool): (j: nat)
    requires i <= |s|
    decreases |s| - i
    ensures i <= j <= |s|
    ensures forall k :: i <= k < j ==> !StopsDoi(s[k], stopAtParen, stopAtV)
    ensures j < |s| ==> StopsDoi(s[j], stopAtParen, stopAtV)
  {
    if i == |s| || StopsDoi(s[i], stopAtParen, stopAtV) then i
    else SkipDoiChars(s, i + 1, stopAtParen, stopAtV)
  }

  /** End of a DOI body `10\.\d{4,}/[^...]+` starting at `b`, if one starts there. */
  function BodyEnd(s: string, b: nat, stopAtParen: bool, stopAtV: bool): (r: Option<nat>)
    requires b <= |s|
    ensures r.Some? ==>
      && b + 9 <= r.value <= |s|
      && s[b..b + 3] == "10."
      && b + 7 <= SkipDigits(s, b + 3) < r.value - 1
      && s[SkipDigits(s, b + 3)] == '/'
    ensures r.Some? ==> LooksLikeDoi(s[b..r.value])
    ensures r.Some? ==> forall k :: SkipDigits(s, b + 3) < k < r.value ==> !StopsDoi(s[k], stopAtParen, stopAtV)
    ensures r.Some? && r.value < |s| ==> StopsDoi(s[r.value], stopAtParen, stopAtV)
  {
    if !OccursAt(s, "10.", b) then None
    else
      var d := SkipDigits(s, b + 3);
      if d - (b + 3) < 4 || d == |s| || s[d] != '/' then None
      else
        var e := SkipDoiChars(s, d + 1, stopAtParen, stopAtV);
        if e == d + 1 then None
        else
          assert s[b..e][d - b] == '/';
          assert s[b..e][..3] == "10.";
          Some(e)
  }

  /** A DOI body holds no whitespace and no `]`: its `10.` and digits cannot be
      either, and the characters after the `/` stop at them. */
  lemma BodyHasNoBreak(s: string, b: nat, stopAtParen: bool, stopAtV: bool)
    requires b <= |s| && BodyEnd(s, b, stopAtParen, stopAtV).Some?
    ensures var g := s[b..BodyEnd(s, b, stopAtParen, stopAtV).value];
      forall k :: 0 <= k < |g| ==> !IsSpace(g[k]) && g[k] != ']'
  {
    var e := BodyEnd(s, b, stopAtParen, stopAtV).value;
    var d := SkipDigits(s, b + 3);
    var g := s[b..e];
    forall k | 0 <= k < |g| ensures !IsSpace(g[k]) && g[k] != ']' {
      assert g[k] == s[b + k];
      if k < 3 {
        assert s[b..b + 3][k] == "10."[k];
      }
    }
  }

  /** The DOI group of `rule` when the whole pattern matches at `p`. */
  function MatchAt(rule: DoiRule, s: string, p: nat): (r: Option<string>)
    ensures r.Some? ==> |r.value| >= 9 && LooksLikeDoi(r.value)
  {
    if !OccursAtIgnoreCase(s, rule.lead, p) then None
    else MatchAfterLead(rule.skipSpaces, rule.optionalSegments, rule.stopAtV, s, p + |rule.lead|)
  }

  /** The DOI group when the rest of a row's pattern matches at `q0`, just after
      its lead. */
  function MatchAfterLead(skipSpaces: bool, segments: seq<string>, stopAtV: bool, s: string, q0: nat): (r: Option<string>)
    requires q0 <= |s|
    ensures r.Some? ==> |r.value| >= 9 && LooksLikeDoi(r.value)
  {
    var q := if skipSpaces then SkipSpaces(s, q0) else q0;
    match SegmentMatch(segments, stopAtV, s, q)
    case Some(b) =>
      var e := BodyEnd(s, b, true, stopAtV).value;
      Some(s[b..e])
    case None => None
  }

  /** Where the DOI starts after the optional segments: each segment is tried in
      order, then none, as `(?:abs/|full/)?` does. */
  function SegmentMatch(segments: seq<string>, stopAtV: bool, s: string, q: nat): (r: Option<nat>)
    requires q <= |s|
    decreases |segments|
    ensures r.Some? ==> r.value <= |s| && BodyEnd(s, r.value, true, stopAtV).Some?
  {
    if segments == [] then
      if BodyEnd(s, q, true, stopAtV).Some? then Some(q) else None
    else
      var seg := segments[0];
      if OccursAtIgnoreCase(s, seg, q) && BodyEnd(s, q + |seg|, true, stopAtV).Some? then Some(q + |seg|)
      else SegmentMatch(segments[1..], stopAtV, s, q)
  }

  /** The leftmost position where one row of the table matches. */
  function FirstMatch(rule: DoiRule, s: string): (r: Option<nat>)
    ensures r.Some? ==> r.value <= |s| && MatchAt(rule, s, r.value).Some?
    ensures r.Some? ==> forall q: nat :: q < r.value ==> MatchAt(rule, s, q).None?
    ensures r.None? ==> forall p: nat :: p <= |s| ==> MatchAt(rule, s, p).None?
  {
    var P := (p: nat) => MatchAt(rule, s, p).Some?;
    assert forall k: nat :: P(k) == MatchAt(rule, s, k).Some?;
    FindFirst(P, 0, |s|)
  }

  /** `re.search(pattern, url, re.IGNORECASE).group(1)` for one row of the table. */
  function Search(rule: DoiRule, s: string): (r: Option<string>)
    ensures r.Some? ==> |r.value| >= 9 && LooksLikeDoi(r.value)
  {
    match FirstMatch(rule, s)
    case Some(p) => MatchAt(rule, s, p)
    case None => None
  }

  /** A row's search finds nothing iff the row matches nowhere, and otherwise
      returns the match at the leftmost position where the row matches. */
  lemma SearchLeftmost(rule: DoiRule, s: string)
    ensures Search(rule, s).None? <==> forall p: nat :: p <= |s| ==> MatchAt(rule, s, p).None?
    ensures Search(rule, s).Some? ==>
      exists p: nat :: p <= |s| && MatchAt(rule, s, p) == Search(rule, s)
                    && forall q: nat :: q < p ==> MatchAt(rule, s, q).None?
  {
    match FirstMatch(rule, s)
    case Some(p) =>
      assert MatchAt(rule, s, p) == Search(rule, s);
    case None =>
  }

  /** Starts with `10.` and contains `/`: the check the source applies to a match. */
  predicate LooksLikeDoi(d: string) {
    StartsWith(d, "10.") && '/' in d
  }

  /** Stripping trailing characters other than `/` off a string shaped like a DOI
      keeps it shaped like one: the `/` survives, and with it the prefix `10.`. */
  lemma StripKeepsDoiShape(g: string, junk: set<char>)
    requires LooksLikeDoi(g) && '/' !in junk
    ensures LooksLikeDoi(RStripChars(g, junk))
  {
    var slash :| 0 <= slash < |g| && g[slash] == '/';
    var r := RStripChars(g, junk);
    assert g[slash] !in junk;
    assert |r| > slash;
    assert r[slash] == '/';
    assert r[..3] == g[..3];
  }

  /** Stripping trailing punctuation from a matched DOI never undoes its shape, so
      the source's validity check after the strip always passes. */
  lemma StrippedMatchLooksLikeDoi(rule: DoiRule, s: string, p: nat)
    requires MatchAt(rule, s, p).Some?
    ensures LooksLikeDoi(RStripChars(MatchAt(rule, s, p).value, TrailingJunk))
  {
    StripKeepsDoiShape(MatchAt(rule, s, p).value, TrailingJunk);
  }

  /** A match with its trailing punctuation stripped, kept when it still passes
      the check. */
  function Cleaned(found: string): (r: Option<string>)
    ensures r.Some? ==> r.value == RStripChars(found, TrailingJunk)
    ensures r.Some? ==> LooksLikeDoi(r.value) && r.value[|r.value| - 1] !in TrailingJunk
  {
    var doi := RStripChars(found, TrailingJunk);
    if LooksLikeDoi(doi) then
      assert doi[..3] == "10.";
      Some(doi)
    else None
  }

  /** The table loop from row `k` on: the first row whose search finds a DOI that
      passes the check wins. */
  function FromRules(rules: seq<DoiRule>, url: string, k: nat): (r: Option<string>)
    decreases |rules| - k
    ensures r.Some? ==> LooksLikeDoi(r.value)
    ensures r.Some? ==> r.value[|r.value| - 1] !in TrailingJunk
  {
    if k >= |rules| then None
    else
      match Search(rules[k], url)
      case Some(found) =>
        if Cleaned(found).Some? then Cleaned(found) else FromRules(rules, url, k + 1)
      case None => FromRules(rules, url, k + 1)
  }

  /** Characters of the Nature article slug `s\d+-\d+-\d+-\w+`. */
  function NatureSlugEnd(s: string, g: nat): (r: Option<nat>)
    requires g <= |s|
    ensures r.Some? ==> g < r.value <= |s|
  {
    if g == |s| || (s[g] != 's' && s[g] != 'S') then None
    else
      var d1 := SkipDigits(s, g + 1);
      if d1 == g + 1 || d1 == |s| || s[d1] != '-' then None
      else
        var d2 := SkipDigits(s, d1 + 1);
        if d2 == d1 + 1 || d2 == |s| || s[d2] != '-' then None
        else
          var d3 := SkipDigits(s, d2 + 1);
          if d3 == d2 + 1 || d3 == |s| || s[d3] != '-' then None
          else
            var w := SkipWordChars(s, d3 + 1);
            if w == d3 + 1 then None else Some(w)
  }

  const NatureLead := "nature.com/articles/"

  function NatureAt(s: string, p: nat): Option<string> {
    if !OccursAtIgnoreCase(s, NatureLead, p) then None
    else
      match NatureSlugEnd(s, p + |NatureLead|)
      case Some(e) => Some(s[p + |NatureLead|..e])
      case None => None
  }

  /** The Nature reconstruction: the DOI prefix of Nature Publishing Group followed by the slug. */
  function NatureDoi(url: string): (r: Option<string>)
    ensures r.Some? ==> StartsWith(r.value, "10.1038/") && |r.value| > |"10.1038/"|
    ensures r.Some? ==> LooksLikeDoi(r.value)
  {
    match FindFirst((p: nat) => NatureAt(url, p).Some?, 0, |url|)
    case Some(p) =>
      var d := "10.1038/" + NatureAt(url, p).value;
      assert d[7] == '/';
      Some(d)
    case None => None
  }

  /** `extract_doi_from_url`. */
  function ExtractDoiFromUrl(url: string): (r: Option<string>)
    ensures url == "" ==> r == None
    ensures r.Some? ==> LooksLikeDoi(r.value)
  {
    if url == "" then None
    else
      match FromRules(Rules, url, 0)
      case Some(doi) => Some(doi)
      case None => NatureDoi(url)
  }

  // ---------------------------------------------------------------------------
  // Properties

  /** Every row that matches yields a DOI that passes the check, so the loop
      returns the cleaned match of the first row whose search succeeds. */
  lemma {:induction false} FromRulesTakesFirstMatchingRow(rules: seq<DoiRule>, url: string, k: nat)
    requires k < |rules|
    requires Search(rules[k], url).Some?
    ensures FromRules(rules, url, k) == Some(RStripChars(Search(rules[k], url).value, TrailingJunk))
  {
    var p := FindFirst((p: nat) => MatchAt(rules[k], url, p).Some?, 0, |url|).value;
    StrippedMatchLooksLikeDoi(rules[k], url, p);
  }

  /** A DOI found by the pattern table starts with `10.`, contains `/` and has no
      trailing `)].,;*`. */
  lemma TableDoiShape(url: string)
    requires url != "" && FromRules(Rules, url, 0).Some?
    ensures ExtractDoiFromUrl(url) == FromRules(Rules, url, 0)
    ensures LooksLikeDoi(ExtractDoiFromUrl(url).value)
    ensures ExtractDoiFromUrl(url).value[|ExtractDoiFromUrl(url).value| - 1] !in TrailingJunk
  {
  }

  /** When no row matches, the result is the Nature reconstruction, which starts
      with `10.1038/`. */
  lemma NatureFallbackShape(url: string)
    requires url != "" && FromRules(Rules, url, 0).None?
    ensures ExtractDoiFromUrl(url) == NatureDoi(url)
    ensures ExtractDoiFromUrl(url).Some? ==> StartsWith(ExtractDoiFromUrl(url).value, "10.1038/")
  {
  }

  lemma {:induction false} FindFirstExtensional(P: nat -> bool, Q: nat -> bool, lo: nat, hi: nat)
    requires lo <= hi + 1
    requires forall k :: lo <= k <= hi ==> P(k) == Q(k)
    ensures FindFirst(P, lo, hi) == FindFirst(Q, lo, hi)
    decreases hi + 1 - lo
  {
    if lo <= hi {
      FindFirstExtensional(P, Q, lo + 1, hi);
    }
  }

  /** Two leads that differ only in case occur at the same places. */
  lemma LeadsOccurAlike(s: string, a: string, b: string, p: nat)
    requires |a| == |b| && Lower(a) == Lower(b)
    ensures OccursAtIgnoreCase(s, a, p) == OccursAtIgnoreCase(s, b, p)
  {
  }

  /** Two rows that differ only in the case of their lead match the same text. */
  lemma SameLeadIgnoringCase(r1: DoiRule, r2: DoiRule, s: string, p: nat)
    requires |r1.lead| == |r2.lead| && Lower(r1.lead) == Lower(r2.lead)
    requires r1.skipSpaces == r2.skipSpaces && r1.optionalSegments == r2.optionalSegments
    requires r1.stopAtV == r2.stopAtV
    ensures MatchAt(r1, s, p) == MatchAt(r2, s, p)
  {
    LeadsOccurAlike(s, r1.lead, r2.lead, p);
  }

  /** The `DOI:` row is redundant under case-insensitive matching: it finds exactly
      what the `doi:` row before it finds. */
  lemma UpperCaseRowRedundant(url: string)
    ensures Search(Rules[2], url) == Search(Rules[1], url)
  {
    var r1, r2 := Rules[1], Rules[2];
    assert Lower(r2.lead) == Lower(r1.lead);
    forall p: nat ensures MatchAt(r2, url, p) == MatchAt(r1, url, p) {
      SameLeadIgnoringCase(r2, r1, url, p);
    }
    FindFirstExtensional((p: nat) => MatchAt(r2, url, p).Some?, (p: nat) => MatchAt(r1, url, p).Some?, 0, |url|);
  }
}
